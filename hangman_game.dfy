/** The game object: the state of the current round in fields that `start`, `guess`, `checkWin` and
    `onWrongGuess` update in place. Each method is proved to do what the matching function of HangmanRules
    says, so the lemmas proved there about rounds hold of the object. */
module HangmanGame {
  import opened Wrappers
  import opened HangmanRules

  class Game {
    var word: string
    var guesses: seq<char>
    var isOver: bool
    var didWin: bool
    /** The body parts drawn on the canvas this round, in drawing order. */
    ghost var drawn: seq<Part>

    /** The round the fields hold. */
    ghost function State(): Round
      reads this
    {
      Round(word, guesses, isOver, didWin, drawn)
    }

    ghost predicate Valid()
      reads this
    {
      Inv(State())
    }

    /** A game with no round started yet: no word and no guesses. */
    constructor ()
      ensures Valid() && State() == NewRound("")
    {
      word, guesses, isOver, didWin := "", [], false, false;
      drawn := [];
    }

    /** `start`, with the word the word service returned: clears the guesses and both flags; the canvas is
        cleared back to the gallows. */
    method Start(w: string)
      modifies this
      ensures Valid() && State() == NewRound(w)
    {
      word := w;
      drawn := [];
      guesses := [];
      isOver := false;
      didWin := false;
      assert State() == NewRound(w);
    }

    /** `guess`: refuses a missing input, anything but one letter, and a letter already guessed, changing
        nothing; otherwise records the lower-cased letter and checks for a win or counts a wrong guess. */
    method Guess(letter: Option<string>) returns (r: Result<char, GuessError>)
      requires Valid()
      modifies this
      ensures Valid()
      ensures (State(), r) == Step(old(State()), letter)
    {
      ghost var before := State();
      if letter.None? {
        return Err(NoLetter);
      }
      var s := letter.value;
      if |s| != 1 {
        return Err(NotOneLetter);
      }
      if !IsLetter(s[0]) {
        return Err(NotALetter);
      }
      var c := ToLower(s[0]);
      if c in guesses {
        return Err(AlreadyGuessed);
      }
      guesses := guesses + [c];
      if c in word {
        CheckWin();
      } else {
        OnWrongGuess();
      }
      r := Ok(c);
      StepKeepsInv(before, letter);
    }

    /** `checkWin`: counts the letters of the word not yet guessed; when there are none, the round is won. */
    method CheckWin()
      modifies this`isOver, this`didWin
      ensures State() == HangmanRules.CheckWin(old(State()))
    {
      var unknown := |Unknown(word, guesses)|;
      if unknown == 0 {
        didWin := true;
        isOver := true;
      }
    }

    /** `onWrongGuess`: counts the wrong guesses and draws the part for that count; the sixth ends the round
        as lost. */
    method OnWrongGuess()
      modifies this`isOver, this`didWin, this`drawn
      ensures State() == HangmanRules.OnWrongGuess(old(State()))
    {
      var wrong := |Misses(word, guesses)|;
      if wrong == 1 {
        drawn := drawn + [Head];
      }
      if wrong == 2 {
        drawn := drawn + [Body];
      }
      if wrong == 3 {
        drawn := drawn + [RightArm];
      }
      if wrong == 4 {
        drawn := drawn + [LeftArm];
      }
      if wrong == 5 {
        drawn := drawn + [RightLeg];
      }
      if wrong == 6 {
        drawn := drawn + [LeftLeg];
        isOver := true;
        didWin := false;
      }
    }

    /** `getWordHolderText`: the word with unguessed letters masked by `_`, joined by the default
        separator ",": letter i, or its mask, at offset 2 * i, a comma after every entry but the last. */
    function GetWordHolderText(): (r: string)
      reads this
      ensures |r| == if word == [] then 0 else 2 * |word| - 1
      ensures forall i :: 0 <= i < |word| ==>
        r[2 * i] == (if word[i] in guesses then word[i] else '_') && (i < |word| - 1 ==> r[2 * i + 1] == ',')
    {
      WordHolderTextWithCommas(word, guesses);
      WordHolderText(word, guesses, ",")
    }

    /** `getGuessesText`: "Guesses: " and the guesses in guess order separated by ", ". */
    function GetGuessesText(): (r: string)
      reads this
      ensures |r| == if guesses == [] then |GuessesLabel| else |GuessesLabel| + 3 * |guesses| - 2
      ensures r[..|GuessesLabel|] == GuessesLabel
      ensures guesses == [] ==> r == GuessesLabel
      ensures forall i :: 0 <= i < |guesses| ==>
        r[|GuessesLabel| + 3 * i] == guesses[i] &&
        (i < |guesses| - 1 ==> r[|GuessesLabel| + 3 * i + 1 .. |GuessesLabel| + 3 * i + 3] == ", ")
    {
      GuessesTextShows(guesses);
      GuessesText(guesses)
    }
  }
}
