/** The validating and recording part of `guess` (resources/js/Hangman.js, lines 57-79) as the code has it,
    kept beside the corrected rules of HangmanRules to exhibit where the two differ. The messages the code
    logs on bad input do not stop it, so they leave no trace here; an exception thrown is an `Err`. The
    guess list is the array, holding strings, that line 41 of `start` stores under the method's own name.
    That assignment hides the method, so after `start` a plain `game.guess(x)` throws TypeError before
    line 54 runs. Before `start`, `this.guess` at line 74 is the method, and `includes` throws TypeError
    too. The code below is therefore what the method does when it is reached as
    `Hangman.prototype.guess.call(game, x)` after `start`, with `this.guess` the list. */
module HangmanAsWritten {
  import opened Wrappers
  import opened HangmanRules

  /** `s.match(/[a-z]/)` succeeds: some character of `s` is a lower-case ASCII letter. The pattern has no
      `i` flag, so upper-case letters do not match. */
  predicate MatchesLowerAZ(s: string)
  {
    exists i :: 0 <= i < |s| && IsLower(s[i])
  }

  /** The guess list after the code's checks on `letter`, or the exception they throw. A single matching
      letter makes the method return early, before anything is recorded; anything else is pushed only if
      it is already in the list, and otherwise makes the method throw "already guessed". */
  function RecordAsWritten(guesses: seq<string>, letter: string): (r: Result<seq<string>, GuessError>)
    ensures r.Ok? ==> forall x :: x in r.value <==> x in guesses
    ensures r.Err? <==> !(|letter| == 1 && MatchesLowerAZ(letter)) && letter !in guesses
    ensures r.Ok? && letter in guesses && !(|letter| == 1 && MatchesLowerAZ(letter)) ==> |r.value| == |guesses| + 1
  {
    if |letter| == 1 && MatchesLowerAZ(letter) then Ok(guesses)
    else if letter in guesses then Ok(guesses + [letter])
    else Err(AlreadyGuessed)
  }

  /** The guess list after each of `letters` is guessed in turn from a fresh round; a call that throws
      leaves the list as it was. */
  function RecordAllAsWritten(letters: seq<string>): seq<string>
    decreases |letters|
  {
    if letters == [] then []
    else
      var before := RecordAllAsWritten(letters[..|letters| - 1]);
      match RecordAsWritten(before, letters[|letters| - 1])
      case Ok(after) => after
      case Err(_) => before
  }

  /** As written, no sequence of guesses ever records anything: the list a round starts with stays empty. */
  lemma {:induction false} NothingIsEverRecordedAsWritten(letters: seq<string>)
    ensures RecordAllAsWritten(letters) == []
  {
    if letters != [] {
      NothingIsEverRecordedAsWritten(letters[..|letters| - 1]);
    }
  }

  /** The first guess of a round, the method reached through the prototype after `start`: as written "a"
      leaves the guess list empty and "5" throws "already guessed"; the corrected rules record 'a' and
      refuse "5" as not a letter. */
  lemma FirstGuessOfARound()
    ensures RecordAsWritten([], "a") == Ok([])
    ensures RecordAsWritten([], "5") == Err(AlreadyGuessed)
    ensures Step(NewRound("book"), Some("a")).0.guesses == ['a']
    ensures Step(NewRound("book"), Some("5")) == (NewRound("book"), Err(NotALetter))
  {
  }

  /** As written, every letter that gets past the check is already lower-case, so the lower-casing the code
      applies never changes anything, and an upper-case letter never gets past it. */
  lemma LowerCasingIsIdleAsWritten(letter: string)
    requires |letter| == 1 && MatchesLowerAZ(letter)
    ensures ToLower(letter[0]) == letter[0] && !IsUpper(letter[0])
  {
  }

  /** "A" is refused as written and accepted, as 'a', by the corrected rules. */
  lemma UpperCaseLetter()
    ensures !MatchesLowerAZ("A")
    ensures Accept([], Some("A")) == Ok('a')
  {
  }
}
