/** The rules of a Hangman round as values: how a guess is validated and recorded, when a round is won or
    lost, which body part each wrong guess reveals, and the two display strings. The class in
    hangman_game.dfy keeps this state in fields and is proved to follow these functions step by step. */
module HangmanRules {
  import opened Wrappers
  import JsText

  /** The body parts drawn on the canvas, one per wrong guess. */
  datatype Part = Head | Body | RightArm | LeftArm | RightLeg | LeftLeg

  /** The order in which wrong guesses reveal the figure. */
  const Figure: seq<Part> := [Head, Body, RightArm, LeftArm, RightLeg, LeftLeg]

  /** The wrong guess that draws the last part and loses the round. */
  const MaxWrong: nat := 6

  /** Why a guess was refused; each corresponds to one of the game's messages. */
  datatype GuessError =
    | NoLetter        // nothing was provided
    | NotALetter      // a number, a symbol, ...
    | NotOneLetter    // more (or fewer) than one character
    | AlreadyGuessed  // the letter is already in the guess list

  /** The state of one round: the hidden word, the guesses in the order they were made, the two flags, and
      the body parts drawn so far (the canvas, as a log). */
  datatype Round = Round(word: string, guesses: seq<char>, isOver: bool, didWin: bool, drawn: seq<Part>)

  predicate IsLower(c: char) { 'a' <= c <= 'z' }

  predicate IsUpper(c: char) { 'A' <= c <= 'Z' }

  predicate IsLetter(c: char) { IsLower(c) || IsUpper(c) }

  /** `toLocaleLowerCase` on one ASCII character. */
  function ToLower(c: char): (r: char)
    ensures IsLetter(c) ==> IsLower(r)
    ensures !IsUpper(c) ==> r == c
    ensures !IsUpper(r)
    ensures IsUpper(c) ==> r as int - 'a' as int == c as int - 'A' as int
  {
    if IsUpper(c) then (c as int - 'A' as int + 'a' as int) as char else c
  }

  predicate NoDuplicates(s: seq<char>)
  {
    forall i, j :: 0 <= i < j < |s| ==> s[i] != s[j]
  }

  /** Every letter of the word has been guessed. */
  predicate AllRevealed(word: string, guesses: seq<char>)
  {
    forall c :: c in word ==> c in guesses
  }

  /** The guesses that are not in the word (`guesses.filter(l => !word.includes(l))`), in guess order. */
  function Misses(word: string, guesses: seq<char>): (m: seq<char>)
    ensures |m| <= |guesses|
    ensures forall c :: c in m <==> c in guesses && c !in word
  {
    if guesses == [] then []
    else (if guesses[0] in word then [] else [guesses[0]]) + Misses(word, guesses[1..])
  }

  /** The number of wrong guesses. */
  function WrongCount(word: string, guesses: seq<char>): nat
  {
    |Misses(word, guesses)|
  }

  /** The letters of the word not yet guessed (`word.split('').filter(l => !guesses.includes(l))`). */
  function Unknown(word: string, guesses: seq<char>): (u: seq<char>)
    ensures |u| <= |word|
    ensures forall c :: c in u <==> c in word && c !in guesses
    ensures |u| == 0 <==> AllRevealed(word, guesses)
  {
    if word == [] then []
    else (if word[0] in guesses then [] else [word[0]]) + Unknown(word[1..], guesses)
  }

  /** The parts drawn after `k` wrong guesses: the first `k` of the figure, all of it from six on. */
  function Revealed(k: nat): (r: seq<Part>)
    ensures |r| <= MaxWrong
  {
    if k <= MaxWrong then Figure[..k] else Figure
  }

  /** The part the k-th wrong guess draws; no part for any other count. */
  function PartFor(k: nat): seq<Part>
  {
    if 1 <= k <= MaxWrong then [Figure[k - 1]] else []
  }

  /** What a round that has seen its guesses promises: the guess list is lower-case and duplicate-free, the
      drawing shows one part per wrong guess (at most six), a win needs every letter guessed and, before the
      sixth wrong guess, a non-empty word with every letter guessed is won; and the round is over exactly
      when it was won or six or more guesses missed. */
  predicate Inv(s: Round)
  {
    NoDuplicates(s.guesses) &&
    (forall i :: 0 <= i < |s.guesses| ==> IsLower(s.guesses[i])) &&
    s.drawn == Revealed(WrongCount(s.word, s.guesses)) &&
    (s.didWin ==> s.isOver && AllRevealed(s.word, s.guesses)) &&
    (s.word != [] && WrongCount(s.word, s.guesses) < MaxWrong ==>
       (s.didWin <==> AllRevealed(s.word, s.guesses))) &&
    (s.isOver <==> s.didWin || WrongCount(s.word, s.guesses) >= MaxWrong)
  }

  /** `start`: a new round on `word` with no guesses, neither flag set and only the gallows drawn. */
  function NewRound(word: string): (s: Round)
    ensures Inv(s) && s.word == word && WrongCount(s.word, s.guesses) == 0
    ensures word != [] ==> !AllRevealed(s.word, s.guesses)
  {
    assert word != [] ==> word[0] in word;
    Round(word, [], false, false, [])
  }

  /** The checks `guess` makes before recording a letter: the letter given, lower-cased, or why it was
      refused. Inputs other than one ASCII letter, and letters already guessed, are refused. */
  function Accept(guesses: seq<char>, letter: Option<string>): (r: Result<char, GuessError>)
    ensures r.Ok? <==>
      letter.Some? && |letter.value| == 1 && IsLetter(letter.value[0]) && ToLower(letter.value[0]) !in guesses
    ensures r.Ok? ==> IsLower(r.value) && r.value == ToLower(letter.value[0])
    ensures letter.None? ==> r == Err(NoLetter)
    ensures letter.Some? && |letter.value| != 1 ==> r == Err(NotOneLetter)
    ensures letter.Some? && |letter.value| == 1 && !IsLetter(letter.value[0]) ==> r == Err(NotALetter)
    ensures r == Err(AlreadyGuessed) <==>
      letter.Some? && |letter.value| == 1 && IsLetter(letter.value[0]) && ToLower(letter.value[0]) in guesses
  {
    match letter
    case None => Err(NoLetter)
    case Some(s) =>
      if |s| != 1 then Err(NotOneLetter)
      else if !IsLetter(s[0]) then Err(NotALetter)
      else
        var c := ToLower(s[0]);
        if c in guesses then Err(AlreadyGuessed) else Ok(c)
  }

  /** `checkWin`: once no letter of the word is unguessed, the round is over and won. */
  function CheckWin(s: Round): Round
  {
    if AllRevealed(s.word, s.guesses) then s.(isOver := true, didWin := true) else s
  }

  /** `onWrongGuess`: the k-th wrong guess draws the k-th part; the sixth also ends the round as lost. */
  function OnWrongGuess(s: Round): Round
  {
    var k := WrongCount(s.word, s.guesses);
    s.(drawn := s.drawn + PartFor(k),
       isOver := if k == MaxWrong then true else s.isOver,
       didWin := if k == MaxWrong then false else s.didWin)
  }

  /** `guess`: a refused guess changes nothing; an accepted letter is appended to the guesses and then
      either checked for a win (it is in the word) or counted as wrong (it is not). */
  function Step(s: Round, letter: Option<string>): (res: (Round, Result<char, GuessError>))
    ensures res.1 == Accept(s.guesses, letter)
    ensures res.1.Err? ==> res.0 == s
    ensures res.1.Ok? ==> res.0.word == s.word && res.0.guesses == s.guesses + [res.1.value]
    ensures res.1.Ok? && res.1.value in s.word ==> res.0.drawn == s.drawn
    ensures s.isOver ==> res.0.isOver
  {
    match Accept(s.guesses, letter)
    case Err(e) => (s, Err(e))
    case Ok(c) =>
      var t := s.(guesses := s.guesses + [c]);
      (if c in s.word then CheckWin(t) else OnWrongGuess(t), Ok(c))
  }

  /** `word.split('').map(l => guesses.includes(l) ? l : "_")`: one entry per letter of the word, the
      letter itself where it has been guessed and an underscore where it has not. */
  function Mask(word: string, guesses: seq<char>): (m: seq<string>)
    ensures |m| == |word|
    ensures forall i :: 0 <= i < |word| ==> m[i] == if word[i] in guesses then [word[i]] else "_"
  {
    if word == [] then []
    else [if word[0] in guesses then [word[0]] else "_"] + Mask(word[1..], guesses)
  }

  /** `getWordHolderText`: the masked word joined with `sep`. */
  function WordHolderText(word: string, guesses: seq<char>, sep: string): string
  {
    JsText.Join(Mask(word, guesses), sep)
  }

  /** The word holder text has one entry per letter of the word, a separator between each pair. */
  lemma WordHolderTextLength(word: string, guesses: seq<char>, sep: string)
    ensures |WordHolderText(word, guesses, sep)| == if word == [] then 0 else |word| * (|sep| + 1) - |sep|
  {
    JsText.JoinOfSinglesLength(Mask(word, guesses), sep);
  }

  /** Letter i of the word is shown, or masked with an underscore, at offset i * (|sep| + 1) of the word
      holder text, and a separator follows every entry but the last. */
  lemma WordHolderTextAt(word: string, guesses: seq<char>, sep: string, i: int)
    requires 0 <= i < |word|
    ensures var r, at := WordHolderText(word, guesses, sep), i * (|sep| + 1);
      at < |r| && r[at] == (if word[i] in guesses then word[i] else '_') &&
      (i < |word| - 1 ==> at + |sep| < |r| && r[at + 1 .. at + 1 + |sep|] == sep)
  {
    JsText.JoinOfSinglesAt(Mask(word, guesses), sep, i);
  }

  /** The word holder text with the code's separator ",": letter i of the word, or `_`, at offset 2 * i,
      and a comma after every entry but the last. */
  lemma WordHolderTextWithCommas(word: string, guesses: seq<char>)
    ensures var r := WordHolderText(word, guesses, ",");
      |r| == (if word == [] then 0 else 2 * |word| - 1) &&
      forall i :: 0 <= i < |word| ==>
        r[2 * i] == (if word[i] in guesses then word[i] else '_') && (i < |word| - 1 ==> r[2 * i + 1] == ',')
  {
    WordHolderTextLength(word, guesses, ",");
    var r := WordHolderText(word, guesses, ",");
    forall i | 0 <= i < |word|
      ensures r[2 * i] == (if word[i] in guesses then word[i] else '_') && (i < |word| - 1 ==> r[2 * i + 1] == ',')
    {
      WordHolderTextAt(word, guesses, ",", i);
      if i < |word| - 1 {
        assert r[2 * i + 1 .. 2 * i + 2] == ",";
      }
    }
  }

  /** The guesses as the one-letter strings the guess list holds. */
  function Singles(guesses: seq<char>): (s: seq<string>)
    ensures |s| == |guesses| && JsText.AllSingles(s)
    ensures forall i :: 0 <= i < |guesses| ==> s[i] == [guesses[i]]
  {
    seq(|guesses|, i requires 0 <= i < |guesses| => [guesses[i]])
  }

  const GuessesLabel: string := "Guesses: "

  /** `getGuessesText`: the label, then the guesses joined with ", ". */
  function GuessesText(guesses: seq<char>): string
  {
    GuessesLabel + JsText.Join(Singles(guesses), ", ")
  }

  /** The guesses text starts with the label and is the label alone when nothing has been guessed; guess i
      sits at offset 9 + 3 * i, followed by ", " unless it is the last. */
  lemma GuessesTextShows(guesses: seq<char>)
    ensures var r := GuessesText(guesses);
      |r| == (if guesses == [] then |GuessesLabel| else |GuessesLabel| + 3 * |guesses| - 2) &&
      r[..|GuessesLabel|] == GuessesLabel && (guesses == [] ==> r == GuessesLabel)
    ensures var r := GuessesText(guesses);
      forall i :: 0 <= i < |guesses| ==>
        var at := |GuessesLabel| + 3 * i;
        at < |r| && r[at] == guesses[i] && (i < |guesses| - 1 ==> at + 2 < |r| && r[at + 1 .. at + 3] == ", ")
  {
    var parts := Singles(guesses);
    JsText.JoinOfSinglesLength(parts, ", ");
    var j := JsText.Join(parts, ", ");
    var r := GuessesLabel + j;
    assert r[..|GuessesLabel|] == GuessesLabel;
    forall i | 0 <= i < |guesses|
      ensures |GuessesLabel| + 3 * i < |r| && r[|GuessesLabel| + 3 * i] == guesses[i]
      ensures i < |guesses| - 1 ==>
        |GuessesLabel| + 3 * i + 2 < |r| && r[|GuessesLabel| + 3 * i + 1 .. |GuessesLabel| + 3 * i + 3] == ", "
    {
      JsText.JoinOfSinglesAt(parts, ", ", i);
      if i < |guesses| - 1 {
        assert r[|GuessesLabel| + 3 * i + 1 .. |GuessesLabel| + 3 * i + 3] == j[3 * i + 1 .. 3 * i + 3];
      }
    }
  }

  /** Appending a guess adds it to the misses exactly when it is not in the word. */
  lemma {:induction false} MissesAppend(word: string, guesses: seq<char>, c: char)
    ensures Misses(word, guesses + [c]) == Misses(word, guesses) + (if c in word then [] else [c])
  {
    if guesses != [] {
      assert (guesses + [c])[1..] == guesses[1..] + [c];
      MissesAppend(word, guesses[1..], c);
    }
  }

  /** An accepted letter that is in the word leaves the wrong count and the drawing as they were; one that
      is not raises the count by exactly one and draws exactly the part for the new count. */
  lemma StepCounts(s: Round, letter: Option<string>)
    requires Step(s, letter).1.Ok?
    ensures var (t, r) := Step(s, letter);
      t.guesses == s.guesses + [r.value] && t.word == s.word &&
      (r.value in s.word ==>
         WrongCount(t.word, t.guesses) == WrongCount(s.word, s.guesses) && t.drawn == s.drawn) &&
      (r.value !in s.word ==>
         WrongCount(t.word, t.guesses) == WrongCount(s.word, s.guesses) + 1 &&
         t.drawn == s.drawn + PartFor(WrongCount(t.word, t.guesses)))
  {
    MissesAppend(s.word, s.guesses, Step(s, letter).1.value);
  }

  /** One more wrong guess draws the part that extends the figure drawn so far; from six on, nothing. */
  lemma RevealedStep(k: nat)
    ensures Revealed(k) + PartFor(k + 1) == Revealed(k + 1)
  {
    if k < MaxWrong {
      assert Figure[..k + 1] == Figure[..k] + [Figure[k]];
    }
  }

  /** Recording a new letter of the word and checking for a win keeps the round invariant. */
  lemma HitKeepsInv(s: Round, c: char)
    requires Inv(s) && IsLower(c) && c !in s.guesses && c in s.word
    ensures Inv(CheckWin(s.(guesses := s.guesses + [c])))
  {
    var t := s.(guesses := s.guesses + [c]);
    MissesAppend(s.word, s.guesses, c);
    assert forall x :: x in s.guesses ==> x in t.guesses;
  }

  /** Recording a new letter not in the word and counting it wrong keeps the round invariant. */
  lemma MissKeepsInv(s: Round, c: char)
    requires Inv(s) && IsLower(c) && c !in s.guesses && c !in s.word
    ensures Inv(OnWrongGuess(s.(guesses := s.guesses + [c])))
  {
    var t := s.(guesses := s.guesses + [c]);
    var u := OnWrongGuess(t);
    MissesAppend(s.word, s.guesses, c);
    var k := WrongCount(s.word, s.guesses);
    assert WrongCount(u.word, u.guesses) == k + 1;
    assert NoDuplicates(u.guesses);
    assert forall i :: 0 <= i < |u.guesses| ==> IsLower(u.guesses[i]);
    RevealedStep(k);
    assert AllRevealed(u.word, u.guesses) == AllRevealed(s.word, s.guesses) by {
      assert forall x :: x in s.word ==> (x in u.guesses <==> x in s.guesses);
    }
  }

  /** Every guess, accepted or not, keeps the round invariant. */
  lemma StepKeepsInv(s: Round, letter: Option<string>)
    requires Inv(s)
    ensures Inv(Step(s, letter).0)
  {
    match Accept(s.guesses, letter)
    case Err(_) =>
    case Ok(c) =>
      if c in s.word {
        HitKeepsInv(s, c);
      } else {
        MissKeepsInv(s, c);
      }
  }
}
