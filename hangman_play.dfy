/** Whole rounds: the keys a player types, one after another, from a new round. The lemmas here are the
    game's promises about how a round ends: six different wrong letters lose it with the whole figure
    drawn in order, and guessing every letter of the word (in any order and either case, repeats allowed)
    with fewer than six different wrong letters wins it. */
module HangmanPlay {
  import opened Wrappers
  import opened HangmanRules

  /** The round after each of `keys` is guessed in turn, as a one-character string. */
  function Play(s: Round, keys: seq<char>): Round
    decreases |keys|
  {
    if keys == [] then s else Step(Play(s, keys[..|keys| - 1]), Some([keys[|keys| - 1]])).0
  }

  /** The keys, lower-cased. */
  function Lowered(keys: seq<char>): (r: seq<char>)
    ensures |r| == |keys| && forall i :: 0 <= i < |keys| ==> r[i] == ToLower(keys[i])
  {
    seq(|keys|, i requires 0 <= i < |keys| => ToLower(keys[i]))
  }

  /** Playing keys is playing all but the last, then guessing the last. */
  lemma PlayLast(s: Round, keys: seq<char>)
    requires keys != []
    ensures Play(s, keys) == Step(Play(s, keys[..|keys| - 1]), Some([keys[|keys| - 1]])).0
  {
  }

  /** Lower-casing keys one more key at a time. */
  lemma LoweredLast(keys: seq<char>)
    requires keys != []
    ensures Lowered(keys) == Lowered(keys[..|keys| - 1]) + [ToLower(keys[|keys| - 1])]
  {
  }

  /** A new letter (either case) not in the word, guessed after fewer than six wrong letters and nothing
      else: it is recorded lower-cased, counted wrong, and draws the next part; the sixth ends the round
      lost. */
  lemma MissStep(word: string, prefix: seq<char>, k: char)
    requires |prefix| < MaxWrong && WrongCount(word, prefix) == |prefix|
    requires IsLetter(k) && ToLower(k) !in word && ToLower(k) !in prefix
    ensures WrongCount(word, prefix + [ToLower(k)]) == |prefix| + 1
    ensures var n := |prefix| + 1;
      Step(Round(word, prefix, false, false, Figure[..n - 1]), Some([k])).0 ==
      Round(word, prefix + [ToLower(k)], n == MaxWrong, false, Figure[..n])
  {
    MissesAppend(word, prefix, ToLower(k));
    RevealedStep(|prefix|);
  }

  /** Up to six letters (either case), different once lower-cased and none in the word: each is recorded
      lower-cased and counted wrong, the drawing shows the first that many parts of the figure in order,
      and the sixth ends the round lost with the whole figure drawn. */
  lemma {:induction false} PlayMisses(word: string, misses: seq<char>)
    requires |misses| <= MaxWrong && NoDuplicates(Lowered(misses))
    requires forall i :: 0 <= i < |misses| ==> IsLetter(misses[i]) && ToLower(misses[i]) !in word
    ensures WrongCount(word, Lowered(misses)) == |misses|
    ensures Play(NewRound(word), misses) ==
      Round(word, Lowered(misses), |misses| == MaxWrong, false, Figure[..|misses|])
    ensures |misses| == MaxWrong ==>
      var t := Play(NewRound(word), misses);
      t.isOver && !t.didWin && t.drawn == Figure
  {
    if misses != [] {
      MissesPrefix(word, misses);
      PlayMisses(word, misses[..|misses| - 1]);
      PlayOneMore(word, misses);
    }
    assert |misses| == MaxWrong ==> Figure[..|misses|] == Figure;
  }

  /** All but the last of such letters are such letters too, and the last is not among them. */
  lemma MissesPrefix(word: string, misses: seq<char>)
    requires misses != [] && NoDuplicates(Lowered(misses))
    requires forall i :: 0 <= i < |misses| ==> IsLetter(misses[i]) && ToLower(misses[i]) !in word
    ensures var prefix := misses[..|misses| - 1];
      NoDuplicates(Lowered(prefix)) && ToLower(misses[|misses| - 1]) !in Lowered(prefix) &&
      forall i :: 0 <= i < |prefix| ==> IsLetter(prefix[i]) && ToLower(prefix[i]) !in word
  {
    var n := |misses|;
    var prefix := misses[..n - 1];
    LoweredLast(misses);
    assert Lowered(prefix) == Lowered(misses)[..n - 1];
    forall i | 0 <= i < |prefix| ensures IsLetter(prefix[i]) && ToLower(prefix[i]) !in word {
      assert prefix[i] == misses[i];
    }
  }

  /** The round after all but the last miss, then the last miss. */
  lemma PlayOneMore(word: string, misses: seq<char>)
    requires misses != [] && |misses| <= MaxWrong
    requires var prefix, k := misses[..|misses| - 1], misses[|misses| - 1];
      IsLetter(k) && ToLower(k) !in word && ToLower(k) !in Lowered(prefix) &&
      WrongCount(word, Lowered(prefix)) == |prefix| &&
      Play(NewRound(word), prefix) == Round(word, Lowered(prefix), false, false, Figure[..|prefix|])
    ensures WrongCount(word, Lowered(misses)) == |misses|
    ensures Play(NewRound(word), misses) ==
      Round(word, Lowered(misses), |misses| == MaxWrong, false, Figure[..|misses|])
  {
    var n := |misses|;
    var prefix, k := misses[..n - 1], misses[n - 1];
    LoweredLast(misses);
    PlayLast(NewRound(word), misses);
    MissStep(word, Lowered(prefix), k);
  }

  /** One more letter (either case), new or repeated, keeps the invariant and adds its lower-case form to
      the letters guessed. */
  lemma LetterStep(s: Round, lowered: seq<char>, k: char)
    requires Inv(s) && IsLetter(k) && forall c :: c in s.guesses <==> c in lowered
    ensures var t := Step(s, Some([k])).0;
      Inv(t) && t.word == s.word && forall c :: c in t.guesses <==> c in lowered + [ToLower(k)]
  {
    StepKeepsInv(s, Some([k]));
  }

  /** Any letters (either case), guessed in turn from a new round: the invariant holds and the guesses are
      exactly the lower-cased letters, each once, whatever was repeated. */
  lemma {:induction false} PlayLetters(word: string, keys: seq<char>)
    requires forall i :: 0 <= i < |keys| ==> IsLetter(keys[i])
    ensures var t := Play(NewRound(word), keys);
      Inv(t) && t.word == word && forall c :: c in t.guesses <==> c in Lowered(keys)
  {
    if keys != [] {
      var prefix := keys[..|keys| - 1];
      PlayLetters(word, prefix);
      LoweredLast(keys);
      LetterStep(Play(NewRound(word), prefix), Lowered(prefix), keys[|keys| - 1]);
    }
  }

  /** A duplicate-free list of letters has as many different letters as entries. */
  lemma {:induction false} DistinctLetters(s: seq<char>)
    requires NoDuplicates(s)
    ensures |set x | x in s| == |s|
  {
    if s != [] {
      DistinctLetters(s[1..]);
      assert (set x | x in s) == {s[0]} + (set x | x in s[1..]);
      assert s[0] !in s[1..];
    }
  }

  /** The wrong guesses of a duplicate-free guess list are duplicate-free. */
  lemma {:induction false} MissesAreDistinct(word: string, guesses: seq<char>)
    requires NoDuplicates(guesses)
    ensures NoDuplicates(Misses(word, guesses))
  {
    if guesses != [] {
      MissesAreDistinct(word, guesses[1..]);
      assert guesses[0] !in guesses[1..];
    }
  }

  /** The different letters among the keys, lower-cased, that are not in the word. */
  function WrongLetters(word: string, keys: seq<char>): set<char>
  {
    set c | c in Lowered(keys) && c !in word
  }

  /** Guessing every letter of a non-empty word, in any order and either case, repeats allowed, with fewer
      than six different wrong letters among the guesses, wins the round, with one part drawn per
      different wrong letter. */
  lemma GuessingTheWordWins(word: string, keys: seq<char>)
    requires word != []
    requires forall i :: 0 <= i < |keys| ==> IsLetter(keys[i])
    requires forall c :: c in word ==> c in Lowered(keys)
    requires |WrongLetters(word, keys)| < MaxWrong
    ensures var t := Play(NewRound(word), keys);
      t.didWin && t.isOver && t.drawn == Figure[..|WrongLetters(word, keys)|]
  {
    var t := Play(NewRound(word), keys);
    PlayLetters(word, keys);
    var m := Misses(word, t.guesses);
    MissesAreDistinct(word, t.guesses);
    DistinctLetters(m);
    assert (set x | x in m) == WrongLetters(word, keys);
    assert AllRevealed(word, t.guesses);
  }
}
