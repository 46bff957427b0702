# Hangman game state machine in Dafny

This project models the `Hangman` class of resources/js/Hangman.js: a single-player word-guessing game.
A round starts on a hidden word. The player guesses letters. Each wrong guess draws one more part of a
stick figure on a canvas. The round is won once every letter of the word has been guessed, and lost at
the sixth wrong guess.

What is modelled:

- `wrappers.dfy` (module `Wrappers`): `Option` and `Result`, for a missing input and a refused guess.
- `js_text.dfy` (module `JsText`): `Array.prototype.join`, and where each character of a join of
  one-character strings lands.
- `hangman_rules.dfy` (module `HangmanRules`): the round as a value `Round(word, guesses, isOver, didWin,
  drawn)`. It defines the checks `guess` makes (`Accept`), the win check (`CheckWin`), the wrong-guess
  handling (`OnWrongGuess`), one whole guess (`Step`), the two counts the code computes with
  `filter(...).length` (`Misses`, `Unknown`), the two display strings, and the round invariant `Inv`.
  `drawn` is the canvas as a log: the body parts drawn this round, in order.
- `hangman_game.dfy` (module `HangmanGame`): class `Game`, whose fields `word`, `guesses`, `isOver`,
  `didWin` (and a ghost `drawn`) are updated in place by `Start`, `Guess`, `CheckWin` and `OnWrongGuess`,
  each proved to do what the matching function of `HangmanRules` says. `GetWordHolderText` and
  `GetGuessesText` read the fields.
- `hangman_play.dfy` (module `HangmanPlay`): whole rounds played from `start`, one key at a time. Six
  different wrong letters, of either case, lose with the figure drawn head, body, right arm, left arm,
  right leg, left leg. Guessing every letter of the word, in any order and either case, wins as long as
  fewer than six different wrong letters were guessed along the way.
- `hangman_as_written.dfy` (module `HangmanAsWritten`): the validation and recording code of `guess` as
  it is written, to exhibit the defects listed under "## Findings".

Where the code and its doc comments disagree, the model follows the comments:

- Line 41 resets the guesses with `this.guess = []`, which replaces the `guess` method with an array. The
  comment at line 72 calls that array `this.guesses`. The model has a field `guesses` beside the method.
- Lines 61 and 65 only log their messages and carry on. The model refuses such input.
- Lines 69-71 return before a valid letter is recorded. Lines 74-78 test for duplicates the wrong way
  round: a new letter throws "already guessed" and a repeated one is pushed. The model records each new
  letter once and refuses a repeat (see "## Findings").
- Line 83 looks up the letter as typed, not lower-cased. The model looks up the lower-cased letter.
- Line 97 calls `this.guess(includes(words))`, which cannot run. The comment at lines 94-95 asks for the
  number of letters of the word not in the guesses. The model counts exactly that (`Unknown`).
- Line 144 calls `join()` with no argument, so the separator is `,`. The example in the comment at
  line 139 shows spaces. `WordHolderText` takes the separator as a parameter. `Game.GetWordHolderText`
  passes `,` as the code does.

`guess` never checks whether the round is already over, and the model follows the code in this: after a win, wrong guesses still draw parts and the sixth still sets `didWin` to false, and
after a loss, guessing the rest of the word still sets `didWin`. The invariant `Inv` holds through all
of this: the round is over exactly when it was won or six or more guesses were wrong.

Validation order (the code logs but does not refuse, so the order is the model's choice): no input,
then not exactly one character, then not an ASCII letter, then already guessed.

## Model

| member | source | states |
|---|---|---|
| `JsText.JoinOfSinglesLength` | resources/js/Hangman.js:144 | joining n one-character strings with `sep` gives n + (n - 1) * |sep| characters, and none for no strings |
| `JsText.JoinOfSinglesAt` | resources/js/Hangman.js:154 | part i of such a join sits at offset i * (|sep| + 1), followed by one copy of `sep` unless it is the last |
| `HangmanRules.ToLower` | resources/js/Hangman.js:68-70 | lower-casing turns an upper-case letter into the lower-case letter at the same place in the alphabet, and leaves every other character unchanged |
| `HangmanRules.Misses` | resources/js/Hangman.js:112 | the wrong guesses are exactly the guessed letters absent from the word, no more of them than guesses |
| `HangmanRules.Unknown` | resources/js/Hangman.js:94-97 | the unguessed letters are exactly the word's letters not in the guesses; there are none exactly when every letter of the word is guessed |
| `HangmanRules.NewRound` | resources/js/Hangman.js:40-45 | a new round keeps the invariant, has no wrong guesses, and a non-empty word is not yet revealed |
| `HangmanRules.Accept` | resources/js/Hangman.js:54-79 | a guess is accepted exactly when it is one letter (either case) whose lower-case form is not yet guessed, and yields that lower-case letter; otherwise the error names the first failed check: no input, not one character, not a letter, already guessed |
| `HangmanRules.Mask` | resources/js/Hangman.js:142-143 | one entry per letter of the word: the letter where it has been guessed, `_` where it has not |
| `HangmanRules.WordHolderTextLength` | resources/js/Hangman.js:141-145 | the word holder text has one character per letter plus one separator between each neighbouring pair |
| `HangmanRules.WordHolderTextWithCommas` | resources/js/Hangman.js:141-145 | with the `,` that `join()` uses, the text has 2n - 1 characters for an n-letter word, letter i or `_` at offset 2i, and a comma between entries |
| `HangmanRules.WordHolderTextAt` | resources/js/Hangman.js:136-145 | letter i of the word appears at offset i * (|sep| + 1) if guessed and `_` appears there otherwise; a separator follows every entry but the last |
| `HangmanRules.GuessesTextShows` | resources/js/Hangman.js:147-155 | the guesses text is `Guesses: ` followed by the guesses in guess order separated by `, `; with no guesses it is exactly `Guesses: ` |
| `HangmanRules.MissesAppend` | resources/js/Hangman.js:112 | recording one more guess adds it to the wrong guesses exactly when it is not in the word |
| `HangmanRules.StepCounts` | resources/js/Hangman.js:80-88 | an accepted letter is appended to the guesses; if it is in the word the wrong count and the drawing are unchanged, otherwise the wrong count rises by exactly one and exactly the part for the new count is drawn |
| `HangmanRules.Step` | resources/js/Hangman.js:54-88 | one guess returns what the checks decide; a refused guess changes nothing; an accepted one keeps the word, appends the letter, draws nothing when the letter is in the word; a round that is over stays over |
| `HangmanRules.RevealedStep` | resources/js/Hangman.js:111-133 | one more wrong guess extends the parts drawn after k wrong guesses to the parts drawn after k + 1: the next part of the figure, and nothing from six on |
| `HangmanRules.HitKeepsInv` | resources/js/Hangman.js:80-85 | recording a new letter of the word and checking for a win keeps the round invariant |
| `HangmanRules.MissKeepsInv` | resources/js/Hangman.js:86-88 | recording a new letter not in the word and handling the wrong guess keeps the round invariant |
| `HangmanRules.StepKeepsInv` | resources/js/Hangman.js:54-134 | every guess keeps: the guesses lower-case and duplicate-free; the drawing equal to the first min(wrong count, 6) parts; a win only with every letter guessed; with a non-empty word and fewer than six wrong guesses, won exactly when every letter is guessed; the round over exactly when won or at six or more wrong guesses |
| `HangmanGame.Game.constructor` | resources/js/Hangman.js:2-9 | a new game holds an empty round |
| `HangmanGame.Game.Start` | resources/js/Hangman.js:33-48 | `start` stores the word, empties the guesses, clears both flags and the drawing, and the invariant holds |
| `HangmanGame.Game.Guess` | resources/js/Hangman.js:54-91 | `guess` changes the fields exactly as `Step` does and returns its result, and keeps the invariant |
| `HangmanGame.Game.CheckWin` | resources/js/Hangman.js:93-104 | counting the unguessed letters and setting both flags at zero is setting both flags exactly when every letter is guessed, and nothing otherwise |
| `HangmanGame.Game.GetWordHolderText` | resources/js/Hangman.js:136-145 | the game's word holder text has 2n - 1 characters for an n-letter word: letter i at offset 2i if guessed, `_` there otherwise, and a comma between entries |
| `HangmanGame.Game.GetGuessesText` | resources/js/Hangman.js:147-155 | the game's guesses text is `Guesses: ` followed by its guesses in guess order separated by `, `, exactly `Guesses: ` with no guesses |
| `HangmanGame.Game.OnWrongGuess` | resources/js/Hangman.js:106-134 | the chain of tests on the wrong count draws, for count k in 1..6, the k-th part of [head, body, right arm, left arm, right leg, left leg] and nothing for any other count; at 6 the round is over and not won; otherwise the flags are unchanged |
| `HangmanPlay.MissStep` | resources/js/Hangman.js:80-88 | a new letter of either case, not in the word, after k < 6 wrong letters and nothing else, is recorded lower-cased, counted wrong and draws part k + 1; the sixth ends the round over and not won |
| `HangmanPlay.PlayMisses` | resources/js/Hangman.js:106-134 | up to six letters of either case, different once lower-cased and none in the word, are all recorded lower-cased and counted wrong; the drawing is the first that many parts in order; the sixth ends the round over, not won, with the whole figure drawn |
| `HangmanPlay.LetterStep` | resources/js/Hangman.js:54-88 | guessing one more letter of either case, new or repeated, keeps the invariant and adds its lower-case form to the set of letters guessed |
| `HangmanPlay.PlayLetters` | resources/js/Hangman.js:54-88 | after any letters of either case guessed in turn from a new round, the invariant holds and the guesses are exactly the lower-cased letters |
| `HangmanPlay.GuessingTheWordWins` | resources/js/Hangman.js:93-134 | guessing every letter of a non-empty word, in any order and either case, repeats allowed, with fewer than six different wrong letters among the guesses, wins the round with one part drawn per different wrong letter |
| `HangmanAsWritten.RecordAsWritten` | resources/js/Hangman.js:61-79 | as written, the checks never add a letter that is not already in the guess list; they throw exactly when the input is not a single character matching `/[a-z]/` and is not already in the list, and push a repeat when it is |
| `HangmanAsWritten.NothingIsEverRecordedAsWritten` | resources/js/Hangman.js:69-79 | as written, no sequence of guesses ever adds anything to the guess list |
| `HangmanAsWritten.FirstGuessOfARound` | resources/js/Hangman.js:69-79 | as written, with the method reached through the prototype after `start` (where a plain `game.guess(...)` throws TypeError), a first guess of "a" leaves the list empty and "5" throws "already guessed"; the corrected rules record 'a' and refuse "5" as not a letter |
| `HangmanAsWritten.LowerCasingIsIdleAsWritten` | resources/js/Hangman.js:61-70 | as written, every letter that passes `/[a-z]/` is already lower-case, so the lower-casing never changes it |
| `HangmanAsWritten.UpperCaseLetter` | resources/js/Hangman.js:69-70 | as written "A" does not pass `/[a-z]/`; the corrected rules accept it as 'a' |

## Left out

- `getRandomWord` and the fetch in `start` (lines 20-26, 35): network I/O, asynchronous, and line 35 stores the Promise itself. `Game.Start` takes the word as a parameter.
- The canvas (lines 2-9, 37-38, 157-210): the constructor's canvas check and `getContext`, `clearCanvas`, `drawBase` and the bodies of the `draw*` methods, which are foreign graphics calls with floating-point geometry. Only the ghost log `drawn` of which part was drawn, in which order, is kept.
- `HangmanGame.Game.constructor`: the code's constructor leaves the word and the guesses undefined until `start`; the model's starts an empty round.
- The `console.error` and `console.log` output (lines 58, 62, 66, 98): refusals are `Err` values instead.
- The `next` callback of `start` (line 47), which is never called.
- The field `letter` that `guess` sets at line 55: it is written and never read.
- Letters are the ASCII letters and lower-casing is ASCII only; `toLocaleLowerCase` on other scripts is not modelled.
- Inputs to `guess` that are neither a string nor null/undefined are not modelled.
- `HangmanAsWritten.RecordAsWritten` starts at line 61 on a string: as written, a null input makes `letter.length` throw at line 61.
- The code does not refuse guesses once the round is over. It keeps no round counter to discard a word that arrives after a newer `start`, and it reports no error when the fetch fails. The model has none of these either.

## Findings

| source | as written | input that shows it | evidently intended | confidence | as-written member | corrected member |
|---|---|---|---|---|---|---|
| resources/js/Hangman.js:69-79 | a valid letter returns at line 70 before it is recorded, and the duplicate test at line 74 is inverted, so only repeats could ever be pushed | called as `Hangman.prototype.guess.call(game, …)` after `start` (a plain `game.guess(…)` then throws TypeError, because line 41 hid the method): a first guess "a" leaves the guess list empty, and "5" throws "already guessed" | record each new letter once, refuse a repeated one, refuse non-letters | high, not executed | `HangmanAsWritten.NothingIsEverRecordedAsWritten` | `HangmanRules.Accept` |
| resources/js/Hangman.js:61-70 | the pattern `/[a-z]/` has no `i` flag, so upper-case letters never pass and the lower-casing at line 70 never changes anything | "A" is refused | accept a letter of either case and lower-case it, as the comment at line 68 says | medium, not executed | `HangmanAsWritten.LowerCasingIsIdleAsWritten` | `HangmanRules.ToLower` |
