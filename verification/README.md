# Wordly solver core in Dafny

This project models the core of the `wordly` Wordle solver:

- the **feedback encoder** `get_answer` (utils.py), which colours a guess against a target in two passes: greens first, then yellows handed out left to right from the target letters no green consumed;
- the **constraint tracker and ranker** (engine.py): `play` folds a (guess, pattern) pair into the accumulated knowledge, `rank_guess` scores a word, and `best_guess` picks the leftmost best-scoring word of the guess list;
- the **word finder** (finder.py), which returns the first answer that fits a `*`-template and is not on a deny-list.

Modules follow the source files: `Feedback` (feedback.dfy), `Engine` (engine.dfy), `Finder` (finder.dfy). `Symbols` (symbols.dfy) holds the pattern symbols `g`, `y`, `-` shared by the encoder and the tracker; `Session` (session.dfy) relates the encoder's patterns to `play`, as the drivers chain them; `Wrappers` (wrappers.dfy) holds `Option`.

Modelling choices:

- The module-level globals of engine.py (`known_not_words`, `not_possible_chars`, `known`, `unknown`) become one `Engine.State` value threaded through pure functions; the word list `possible_guesses` is a parameter of `BestGuess`.
- `-math.inf` is `None` of `Option<int>`; every finite score is a sum of small integer steps, so it is an `int`. `Engine.Exceeds` is Python's `>` on these values.
- Each `{"char", "index"}` dictionary of `unknown` is an `Engine.YellowFact`.
- The encoder's working copies `target_chars` and `guess_chars`, where Python writes `None` over consumed letters, are `seq<Option<char>>` (`Feedback.TargetLeft`, `Feedback.GuessLeft`).
- The finder's two `input()` prompts become string parameters of `Finder.Run`. Its `print`/`exit()` outcomes become the `Finder.Outcome` result: `Found(word)`, `NoMatch`, or `Crashed`. `Crashed` stands for the `IndexError` raised when the scan reaches a non-`*` template position past the answer's end before any disagreeing position (`Finder.Scan` gives `OutOfRange`). A longer template whose scan disagrees inside the answer breaks and skips that answer instead.
- Preconditions are what the Python code needs to index without error:
  - `get_answer` reads `target[i]` for every `i < len(guess)`, so `|guess| <= |target|`.
  - `play` reads `answer[i]` for every position of the guess, and writes `known[i]` only under a symbol other than `-`/`y` (`Engine.PlayDefined`).
  - `rank_guess` reads `known[i]` only for a non-empty, unplayed word (`Engine.RankDefined`).

Each operation is paired with an independent description of its result:

- `GetAnswer` is proved equal, position by position, to a closed-form reference (`Feedback.Expected`). A non-green letter is yellow exactly when fewer earlier non-green copies of it exist than target copies left unconsumed by greens.
- `RankGuess`, a loop over a set of letters already seen, is proved equal to a sum of per-position reference scores (`Engine.Rank`). That reference uses `guess[i] in guess[..i]` instead of the set.
- `Play` and `PlayFromEffect` describe membership in the yellow-fact list exactly: which facts survive, which are added, and which are pruned.
- `Split` is paired with `Join` in both directions.
- `Scan` is tied to `Finder.FirstMiss`, the first position where template and answer disagree. It breaks when that position is inside the answer and raises when it is past the end. `FindFirst` is proved to return the word at the unique index where `FoundAt` holds, and to crash exactly at the unique index where `CrashesAt` holds.

The model follows the code as written:

- `play` adds a letter marked `-` to the absent letters even when the same guess marks that letter `g` or `y` elsewhere. There is no duplicate-letter exception. `Session.GreyCopyMarkedAbsent` states this for patterns produced by the encoder.
- `rank_guess` gives an absent letter a -2 penalty. It does not reject the word.
- There is no entropy term, no frequency weighting, no fixed opening word, and no filtering of candidates against the full history. None of these exists in engine.py.

## Model

| member | source | states |
|---|---|---|
| Feedback.GetAnswer | utils.py:1-19 | the pattern has the guess's length, uses only `g`, `y`, `-`, is `g` at exactly the positions where guess and target agree, and matches the reference colouring `Expected` at every position |
| Feedback.YellowPassFollowsReference | utils.py:13-17 | the second pass, consuming the first unconsumed target copy for each yellow, produces the reference colouring from any state that agrees with it so far |
| Feedback.IndexOf | utils.py:17 | `list.index`: the first position holding the value, with no earlier occurrence |
| Feedback.AllGreenOnSelf | utils.py:7-11 | guessing the target itself gives an all-green pattern |
| Feedback.AbsentLetterGrey | utils.py:13-17 | a letter that does not occur in the target is grey at every position where it is guessed |
| Feedback.LeftmostYellow | utils.py:14-17 | yellows for a repeated letter go to its leftmost non-green copies: after a grey non-green copy, no later non-green copy is yellow |
| Feedback.LetterCredit | utils.py:6-17 | for every letter, the positions holding it marked green or yellow number exactly min(count in guess, count in target) |
| Feedback.ReferenceCredit | utils.py:6-17 | the same letter count for any pattern that agrees with the reference colouring |
| Feedback.GreenBalance | utils.py:7-11 | on every prefix, copies in guess plus unconsumed target copies equal copies in target plus non-green guess copies |
| Engine.Prune | engine.py:26-28 | the filtered list keeps exactly the facts for other letters or for index `i`, and keeps a duplicate-free list duplicate-free |
| Engine.StepEffect | engine.py:17-28 | `-` adds the letter to the absent letters; `y` adds the fact (letter, i) unless already present; any other symbol sets `known[i]` and drops that letter's facts at other indices; nothing else changes |
| Engine.PlayFromEffect | engine.py:17-28 | folding positions i.. left to right: absent letters grow by exactly the grey letters, `known` changes exactly at fixed positions, and a yellow fact survives iff it was present or recorded and no later fixed copy of its letter at another index pruned it |
| Engine.Play | engine.py:13-28 | the guess is added to the played words and nothing is removed from them; the absent letters, `known` and the yellow facts are updated as `PlayFrom` states from position 0; `known` keeps its length; no duplicate yellow facts appear |
| Engine.Replay | engine.py:6-28 | replaying a history from the initial state: the played words are exactly the guesses, the absent letters exactly the grey-marked letters, `known` keeps five entries, and the yellow facts have no duplicates |
| Engine.PlayTwiceSameFacts | engine.py:13-28 | playing the same observation twice keeps the played words, absent letters, known positions and set of yellow facts of playing it once |
| Engine.PlayOnceExample | engine.py:13-28 | playing "acbcd" with pattern "-g-yy" from the initial state leaves the yellow facts [('c', 3), ('d', 4)]: the fixed `c` at 1 comes before the yellow `c` at 3, so nothing is pruned |
| Engine.PlayTwiceReorders | engine.py:20-28 | replaying "acbcd"/"-g-yy" moves the fact ('c', 3) behind ('d', 4): the order of `unknown` is not preserved |
| Engine.Support | engine.py:49-51 | the count of matching yellow facts never exceeds the number of facts |
| Engine.RankGuess | engine.py:31-53 | minus infinity exactly for the empty word or a played word; otherwise the sum over positions of -1 for a repeated letter, -2 for an absent letter, +2 for a known position, +1 per yellow fact for that letter at another index |
| Engine.PositionBounds | engine.py:38-51 | each position contributes between -3 and 2 plus the number of yellow facts |
| Engine.ScoreBounds | engine.py:38-51 | the summed score of the first `n` positions lies between -3 and 2 plus the number of yellow facts, times `n` |
| Engine.PlayedNeverRanked | engine.py:13-33 | right after `play`, the played word ranks minus infinity |
| Engine.BestGuess | engine.py:56-69 | `None` iff every word ranks minus infinity (or the list is empty); otherwise the first word whose finite rank no word exceeds, which is never played and never empty |
| Finder.LowerChar | finder.py:17 | upper-case ASCII letters move to lower case, everything else is unchanged |
| Finder.Lower | finder.py:17 | same length; each upper-case letter becomes its lower-case partner (code point plus 32); every other character is unchanged |
| Finder.LowerIdempotent | finder.py:17 | lowercasing twice equals lowercasing once |
| Finder.ParseTemplate | finder.py:14-17 | an empty template input becomes `*****`; otherwise each ASCII upper-case letter is lowercased in place and every other character is kept |
| Finder.Split | finder.py:12 | `str.split(",")`: at least one piece, no piece contains the separator, and joining the pieces gives the input back |
| Finder.SplitJoin | finder.py:12 | splitting a join of separator-free pieces returns the pieces |
| Finder.SplitFree | finder.py:12 | a string without the separator splits into itself |
| Finder.SplitPrefix | finder.py:12 | splitting `p + "," + t` with `p` comma-free yields `p` followed by the pieces of `t` |
| Finder.ParseDenyList | finder.py:10-12 | empty input gives no words; otherwise the raw pieces, with no whitespace stripping, joining back to the input |
| Finder.Scan | finder.py:28-33 | `Match` iff every template position is `*` or names the answer's letter; `Mismatch` iff the first disagreeing position is inside the answer (the `break`); `OutOfRange` iff it lies past the answer's end (the `IndexError`), every position inside the answer then agreeing; a template no longer than the answer never runs out of range |
| Finder.FirstMissShift | finder.py:28-30 | an agreeing position (`*` or a matching letter) moves the first disagreement on without changing it |
| Finder.SkippedHead | finder.py:20-32 | after a skipped first answer (denied, or the letter loop breaks), the first answer is neither found nor fatal and later indices correspond one to one with the tail's |
| Finder.KeptHead | finder.py:20-35 | when the first answer is not skipped, the search can only settle on it: found under `*****` or a full match, fatal when the scan runs past its end |
| Finder.FindFirst | finder.py:19-37 | with template `*****` the first answer, even a denied one; otherwise the first answer that is not denied and fits, every earlier one skipped; `NoMatch` iff every answer is skipped; whenever some index satisfies `FoundAt` the result is that word, and whenever some index satisfies `CrashesAt` (first unskipped answer, scan runs past its end) the result is `Crashed` |
| Finder.Run | finder.py:8-37 | an empty template input finds the first answer; a template no longer than every answer never crashes |
| Finder.ShortMismatchSkipped | finder.py:17-35 | template `XBCD` over answers `xbq`, `xbcd`: the short `xbq` breaks at its third letter and is skipped, and `xbcd` is found |
| Finder.ShortPrefixCrashes | finder.py:28-32 | template `xb*d` over answers `xb`, `xbcd`: `xb` agrees up to its end, so the scan indexes past it and the program crashes |
| Session.CreditedLetterInTarget | utils.py:7-17 | a letter the encoder marks green or yellow occurs in the target |
| Session.GreyCopyMarkedAbsent | engine.py:17-19 | feeding the encoder's pattern to `play`: a grey copy of a letter lands in the absent set even when another copy of it in the same guess is green or yellow, so the letter does occur in the target |
| Session.SolvedFixesKnown | engine.py:24-25 | playing a word with its own all-green pattern fixes every known position to that word's letter |

## Left out

- File loading of `guesses.txt` and `answers.txt` (engine.py:3-4, finder.py:3-4): the word lists are parameters.
- Console I/O (finder.py:6-10, 22, 34, 37; engine.py:66-67): colours and `print` are not modelled; the prompts are parameters and the printed outcome is the result value.
- `Finder.LowerChar`, `Finder.Lower`, `Finder.ParseTemplate`: model ASCII lowercasing only; Python's `str.lower` also folds non-ASCII letters (the Kelvin sign becomes `k`, for instance), which these leave unchanged.
- `Engine.RankGuess`: the source sums `1.0` floats for the yellow bonus, so its score can be a float; every value is integral, and the model uses `int`.
- `Engine.Play`: the source raises `IndexError` after partially updating the globals in two cases: a pattern shorter than the guess (engine.py:18), and a fixing symbol beyond the fifth position (engine.py:25). The model forbids both inputs by precondition (`Engine.PlayDefined`) instead of modelling the partial update.
- `Feedback.GetAnswer`: a guess longer than the target makes utils.py:8 raise `IndexError`; the model requires `|guess| <= |target|` and does not model that crash.
- `Engine.RankGuess`: an unplayed, non-empty word longer than `known` makes engine.py:46 raise `IndexError`; the model requires `Engine.RankDefined` and does not model that crash.
- `Engine.BestGuess`: a guess list holding such a word makes `best_guess` raise through `rank_guess`; the model requires every listed word to satisfy `Engine.RankDefined` and does not model that crash.
- wordly.py, custom.py, main.py, tester.py and parse.py: the terminal game, the daily-answer network fetch, batch statistics with float percentages, and CSV processing are drivers around the core. The line-protocol client (`Game`) they import is not part of this model.
- Entropy, frequency weighting, the opening word and history-based candidate filtering: not present in the modelled source.
