/**
 * The constraint tracker and ranker of engine.py. The module-level globals of
 * the source (played words, absent letters, known positions, yellow facts)
 * become one `State` value threaded through `Play`, `RankGuess` and
 * `BestGuess`; the word list is a parameter.
 */
module Engine {
  import opened Wrappers
  import opened Symbols

  /** Placeholder for a position whose letter is not yet known. */
  const Unset := '*'

  /** A yellow fact: `ch` occurs in the answer, but not at `index`. */
  datatype YellowFact = YellowFact(ch: char, index: nat)

  datatype State = State(
    played: set<string>,          // known_not_words
    notPossible: set<char>,       // not_possible_chars
    known: seq<char>,             // known, one entry per position
    unknown: seq<YellowFact>)     // unknown, in insertion order

  /** The state at program start. */
  const Initial: State := State({}, {}, [Unset, Unset, Unset, Unset, Unset], [])

  predicate NoDup<T(==)>(s: seq<T>)
  {
    forall a, b :: 0 <= a < b < |s| ==> s[a] != s[b]
  }

  /** Any symbol other than grey or yellow fixes the letter at its position. */
  predicate Fixes(sym: char)
  {
    sym != Grey && sym != Yellow
  }

  /** Drops the yellow facts for `ch` at positions other than `i`. */
  function Prune(u: seq<YellowFact>, ch: char, i: nat): (r: seq<YellowFact>)
    ensures forall f :: f in r <==> f in u && (f.ch != ch || f.index == i)
    ensures NoDup(u) ==> NoDup(r)
  {
    if |u| == 0 then []
    else
      var rest := Prune(u[1..], ch, i);
      assert forall f :: f in u[1..] ==> f in u;
      if u[0].ch != ch || u[0].index == i then [u[0]] + rest else rest
  }

  /** Folds the symbol at position `i` of one feedback pattern into the state. */
  function Step(s: State, ch: char, sym: char, i: nat): (r: State)
    requires Fixes(sym) ==> i < |s.known|
    ensures r.played == s.played && |r.known| == |s.known|
  {
    if sym == Grey then
      s.(notPossible := s.notPossible + {ch})
    else if sym == Yellow then
      var fact := YellowFact(ch, i);
      if fact in s.unknown then s else s.(unknown := s.unknown + [fact])
    else
      s.(known := s.known[i := ch], unknown := Prune(s.unknown, ch, i))
  }

  /**
   * A grey symbol adds the letter to the absent letters; a yellow one adds the
   * fact (letter, i) unless present; any other symbol sets `known[i]` and drops
   * the letter's facts at other indices. Nothing else changes.
   */
  lemma StepEffect(s: State, ch: char, sym: char, i: nat)
    requires Fixes(sym) ==> i < |s.known|
    ensures var r := Step(s, ch, sym, i);
      && (forall c :: c in r.notPossible <==> c in s.notPossible || (sym == Grey && c == ch))
      && (forall k :: 0 <= k < |r.known| ==> r.known[k] == (if k == i && Fixes(sym) then ch else s.known[k]))
      && (forall f :: f in r.unknown <==>
            if sym == Grey then f in s.unknown
            else if sym == Yellow then f in s.unknown || f == YellowFact(ch, i)
            else f in s.unknown && (f.ch != ch || f.index == i))
      && (NoDup(s.unknown) ==> NoDup(r.unknown))
  {
  }

  /** What the source needs of `play`'s arguments to index them without error. */
  predicate PlayDefined(s: State, guess: string, answer: string)
  {
    && |guess| <= |answer|
    && forall i :: |s.known| <= i < |guess| ==> !Fixes(answer[i])
  }

  /** A fact for `f.ch` is pruned by a fixing symbol in positions `lo..hi` at another index. */
  predicate PrunedBetween(guess: string, answer: string, f: YellowFact, lo: nat, hi: nat)
    requires hi <= |guess| <= |answer|
  {
    exists j :: lo <= j < hi && Fixes(answer[j]) && guess[j] == f.ch && j != f.index
  }

  /** `f` is recorded by the yellow at its own index, in positions `lo..hi`. */
  predicate RecordedBetween(guess: string, answer: string, f: YellowFact, lo: nat, hi: nat)
    requires hi <= |guess| <= |answer|
  {
    lo <= f.index < hi && answer[f.index] == Yellow && guess[f.index] == f.ch
  }

  /** Positions `i..` of one guess, folded left to right. */
  function PlayFrom(s: State, guess: string, answer: string, i: nat): (r: State)
    requires PlayDefined(s, guess, answer) && i <= |guess|
    ensures r.played == s.played && |r.known| == |s.known|
    decreases |guess| - i
  {
    if i == |guess| then s
    else PlayFrom(Step(s, guess[i], answer[i], i), guess, answer, i + 1)
  }

  /**
   * What folding positions `i..` does: the absent letters grow by exactly the
   * grey letters, `known` changes exactly at the fixed positions, and a yellow
   * fact is present afterwards iff it was present or is recorded there, and no
   * later fixed copy of its letter at another index pruned it.
   */
  lemma {:induction false} PlayFromEffect(s: State, guess: string, answer: string, i: nat)
    requires PlayDefined(s, guess, answer) && i <= |guess|
    ensures var r := PlayFrom(s, guess, answer, i);
      && (forall c :: c in r.notPossible <==>
            c in s.notPossible || exists k :: i <= k < |guess| && answer[k] == Grey && guess[k] == c)
      && (forall k :: 0 <= k < |r.known| ==>
            r.known[k] == (if i <= k < |guess| && Fixes(answer[k]) then guess[k] else s.known[k]))
      && (forall f :: f in r.unknown <==>
            || (f in s.unknown && !PrunedBetween(guess, answer, f, i, |guess|))
            || (RecordedBetween(guess, answer, f, i, |guess|) && !PrunedBetween(guess, answer, f, f.index + 1, |guess|)))
      && (NoDup(s.unknown) ==> NoDup(r.unknown))
    decreases |guess| - i
  {
    if i < |guess| {
      var s' := Step(s, guess[i], answer[i], i);
      StepEffect(s, guess[i], answer[i], i);
      PlayFromEffect(s', guess, answer, i + 1);
      PlayStepUnknown(s, s', PlayFrom(s', guess, answer, i + 1), guess, answer, i);
    }
  }

  lemma PlayStepUnknown(s: State, s': State, r: State, guess: string, answer: string, i: nat)
    requires PlayDefined(s, guess, answer) && i < |guess|
    requires s' == Step(s, guess[i], answer[i], i)
    requires forall f :: f in r.unknown <==>
      || (f in s'.unknown && !PrunedBetween(guess, answer, f, i + 1, |guess|))
      || (RecordedBetween(guess, answer, f, i + 1, |guess|) && !PrunedBetween(guess, answer, f, f.index + 1, |guess|))
    ensures forall f :: f in r.unknown <==>
      || (f in s.unknown && !PrunedBetween(guess, answer, f, i, |guess|))
      || (RecordedBetween(guess, answer, f, i, |guess|) && !PrunedBetween(guess, answer, f, f.index + 1, |guess|))
  {
    StepEffect(s, guess[i], answer[i], i);
    forall f
      ensures f in r.unknown <==>
        || (f in s.unknown && !PrunedBetween(guess, answer, f, i, |guess|))
        || (RecordedBetween(guess, answer, f, i, |guess|) && !PrunedBetween(guess, answer, f, f.index + 1, |guess|))
    {
      var n := |guess|;
      if Fixes(answer[i]) && guess[i] == f.ch && i != f.index {
        assert PrunedBetween(guess, answer, f, i, n);
      } else if PrunedBetween(guess, answer, f, i, n) {
        var j :| i <= j < n && Fixes(answer[j]) && guess[j] == f.ch && j != f.index;
        assert PrunedBetween(guess, answer, f, i + 1, n);
      }
    }
  }

  /** `play`: records the guess as played and folds its pattern into the state. */
  function Play(s: State, guess: string, answer: string): (r: State)
    requires PlayDefined(s, guess, answer)
    ensures r.played == s.played + {guess}
    ensures forall c :: c in r.notPossible <==>
      c in s.notPossible || exists k :: 0 <= k < |guess| && answer[k] == Grey && guess[k] == c
    ensures |r.known| == |s.known|
    ensures forall k :: 0 <= k < |r.known| ==>
      r.known[k] == (if k < |guess| && Fixes(answer[k]) then guess[k] else s.known[k])
    ensures forall f :: f in r.unknown <==>
      || (f in s.unknown && !PrunedBetween(guess, answer, f, 0, |guess|))
      || (RecordedBetween(guess, answer, f, 0, |guess|) && !PrunedBetween(guess, answer, f, f.index + 1, |guess|))
    ensures NoDup(s.unknown) ==> NoDup(r.unknown)
  {
    PlayFromEffect(s.(played := s.played + {guess}), guess, answer, 0);
    PlayFrom(s.(played := s.played + {guess}), guess, answer, 0)
  }

  /** Some position of `guess` holding `c` received a grey mark. */
  predicate GreyAt(guess: string, answer: string, c: char)
  {
    exists i :: 0 <= i < |guess| && i < |answer| && answer[i] == Grey && guess[i] == c
  }

  /** Replays a game's (guess, pattern) history from the initial state. */
  function Replay(history: seq<(string, string)>): (r: State)
    requires forall k :: 0 <= k < |history| ==> PlayDefined(Initial, history[k].0, history[k].1)
    ensures forall w :: w in r.played <==> exists k :: 0 <= k < |history| && history[k].0 == w
    ensures forall c :: c in r.notPossible <==> exists k :: 0 <= k < |history| && GreyAt(history[k].0, history[k].1, c)
    ensures |r.known| == |Initial.known| && NoDup(r.unknown)
  {
    if |history| == 0 then Initial
    else
      var n := |history| - 1;
      var prev := Replay(history[..n]);
      assert PlayDefined(Initial, history[n].0, history[n].1);
      assert PlayDefined(prev, history[n].0, history[n].1);
      var r := Play(prev, history[n].0, history[n].1);
      assert forall c :: c in r.notPossible <==> c in prev.notPossible || GreyAt(history[n].0, history[n].1, c);
      ReplayStep(history, prev, r);
      r
  }

  lemma ReplayStep(history: seq<(string, string)>, prev: State, r: State)
    requires |history| > 0
    requires forall k :: 0 <= k < |history| ==> PlayDefined(Initial, history[k].0, history[k].1)
    requires var h := history[..|history| - 1];
      && (forall w :: w in prev.played <==> exists k :: 0 <= k < |h| && h[k].0 == w)
      && (forall c :: c in prev.notPossible <==> exists k :: 0 <= k < |h| && GreyAt(h[k].0, h[k].1, c))
    requires var (g, a) := history[|history| - 1];
      && r.played == prev.played + {g}
      && forall c :: c in r.notPossible <==> c in prev.notPossible || GreyAt(g, a, c)
    ensures forall w :: w in r.played <==> exists k :: 0 <= k < |history| && history[k].0 == w
    ensures forall c :: c in r.notPossible <==> exists k :: 0 <= k < |history| && GreyAt(history[k].0, history[k].1, c)
  {
    var n := |history| - 1;
    var (g, a) := history[n];
    var h := history[..n];
    assert forall k :: 0 <= k < n ==> h[k] == history[k];
    forall w
      ensures w in r.played <==> exists k :: 0 <= k < |history| && history[k].0 == w
    {
      if w in prev.played {
        var k :| 0 <= k < n && h[k].0 == w;
        assert history[k].0 == w;
      } else if w == g {
        assert history[n].0 == w;
      }
    }
    forall c
      ensures c in r.notPossible <==> exists k :: 0 <= k < |history| && GreyAt(history[k].0, history[k].1, c)
    {
      if c in prev.notPossible {
        var k :| 0 <= k < n && GreyAt(h[k].0, h[k].1, c);
        assert GreyAt(history[k].0, history[k].1, c);
      } else if GreyAt(g, a, c) {
        assert GreyAt(history[n].0, history[n].1, c);
      }
    }
  }

  /** Yellow facts for letter `c` recorded at an index other than `i`. */
  function Support(u: seq<YellowFact>, c: char, i: nat): (n: nat)
    ensures n <= |u|
  {
    if |u| == 0 then 0
    else
      var last := u[|u| - 1];
      Support(u[..|u| - 1], c, i) + (if last.ch == c && last.index != i then 1 else 0)
  }

  /** What the source needs of `rank_guess`'s argument to index `known` without error. */
  predicate RankDefined(s: State, guess: string)
  {
    guess == [] || guess in s.played || |guess| <= |s.known|
  }

  /** Reference score of position `i`: repeat and absent-letter penalties, known and yellow bonuses. */
  function PositionScore(s: State, guess: string, i: nat): int
    requires i < |guess| <= |s.known|
  {
    (if guess[i] in guess[..i] then -1 else 0)
    + (if guess[i] in s.notPossible then -2 else 0)
    + (if s.known[i] == guess[i] then 2 else 0)
    + Support(s.unknown, guess[i], i)
  }

  /** Sum of the reference scores of the first `n` positions. */
  function Score(s: State, guess: string, n: nat): int
    requires n <= |guess| <= |s.known|
  {
    if n == 0 then 0 else Score(s, guess, n - 1) + PositionScore(s, guess, n - 1)
  }

  /** Reference rank: `None` (minus infinity) for rejected words, else the summed score. */
  function Rank(s: State, guess: string): Option<int>
    requires RankDefined(s, guess)
  {
    if guess == [] || guess in s.played then None else Some(Score(s, guess, |guess|))
  }

  /** `rank_guess`: one left-to-right scan keeping the set of letters seen so far. */
  method RankGuess(s: State, guess: string) returns (score: Option<int>)
    requires RankDefined(s, guess)
    ensures score.None? <==> guess == [] || guess in s.played
    ensures score == Rank(s, guess)
  {
    if guess == [] || guess in s.played {
      return None;
    }
    var total := 0;
    var seen: set<char> := {};
    for i := 0 to |guess|
      invariant forall c :: c in seen <==> c in guess[..i]
      invariant total == Score(s, guess, i)
    {
      var ch := guess[i];
      if ch in seen {
        total := total - 1;
      }
      seen := seen + {ch};
      if ch in s.notPossible {
        total := total - 2;
      }
      if s.known[i] == ch {
        total := total + 2;
      }
      total := total + Support(s.unknown, ch, i);
      assert guess[..i + 1] == guess[..i] + [ch];
    }
    return Some(total);
  }

  /** Python's `>` on scores, with `None` as minus infinity. */
  predicate Exceeds(a: Option<int>, b: Option<int>)
  {
    a.Some? && (b.None? || a.value > b.value)
  }

  /** `k` holds the first word whose finite rank no word of the list exceeds. */
  predicate LeftmostBest(s: State, guesses: seq<string>, k: int)
    requires forall g :: g in guesses ==> RankDefined(s, g)
  {
    && 0 <= k < |guesses|
    && Rank(s, guesses[k]).Some?
    && (forall j :: 0 <= j < |guesses| ==> !Exceeds(Rank(s, guesses[j]), Rank(s, guesses[k])))
    && (forall j :: 0 <= j < k ==> Exceeds(Rank(s, guesses[k]), Rank(s, guesses[j])))
  }

  /** `best_guess`: arg-max of the rank over the word list, keeping the leftmost on ties. */
  method BestGuess(s: State, guesses: seq<string>) returns (best: Option<string>)
    requires forall g :: g in guesses ==> RankDefined(s, g)
    ensures best.None? <==> forall k :: 0 <= k < |guesses| ==> Rank(s, guesses[k]).None?
    ensures best.Some? ==> exists k :: LeftmostBest(s, guesses, k) && guesses[k] == best.value
    ensures best.Some? ==> best.value !in s.played && best.value != []
  {
    var bestScore: Option<int> := None;
    best := None;
    ghost var at := -1;
    for i := 0 to |guesses|
      invariant best.None? <==> at == -1
      invariant best.None? ==> bestScore.None? && forall j :: 0 <= j < i ==> Rank(s, guesses[j]).None?
      invariant best.Some? ==> 0 <= at < i && guesses[at] == best.value && bestScore == Rank(s, guesses[at])
      invariant best.Some? ==> bestScore.Some?
      invariant best.Some? ==> forall j :: 0 <= j < i ==> !Exceeds(Rank(s, guesses[j]), bestScore)
      invariant best.Some? ==> forall j :: 0 <= j < at ==> Exceeds(bestScore, Rank(s, guesses[j]))
    {
      var score := RankGuess(s, guesses[i]);
      if Exceeds(score, bestScore) {
        bestScore := score;
        best := Some(guesses[i]);
        at := i;
      }
    }
    if best.Some? {
      assert LeftmostBest(s, guesses, at);
    }
  }

  /** A word just played ranks minus infinity, so it is never suggested again. */
  lemma PlayedNeverRanked(s: State, guess: string, answer: string)
    requires PlayDefined(s, guess, answer)
    ensures RankDefined(Play(s, guess, answer), guess)
    ensures Rank(Play(s, guess, answer), guess) == None
  {
  }

  /** Each position scores at least -3 and at most 2 plus the number of yellow facts. */
  lemma PositionBounds(s: State, guess: string, i: nat)
    requires i < |guess| <= |s.known|
    ensures -3 <= PositionScore(s, guess, i) <= 2 + |s.unknown|
  {
  }

  /** The first `n` positions together score between -3 and 2 plus the number of yellow facts per position. */
  lemma {:induction false} ScoreBounds(s: State, guess: string, n: nat)
    requires n <= |guess| <= |s.known|
    ensures -3 * n <= Score(s, guess, n) <= (2 + |s.unknown|) * n
  {
    if n > 0 {
      ScoreBounds(s, guess, n - 1);
      var m := 2 + |s.unknown|;
      assert m * n == m * (n - 1) + m;
      PositionBounds(s, guess, n - 1);
    }
  }

  /**
   * Playing the same observation twice leaves the same played words, absent
   * letters, known positions and set of yellow facts.
   */
  lemma PlayTwiceSameFacts(s: State, guess: string, answer: string)
    requires PlayDefined(s, guess, answer)
    ensures var once := Play(s, guess, answer);
      var twice := Play(once, guess, answer);
      && twice.played == once.played && twice.notPossible == once.notPossible && twice.known == once.known
      && forall f :: f in twice.unknown <==> f in once.unknown
  {
  }

  /** Playing "acbcd" with pattern "-g-yy" from the initial state records ('c', 3), then ('d', 4). */
  lemma PlayOnceExample()
    ensures Play(Initial, "acbcd", "-g-yy").unknown == [YellowFact('c', 3), YellowFact('d', 4)]
  {
    var g, a := "acbcd", "-g-yy";
    var s0 := Initial.(played := {g});
    var s1 := Step(s0, 'a', '-', 0);
    var s2 := Step(s1, 'c', 'g', 1);
    assert s2.unknown == [];
    var s3 := Step(s2, 'b', '-', 2);
    var s4 := Step(s3, 'c', 'y', 3);
    var s5 := Step(s4, 'd', 'y', 4);
    assert s5.unknown == [YellowFact('c', 3), YellowFact('d', 4)];
    assert PlayFrom(s0, g, a, 0) == PlayFrom(s1, g, a, 1) == PlayFrom(s2, g, a, 2)
      == PlayFrom(s3, g, a, 3) == PlayFrom(s4, g, a, 4) == PlayFrom(s5, g, a, 5) == s5;
  }

  /**
   * ... but not the same order of yellow facts: a fixing `c` prunes the fact
   * that a later yellow `c` recorded, which the replay then appends at the end.
   */
  lemma PlayTwiceReorders()
    ensures var once := Play(Initial, "acbcd", "-g-yy");
      && once.unknown == [YellowFact('c', 3), YellowFact('d', 4)]
      && Play(once, "acbcd", "-g-yy").unknown == [YellowFact('d', 4), YellowFact('c', 3)]
  {
    var g, a := "acbcd", "-g-yy";
    var once := Play(Initial, g, a);
    PlayOnceExample();
    var s0 := once.(played := once.played + {g});
    var s1 := Step(s0, 'a', '-', 0);
    var s2 := Step(s1, 'c', 'g', 1);
    assert once.unknown[1..] == [YellowFact('d', 4)];
    assert s2.unknown == Prune(once.unknown, 'c', 1) == [YellowFact('d', 4)];
    var s3 := Step(s2, 'b', '-', 2);
    var s4 := Step(s3, 'c', 'y', 3);
    var s5 := Step(s4, 'd', 'y', 4);
    assert s5.unknown == [YellowFact('d', 4), YellowFact('c', 3)];
    assert PlayFrom(s0, g, a, 0) == PlayFrom(s1, g, a, 1) == PlayFrom(s2, g, a, 2)
      == PlayFrom(s3, g, a, 3) == PlayFrom(s4, g, a, 4) == PlayFrom(s5, g, a, 5) == s5;
  }
}
