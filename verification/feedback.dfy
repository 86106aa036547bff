/**
 * The feedback encoder of utils.py: colours a guess against a target with
 * two passes, greens first, then yellows handed out left to right from the
 * target letters that the green pass did not consume.
 */
module Feedback {
  import opened Wrappers
  import opened Symbols

  /** Working copy of the guess after the green pass: `None` where the letter was green. */
  function GuessLeft(guess: string, target: string): (gc: seq<Option<char>>)
    requires |guess| <= |target|
    ensures |gc| == |guess|
  {
    seq(|guess|, i requires 0 <= i < |guess| =>
      if guess[i] == target[i] then None else Some(guess[i]))
  }

  /** Working copy of the target after the green pass: `None` where a green consumed it. */
  function TargetLeft(guess: string, target: string): (tc: seq<Option<char>>)
    requires |guess| <= |target|
    ensures |tc| == |target|
  {
    seq(|target|, i requires 0 <= i < |target| =>
      if i < |guess| && guess[i] == target[i] then None else Some(target[i]))
  }

  /** The marks after the green pass: green where the letters agree, grey elsewhere. */
  function GreenPass(guess: string, target: string): (marks: string)
    requires |guess| <= |target|
    ensures |marks| == |guess|
  {
    seq(|guess|, i requires 0 <= i < |guess| =>
      if guess[i] == target[i] then Green else Grey)
  }

  /** Position of the first occurrence of `x` in `s` (Python's `list.index`). */
  function IndexOf<T(==)>(s: seq<T>, x: T): (k: nat)
    requires x in s
    ensures k < |s| && s[k] == x
    ensures x !in s[..k]
  {
    if s[0] == x then 0
    else
      assert x in s[1..] by { var j :| 0 <= j < |s| && s[j] == x; assert s[1..][j - 1] == x; }
      var k := 1 + IndexOf(s[1..], x);
      assert s[..k] == [s[0]] + s[1..][..k - 1];
      k
  }

  /**
   * The yellow pass from position `i` on: a letter still in the guess's
   * working copy that occurs in the target's working copy turns yellow and
   * consumes the first such occurrence.
   */
  function YellowPass(gc: seq<Option<char>>, tc: seq<Option<char>>, marks: string, i: nat): (r: string)
    requires |marks| == |gc| && i <= |gc|
    ensures |r| == |marks|
    decreases |gc| - i
  {
    if i == |gc| then marks
    else if gc[i].Some? && gc[i] in tc then
      YellowPass(gc, tc[IndexOf(tc, gc[i]) := None], marks[i := Yellow], i + 1)
    else
      YellowPass(gc, tc, marks, i + 1)
  }

  /** Non-green occurrences of `c` among the first `n` letters of the guess. */
  function Missed(guess: string, target: string, c: char, n: nat): nat
    requires |guess| <= |target| && n <= |guess|
  {
    multiset(GuessLeft(guess, target)[..n])[Some(c)]
  }

  /** Occurrences of `c` in the target that no green consumed. */
  function Unmatched(guess: string, target: string, c: char): nat
    requires |guess| <= |target|
  {
    multiset(TargetLeft(guess, target))[Some(c)]
  }

  /**
   * Reference colouring of one position: green on an exact match; otherwise
   * yellow exactly when fewer earlier non-green copies of the letter exist
   * than unconsumed copies in the target.
   */
  function Expected(guess: string, target: string, i: nat): char
    requires |guess| <= |target| && i < |guess|
  {
    if guess[i] == target[i] then Green
    else if Missed(guess, target, guess[i], i) < Unmatched(guess, target, guess[i]) then Yellow
    else Grey
  }

  /** The two-pass encoder. */
  function GetAnswer(guess: string, target: string): (r: string)
    requires |guess| <= |target|
    ensures |r| == |guess|
    ensures forall i :: 0 <= i < |guess| ==> r[i] == Expected(guess, target, i)
    ensures forall i :: 0 <= i < |guess| ==> r[i] in {Green, Yellow, Grey}
    ensures forall i :: 0 <= i < |guess| ==> (r[i] == Green <==> guess[i] == target[i])
  {
    YellowPassFollowsReference(guess, target, TargetLeft(guess, target), GreenPass(guess, target), 0);
    YellowPass(GuessLeft(guess, target), TargetLeft(guess, target), GreenPass(guess, target), 0)
  }

  function Avail(guess: string, target: string, c: char, i: nat): nat
    requires |guess| <= |target| && i <= |guess|
  {
    var u := Unmatched(guess, target, c);
    var m := Missed(guess, target, c, i);
    if m < u then u - m else 0
  }

  lemma MultisetUpdate<T>(s: seq<T>, k: nat, v: T)
    requires k < |s|
    ensures multiset(s[k := v]) == multiset(s) - multiset{s[k]} + multiset{v}
  {
    assert s == s[..k] + [s[k]] + s[k + 1..];
    assert s[k := v] == s[..k] + [v] + s[k + 1..];
  }

  lemma MissedStep(guess: string, target: string, d: char, i: nat)
    requires |guess| <= |target| && i < |guess|
    ensures Missed(guess, target, d, i + 1)
      == Missed(guess, target, d, i) + (if guess[i] != target[i] && guess[i] == d then 1 else 0)
  {
    var gc := GuessLeft(guess, target);
    assert gc[..i + 1] == gc[..i] + [gc[i]];
  }

  /** One yellow-pass step keeps the per-letter supply equal to `Avail`. */
  lemma SupplyStep(guess: string, target: string, tc: seq<Option<char>>, tc': seq<Option<char>>, i: nat)
    requires |guess| <= |target| && i < |guess|
    requires forall c :: multiset(tc)[Some(c)] == Avail(guess, target, c, i)
    requires guess[i] != target[i] && Some(guess[i]) in tc ==> multiset(tc') == multiset(tc) - multiset{Some(guess[i])} + multiset{None}
    requires !(guess[i] != target[i] && Some(guess[i]) in tc) ==> tc' == tc
    ensures forall c :: multiset(tc')[Some(c)] == Avail(guess, target, c, i + 1)
  {
    forall d
      ensures multiset(tc')[Some(d)] == Avail(guess, target, d, i + 1)
    {
      MissedStep(guess, target, d, i);
    }
  }

  /** `r` is the reference colouring of the guess against the target. */
  ghost predicate Coloured(guess: string, target: string, r: string)
    requires |guess| <= |target|
  {
    |r| == |guess| && forall k :: 0 <= k < |guess| ==> r[k] == Expected(guess, target, k)
  }

  /** The loop state of the yellow pass after `i` positions agrees with the reference. */
  ghost predicate PassInvariant(guess: string, target: string, tc: seq<Option<char>>, marks: string, i: nat)
    requires |guess| <= |target|
  {
    && i <= |guess| && |marks| == |guess|
    && (forall k :: 0 <= k < i ==> marks[k] == Expected(guess, target, k))
    && (forall k :: i <= k < |guess| ==> marks[k] == (if guess[k] == target[k] then Green else Grey))
    && (forall c :: multiset(tc)[Some(c)] == Avail(guess, target, c, i))
  }

  /** A non-green letter still present in the target's working copy turns yellow. */
  lemma YellowTaken(guess: string, target: string, tc: seq<Option<char>>, marks: string, i: nat)
    requires |guess| <= |target| && i < |guess|
    requires PassInvariant(guess, target, tc, marks, i)
    requires guess[i] != target[i] && Some(guess[i]) in tc
    ensures PassInvariant(guess, target, tc[IndexOf(tc, Some(guess[i])) := None], marks[i := Yellow], i + 1)
  {
    var c := guess[i];
    var tc' := tc[IndexOf(tc, Some(c)) := None];
    var marks' := marks[i := Yellow];
    assert multiset(tc)[Some(c)] == Avail(guess, target, c, i);
    assert Expected(guess, target, i) == Yellow;
    MultisetUpdate(tc, IndexOf(tc, Some(c)), None);
    SupplyStep(guess, target, tc, tc', i);
    assert forall k :: 0 <= k < i + 1 ==> marks'[k] == Expected(guess, target, k);
  }

  /** A green letter, or one absent from the target's working copy, keeps its mark. */
  lemma YellowSkipped(guess: string, target: string, tc: seq<Option<char>>, marks: string, i: nat)
    requires |guess| <= |target| && i < |guess|
    requires PassInvariant(guess, target, tc, marks, i)
    requires !(guess[i] != target[i] && Some(guess[i]) in tc)
    ensures PassInvariant(guess, target, tc, marks, i + 1)
  {
    var c := guess[i];
    assert multiset(tc)[Some(c)] == Avail(guess, target, c, i);
    assert marks[i] == Expected(guess, target, i);
    SupplyStep(guess, target, tc, tc, i);
  }

  /** One step of the yellow pass preserves `PassInvariant`. */
  lemma YellowStep(guess: string, target: string, tc: seq<Option<char>>, marks: string, i: nat)
      returns (tc': seq<Option<char>>, marks': string)
    requires |guess| <= |target| && i < |guess|
    requires PassInvariant(guess, target, tc, marks, i)
    ensures PassInvariant(guess, target, tc', marks', i + 1)
    ensures YellowPass(GuessLeft(guess, target), tc, marks, i) == YellowPass(GuessLeft(guess, target), tc', marks', i + 1)
  {
    var gc := GuessLeft(guess, target);
    assert gc[i] == (if guess[i] == target[i] then None else Some(guess[i]));
    if guess[i] != target[i] && Some(guess[i]) in tc {
      tc', marks' := tc[IndexOf(tc, gc[i]) := None], marks[i := Yellow];
      YellowTaken(guess, target, tc, marks, i);
    } else {
      tc', marks' := tc, marks;
      YellowSkipped(guess, target, tc, marks, i);
    }
  }

  lemma {:induction false} YellowPassFollowsReference(guess: string, target: string, tc: seq<Option<char>>, marks: string, i: nat)
    requires |guess| <= |target|
    requires PassInvariant(guess, target, tc, marks, i)
    ensures Coloured(guess, target, YellowPass(GuessLeft(guess, target), tc, marks, i))
    decreases |guess| - i
  {
    var gc := GuessLeft(guess, target);
    if i < |guess| {
      var tc', marks' := YellowStep(guess, target, tc, marks, i);
      YellowPassFollowsReference(guess, target, tc', marks', i + 1);
      assert YellowPass(gc, tc, marks, i) == YellowPass(gc, tc', marks', i + 1);
    } else {
      assert YellowPass(gc, tc, marks, i) == marks;
      assert Coloured(guess, target, marks);
    }
  }

  /** Guessing the target itself colours every position green. */
  lemma AllGreenOnSelf(w: string)
    ensures GetAnswer(w, w) == seq(|w|, _ => Green)
  {
  }

  /** A letter that does not occur in the target is grey wherever it is guessed. */
  lemma AbsentLetterGrey(guess: string, target: string, i: nat)
    requires |guess| <= |target| && i < |guess|
    requires guess[i] !in target
    ensures GetAnswer(guess, target)[i] == Grey
  {
    var tc := TargetLeft(guess, target);
    forall k | 0 <= k < |tc|
      ensures tc[k] != Some(guess[i])
    {
      assert target[k] in target;
    }
    assert Some(guess[i]) !in tc;
    assert Unmatched(guess, target, guess[i]) == 0;
  }

  /**
   * Yellows for a repeated letter go to its leftmost non-green copies: once a
   * non-green copy is grey, no later non-green copy is yellow.
   */
  lemma LeftmostYellow(guess: string, target: string, i: nat, j: nat)
    requires |guess| <= |target| && i < j < |guess|
    requires guess[i] == guess[j]
    requires guess[i] != target[i] && guess[j] != target[j]
    requires GetAnswer(guess, target)[i] == Grey
    ensures GetAnswer(guess, target)[j] == Grey
  {
    var r := GetAnswer(guess, target);
    assert r[i] == Expected(guess, target, i);
    MissedGrows(guess, target, guess[i], i, j);
    assert r[j] == Expected(guess, target, j);
  }

  /** A non-green copy of `c` at `i` is counted by `Missed` at every later prefix. */
  lemma {:induction false} MissedGrows(guess: string, target: string, c: char, i: nat, j: nat)
    requires |guess| <= |target| && i < j <= |guess|
    requires guess[i] == c && guess[i] != target[i]
    ensures Missed(guess, target, c, j) >= Missed(guess, target, c, i) + 1
    decreases j
  {
    MissedStep(guess, target, c, j - 1);
    if j > i + 1 {
      MissedGrows(guess, target, c, i, j - 1);
    }
  }

  /** Number of positions holding `c` whose mark is green or yellow. */
  function Credited(guess: string, marks: string, c: char): nat
    requires |guess| == |marks|
  {
    if |guess| == 0 then 0
    else
      var n := |guess| - 1;
      Credited(guess[..n], marks[..n], c) + (if guess[n] == c && marks[n] != Grey then 1 else 0)
  }

  function Min(a: int, b: int): int
  {
    if a <= b then a else b
  }

  /**
   * Over the first `n` positions, the credited copies of `c` are its green
   * copies plus as many non-green copies as unconsumed target copies allow.
   */
  lemma {:induction false} CreditedPrefix(guess: string, target: string, r: string, c: char, n: nat)
    requires |guess| <= |target| && n <= |guess| && |r| == |guess|
    requires forall k :: 0 <= k < |guess| ==> r[k] == Expected(guess, target, k)
    ensures Credited(guess[..n], r[..n], c)
      == multiset(guess[..n])[c] - Missed(guess, target, c, n) + Min(Missed(guess, target, c, n), Unmatched(guess, target, c))
  {
    if n == 0 {
      assert guess[..0] == [];
      assert GuessLeft(guess, target)[..0] == [];
    } else {
      CreditedPrefix(guess, target, r, c, n - 1);
      var m := Missed(guess, target, c, n - 1);
      var u := Unmatched(guess, target, c);
      var before := Credited(guess[..n - 1], r[..n - 1], c);
      var cnt := multiset(guess[..n - 1])[c];
      assert before == cnt - m + Min(m, u);
      MissedStep(guess, target, c, n - 1);
      PrefixSnoc(guess, r, c, n);
      CreditedMark(guess, target, r[n - 1], n - 1);
      if guess[n - 1] != c {
        assert Credited(guess[..n], r[..n], c) == before;
        assert multiset(guess[..n])[c] == cnt && Missed(guess, target, c, n) == m;
      } else if guess[n - 1] == target[n - 1] {
        assert Credited(guess[..n], r[..n], c) == before + 1;
        assert multiset(guess[..n])[c] == cnt + 1 && Missed(guess, target, c, n) == m;
      } else {
        assert Credited(guess[..n], r[..n], c) == before + (if m < u then 1 else 0);
        assert multiset(guess[..n])[c] == cnt + 1 && Missed(guess, target, c, n) == m + 1;
      }
    }
  }

  /** Extending a prefix by one position adds that position to both counts. */
  lemma PrefixSnoc(guess: string, r: string, c: char, n: nat)
    requires 0 < n <= |guess| == |r|
    ensures Credited(guess[..n], r[..n], c)
      == Credited(guess[..n - 1], r[..n - 1], c) + (if guess[n - 1] == c && r[n - 1] != Grey then 1 else 0)
    ensures multiset(guess[..n])[c] == multiset(guess[..n - 1])[c] + (if guess[n - 1] == c then 1 else 0)
  {
    assert guess[..n][..n - 1] == guess[..n - 1];
    assert r[..n][..n - 1] == r[..n - 1];
    assert guess[..n] == guess[..n - 1] + [guess[n - 1]];
  }

  /** A position is credited exactly when it is green, or non-green within the unconsumed supply. */
  lemma CreditedMark(guess: string, target: string, mark: char, i: nat)
    requires |guess| <= |target| && i < |guess|
    requires mark == Expected(guess, target, i)
    ensures mark != Grey <==>
      guess[i] == target[i] || Missed(guess, target, guess[i], i) < Unmatched(guess, target, guess[i])
  {
  }

  /**
   * Green copies of `c` balance the counts: the guess's copies less its
   * non-green ones equal the target's copies less its unconsumed ones.
   */
  lemma {:induction false} GreenBalance(guess: string, target: string, c: char, n: nat)
    requires |guess| <= |target| && n <= |guess|
    ensures multiset(guess[..n])[c] + multiset(TargetLeft(guess, target)[..n])[Some(c)]
      == multiset(target[..n])[c] + Missed(guess, target, c, n)
  {
    var tc := TargetLeft(guess, target);
    if n == 0 {
      assert guess[..0] == [] && target[..0] == [] && tc[..0] == [];
      assert GuessLeft(guess, target)[..0] == [];
    } else {
      GreenBalance(guess, target, c, n - 1);
      MissedStep(guess, target, c, n - 1);
      SnocCount(guess, c, n);
      SnocCount(target, c, n);
      UnconsumedStep(guess, target, c, n - 1);
    }
  }

  lemma UnconsumedStep(guess: string, target: string, c: char, i: nat)
    requires |guess| <= |target| && i < |guess|
    ensures var tc := TargetLeft(guess, target);
      multiset(tc[..i + 1])[Some(c)]
      == multiset(tc[..i])[Some(c)] + (if guess[i] != target[i] && target[i] == c then 1 else 0)
  {
    var tc := TargetLeft(guess, target);
    assert tc[..i + 1] == tc[..i] + [tc[i]];
  }

  lemma SnocCount(s: string, c: char, n: nat)
    requires 0 < n <= |s|
    ensures multiset(s[..n])[c] == multiset(s[..n - 1])[c] + (if s[n - 1] == c then 1 else 0)
  {
    assert s[..n] == s[..n - 1] + [s[n - 1]];
  }


  /** Wrapping every letter of `s` in `Some` keeps each letter's count. */
  lemma {:induction false} SomeCount(xs: seq<Option<char>>, s: string, c: char)
    requires |xs| == |s| && forall k :: 0 <= k < |s| ==> xs[k] == Some(s[k])
    ensures multiset(xs)[Some(c)] == multiset(s)[c]
  {
    if |s| > 0 {
      SomeCount(xs[1..], s[1..], c);
      assert xs == [xs[0]] + xs[1..];
      assert s == [s[0]] + s[1..];
      assert multiset(xs)[Some(c)] == (if xs[0] == Some(c) then 1 else 0) + multiset(xs[1..])[Some(c)];
      assert multiset(s)[c] == (if s[0] == c then 1 else 0) + multiset(s[1..])[c];
    }
  }

  /**
   * For every letter, the positions holding it that are marked green or
   * yellow number exactly the smaller of its counts in guess and target.
   */
  lemma LetterCredit(guess: string, target: string, c: char)
    requires |guess| <= |target|
    ensures Credited(guess, GetAnswer(guess, target), c)
      == Min(multiset(guess)[c], multiset(target)[c])
  {
    ReferenceCredit(guess, target, GetAnswer(guess, target), c);
  }

  lemma ReferenceCredit(guess: string, target: string, r: string, c: char)
    requires |guess| <= |target| && |r| == |guess|
    requires forall k :: 0 <= k < |guess| ==> r[k] == Expected(guess, target, k)
    ensures Credited(guess, r, c) == Min(multiset(guess)[c], multiset(target)[c])
  {
    var n := |guess|;
    CreditedPrefix(guess, target, r, c, n);
    assert guess[..n] == guess && r[..n] == r;
    GreenBalance(guess, target, c, n);
    UnmatchedSplit(guess, target, c);
  }

  /** Unconsumed target copies: those in the guessed prefix plus every copy past it. */
  lemma UnmatchedSplit(guess: string, target: string, c: char)
    requires |guess| <= |target|
    ensures var n := |guess|;
      Unmatched(guess, target, c) == multiset(TargetLeft(guess, target)[..n])[Some(c)] + multiset(target[n..])[c]
    ensures multiset(target)[c] == multiset(target[..|guess|])[c] + multiset(target[|guess|..])[c]
  {
    var n := |guess|;
    var tc := TargetLeft(guess, target);
    SomeCount(tc[n..], target[n..], c);
    assert tc == tc[..n] + tc[n..];
    assert target == target[..n] + target[n..];
  }
}
