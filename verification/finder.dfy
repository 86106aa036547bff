/**
 * The word finder of finder.py: the first answer whose letters agree with a
 * template (`*` for an unknown position), skipping a deny-list. The two
 * console prompts become string parameters and the answer list is passed in.
 */
module Finder {

  const Wildcard := '*'
  /** The template used when the known-letters prompt is left empty. */
  const AnyWord := "*****"
  const Comma := ','

  /**
   * The result of the search. `Crashed` is the `IndexError` raised when the
   * scan reaches a non-`*` template position past the answer's end before any
   * disagreeing position (`Scan` gives `OutOfRange`).
   */
  datatype Outcome = Found(word: string) | NoMatch | Crashed

  // ---------------------------------------------------------------- input

  predicate IsUpper(c: char)
  {
    'A' <= c <= 'Z'
  }

  /** ASCII lowercasing of one character. */
  function LowerChar(c: char): (r: char)
    ensures !IsUpper(r)
    ensures IsUpper(c) ==> r as int == c as int + 32
    ensures !IsUpper(c) ==> r == c
  {
    if IsUpper(c) then (c as int + 32) as char else c
  }

  function Lower(s: string): (r: string)
    ensures |r| == |s|
    ensures forall i :: 0 <= i < |s| ==> !IsUpper(r[i])
    ensures forall i :: 0 <= i < |s| && !IsUpper(s[i]) ==> r[i] == s[i]
    ensures forall i :: 0 <= i < |s| && IsUpper(s[i]) ==> r[i] as int == s[i] as int + 32
  {
    seq(|s|, i requires 0 <= i < |s| => LowerChar(s[i]))
  }

  /** Lowercasing a lowercased template changes nothing. */
  lemma LowerIdempotent(s: string)
    ensures Lower(Lower(s)) == Lower(s)
  {
  }

  /** Joins the pieces with `sep` between neighbours. */
  function Join(parts: seq<string>, sep: char): string
  {
    if |parts| == 0 then ""
    else if |parts| == 1 then parts[0]
    else parts[0] + [sep] + Join(parts[1..], sep)
  }

  /** Python's `str.split(sep)`: every piece, empty ones included, in order. */
  function Split(s: string, sep: char): (parts: seq<string>)
    ensures |parts| >= 1
    ensures forall k :: 0 <= k < |parts| ==> sep !in parts[k]
    ensures Join(parts, sep) == s
  {
    if |s| == 0 then [""]
    else
      var rest := Split(s[1..], sep);
      if s[0] == sep then
        [""] + rest
      else
        assert s == [s[0]] + s[1..];
        [[s[0]] + rest[0]] + rest[1..]
  }

  /** Splitting a join of separator-free pieces gives the pieces back. */
  lemma {:induction false} SplitJoin(parts: seq<string>, sep: char)
    requires |parts| >= 1
    requires forall k :: 0 <= k < |parts| ==> sep !in parts[k]
    ensures Split(Join(parts, sep), sep) == parts
  {
    // Induction on the pieces, then on the letters of the first piece.
    if |parts| == 1 {
      SplitFree(parts[0], sep);
    } else {
      SplitJoin(parts[1..], sep);
      SplitPrefix(parts[0], Join(parts[1..], sep), sep);
    }
  }

  /** A separator-free string splits into itself alone. */
  lemma {:induction false} SplitFree(s: string, sep: char)
    requires sep !in s
    ensures Split(s, sep) == [s]
  {
    if |s| > 0 {
      SplitFree(s[1..], sep);
    }
  }

  /** Splitting `p + sep + t`, with `p` separator-free, puts `p` first. */
  lemma {:induction false} SplitPrefix(p: string, t: string, sep: char)
    requires sep !in p
    ensures Split(p + [sep] + t, sep) == [p] + Split(t, sep)
  {
    var s := p + [sep] + t;
    if |p| == 0 {
      assert s[0] == sep && s[1..] == t;
    } else {
      assert s[0] == p[0] != sep;
      assert s[1..] == p[1..] + [sep] + t;
      SplitPrefix(p[1..], t, sep);
      var rest := Split(s[1..], sep);
      assert rest[0] == p[1..] && rest[1..] == Split(t, sep);
      assert [p[0]] + p[1..] == p;
    }
  }

  /** The deny-list prompt: empty gives no words, otherwise the raw comma split. */
  function ParseDenyList(input: string): (deny: seq<string>)
    ensures input == "" ==> deny == []
    ensures input != "" ==> |deny| >= 1 && Join(deny, Comma) == input
    ensures forall k :: 0 <= k < |deny| ==> Comma !in deny[k]
  {
    if input == "" then [] else Split(input, Comma)
  }

  /** The known-letters prompt: empty means any word, otherwise it is lowercased. */
  function ParseTemplate(input: string): (known: string)
    ensures input == "" ==> known == AnyWord
    ensures input != "" ==> |known| == |input| && forall i :: 0 <= i < |known| ==> !IsUpper(known[i])
    ensures input != "" ==> forall i :: 0 <= i < |input| ==>
      if IsUpper(input[i]) then known[i] as int == input[i] as int + 32 else known[i] == input[i]
  {
    if input == "" then AnyWord else Lower(input)
  }

  // ---------------------------------------------------------------- search

  /** Position `i` of the template is a wildcard or names the answer's letter there. */
  predicate Agrees(known: string, answer: string, i: nat)
    requires i < |known|
  {
    known[i] == Wildcard || (i < |answer| && known[i] == answer[i])
  }

  /** The answer fits the template at every position. */
  predicate Fits(known: string, answer: string)
  {
    forall i :: 0 <= i < |known| ==> Agrees(known, answer, i)
  }

  datatype Verdict = Match | Mismatch | OutOfRange

  /** `k` is the first position from `i` on where the template and the answer disagree. */
  predicate FirstMiss(known: string, answer: string, i: nat, k: int)
  {
    && i <= k < |known|
    && !Agrees(known, answer, k)
    && forall m :: i <= m < k ==> Agrees(known, answer, m)
  }

  /** Past an agreeing position `i`, the first miss from `i` is the first miss from `i + 1`. */
  lemma FirstMissShift(known: string, answer: string, i: nat, j: nat)
    requires i < |known| && Agrees(known, answer, i) && j == i + 1
    ensures forall k :: FirstMiss(known, answer, i, k) <==> FirstMiss(known, answer, j, k)
  {
  }

  /**
   * The template scan from position `i`: it stops at the first disagreeing
   * position, breaking when that position is inside the answer and raising
   * when it lies past the answer's end.
   */
  function Scan(known: string, answer: string, i: nat): (v: Verdict)
    requires i <= |known|
    ensures v == Match <==> forall k :: i <= k < |known| ==> Agrees(known, answer, k)
    ensures v == Mismatch <==> exists k :: FirstMiss(known, answer, i, k) && k < |answer|
    ensures v == OutOfRange <==> exists k :: FirstMiss(known, answer, i, k) && |answer| <= k
    ensures v == OutOfRange ==> forall k :: i <= k < |known| && k < |answer| ==> Agrees(known, answer, k)
    ensures |known| <= |answer| ==> v != OutOfRange
    decreases |known| - i
  {
    if i == |known| then Match
    else if Agrees(known, answer, i) then
      // a wildcard (`continue`) or the answer's letter
      FirstMissShift(known, answer, i, i + 1);
      Scan(known, answer, i + 1)
    else
      assert FirstMiss(known, answer, i, i);
      // `answer[i]` raises past the answer's end; otherwise the letter differs and the loop breaks
      if i >= |answer| then OutOfRange else Mismatch
  }

  /** The answer is passed over: denied, or failing the template. */
  predicate Skipped(answers: seq<string>, known: string, deny: seq<string>, k: nat)
    requires k < |answers|
  {
    known != AnyWord && (answers[k] in deny || Scan(known, answers[k], 0) == Mismatch)
  }

  /** `answers[k]` is reported: every earlier answer was skipped and this one is accepted. */
  predicate FoundAt(answers: seq<string>, known: string, deny: seq<string>, k: int)
  {
    && 0 <= k < |answers|
    && (known == AnyWord || (answers[k] !in deny && Fits(known, answers[k])))
    && forall j :: 0 <= j < k ==> Skipped(answers, known, deny, j)
  }

  /**
   * `answers[k]` is the first answer not skipped, and the scan of it reaches a
   * non-wildcard template position past its end before any disagreement.
   */
  predicate CrashesAt(answers: seq<string>, known: string, deny: seq<string>, k: int)
  {
    && 0 <= k < |answers|
    && known != AnyWord && answers[k] !in deny && Scan(known, answers[k], 0) == OutOfRange
    && forall j :: 0 <= j < k ==> Skipped(answers, known, deny, j)
  }

  /** After a skipped first answer, positions in the tail shift by one. */
  lemma SkippedHead(answers: seq<string>, known: string, deny: seq<string>)
    requires |answers| > 0 && Skipped(answers, known, deny, 0)
    ensures forall k :: FoundAt(answers[1..], known, deny, k) <==> FoundAt(answers, known, deny, k + 1)
    ensures forall k :: CrashesAt(answers[1..], known, deny, k) <==> CrashesAt(answers, known, deny, k + 1)
    ensures forall k :: 0 < k ==> (FoundAt(answers, known, deny, k) ==> FoundAt(answers[1..], known, deny, k - 1))
    ensures forall k :: 0 < k ==> (CrashesAt(answers, known, deny, k) ==> CrashesAt(answers[1..], known, deny, k - 1))
    ensures !FoundAt(answers, known, deny, 0) && !CrashesAt(answers, known, deny, 0)
    ensures (forall j :: 0 <= j < |answers| - 1 ==> Skipped(answers[1..], known, deny, j))
        <==> (forall j :: 0 <= j < |answers| ==> Skipped(answers, known, deny, j))
  {
    assert forall j :: 0 < j < |answers| ==>
      answers[1..][j - 1] == answers[j] && (Skipped(answers[1..], known, deny, j - 1) <==> Skipped(answers, known, deny, j));
  }

  /** When the first answer is not skipped, the search settles on it. */
  lemma KeptHead(answers: seq<string>, known: string, deny: seq<string>)
    requires |answers| > 0 && !Skipped(answers, known, deny, 0)
    ensures forall k :: FoundAt(answers, known, deny, k) ==> k == 0
    ensures forall k :: CrashesAt(answers, known, deny, k) ==> k == 0
    ensures known == AnyWord || Scan(known, answers[0], 0) == Match ==> FoundAt(answers, known, deny, 0)
    ensures known != AnyWord && Scan(known, answers[0], 0) == OutOfRange ==> CrashesAt(answers, known, deny, 0)
  {
  }

  /** The search loop over the answer list. */
  function FindFirst(answers: seq<string>, known: string, deny: seq<string>): (r: Outcome)
    ensures known == AnyWord ==> r == if |answers| == 0 then NoMatch else Found(answers[0])
    ensures r.Found? ==> exists k :: FoundAt(answers, known, deny, k) && answers[k] == r.word
    ensures r == NoMatch <==> forall j :: 0 <= j < |answers| ==> Skipped(answers, known, deny, j)
    ensures r == Crashed ==> exists k :: CrashesAt(answers, known, deny, k)
    ensures forall k :: FoundAt(answers, known, deny, k) ==> r == Found(answers[k])
    ensures forall k :: CrashesAt(answers, known, deny, k) ==> r == Crashed
  {
    if |answers| == 0 then NoMatch
    else if Skipped(answers, known, deny, 0) then
      // `continue` on a denied answer, or `break` out of the letter loop
      SkippedHead(answers, known, deny);
      FindFirst(answers[1..], known, deny)
    else
      KeptHead(answers, known, deny);
      if known == AnyWord then Found(answers[0])
      else
        match Scan(known, answers[0], 0)
        case Match => Found(answers[0])
        case OutOfRange => Crashed
  }

  /** The whole program: parse both prompts, then search. */
  function Run(answers: seq<string>, knownInput: string, denyInput: string): (r: Outcome)
    ensures knownInput == "" ==> r == if |answers| == 0 then NoMatch else Found(answers[0])
    ensures (forall k :: 0 <= k < |answers| ==> |knownInput| <= |answers[k]|) ==> r != Crashed
  {
    FindFirst(answers, ParseTemplate(knownInput), ParseDenyList(denyInput))
  }

  /** A short answer whose scan breaks before its end is passed over, not fatal. */
  lemma ShortMismatchSkipped()
    ensures Run(["xbq", "xbcd"], "XBCD", "") == Found("xbcd")
  {
    assert Lower("XBCD") == "xbcd";
    assert FirstMiss("xbcd", "xbq", 0, 2);
  }

  /** A short answer that agrees up to its end makes the scan index past it. */
  lemma ShortPrefixCrashes()
    ensures Run(["xb", "xbcd"], "xb*d", "") == Crashed
  {
    assert Lower("xb*d") == "xb*d";
    assert FirstMiss("xb*d", "xb", 0, 3);
  }
}
