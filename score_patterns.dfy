/** The four score expressions of the bulletin parser
    (scoolize/src/components/Student/ScoreOCR.tsx, `scorePatterns`), with the
    leftmost-match semantics of `String.prototype.match` for a non-global expression,
    and the in-range fallback from one expression to the next. */
module ScorePatterns {
  import opened Text
  import opened Wrappers

  /** The score expressions, in the order they are tried on a line. */
  datatype ScorePattern =
    | DecimalOver20   // one or two digits, '.' or ',', one or two digits, "/20" with optional spaces around '/'
    | DecimalAtEnd    // one or two digits, '.' or ',', one or two digits, then only whitespace to the end
    | IntegerOver20   // one or two digits, "/20" with optional spaces around '/'
    | BareInteger     // a number of one or two digits standing as a word of its own
  {
    /** The expression has the second group, the decimals. */
    predicate HasFraction() {
      this == DecimalOver20 || this == DecimalAtEnd
    }
  }

  const PatternOrder: seq<ScorePattern> := [DecimalOver20, DecimalAtEnd, IntegerOver20, BareInteger]

  /** The highest value a bulletin score may take. */
  const MaxScore: real := 20.0

  /** A match: its start and the lengths of groups 1 and 2 (0 when there is no group 2). */
  datatype Capture = Capture(start: nat, intLen: nat, fracLen: nat)

  /** The characters of `s` in `[i, j)` are all ASCII digits. */
  predicate AllDigits(s: string, i: nat, j: nat) {
    i <= j <= |s| && forall k :: i <= k < j ==> IsDigit(s[k])
  }

  /** The class `[.,]`: a point or, as on French bulletins, a comma. */
  predicate IsSeparator(c: char) {
    c == '.' || c == ','
  }

  /** Where a greedy `\s*` starting at `q` stops. */
  function SkipSpaces(s: string, q: nat): (r: nat)
    requires q <= |s|
    ensures q <= r <= |s|
    ensures forall k :: q <= k < r ==> IsSpace(s[k])
    ensures r < |s| ==> !IsSpace(s[r])
    decreases |s| - q
  {
    if q < |s| && IsSpace(s[q]) then SkipSpaces(s, q + 1) else q
  }

  /** `\s*` followed by a character that is not whitespace can end only where the
      greedy scan stops; so a greedy scan without backtracking decides `\s*\/` and `\s*20`. */
  lemma SpacesThenToken(s: string, q: nat, q1: nat)
    requires q <= q1 < |s| && !IsSpace(s[q1])
    ensures (forall k :: q <= k < q1 ==> IsSpace(s[k])) <==> SkipSpaces(s, q) == q1
  {
  }

  /** `\s*$` holds at `q` exactly when the greedy scan reaches the end. */
  lemma SpacesThenEnd(s: string, q: nat)
    requires q <= |s|
    ensures (forall k :: q <= k < |s| ==> IsSpace(s[k])) <==> SkipSpaces(s, q) == |s|
  {
  }

  /** `\s*\/\s*20` matches at `q`. */
  predicate SlashTwentyAt(s: string, q: nat)
    requires q <= |s|
  {
    var q1 := SkipSpaces(s, q);
    q1 < |s| && s[q1] == '/' &&
    var q2 := SkipSpaces(s, q1 + 1);
    q2 + 2 <= |s| && s[q2] == '2' && s[q2 + 1] == '0'
  }

  /** `\s*$` matches at `q` (no `m` flag: `$` is the end of the line). */
  predicate SpacesToEnd(s: string, q: nat)
    requires q <= |s|
  {
    SkipSpaces(s, q) == |s|
  }

  /** `(\d{1,2})[.,](\d{1,2})` matches at `p` with groups of lengths `a` and `b`. */
  predicate DecimalAt(s: string, p: nat, a: nat, b: nat) {
    1 <= a <= 2 && 1 <= b <= 2 && p + a + 1 + b <= |s|
    && AllDigits(s, p, p + a) && IsSeparator(s[p + a]) && AllDigits(s, p + a + 1, p + a + 1 + b)
  }

  /** `(\d{1,2})` matches at `p` with a group of length `a`. */
  predicate IntegerAt(s: string, p: nat, a: nat) {
    1 <= a <= 2 && AllDigits(s, p, p + a)
  }

  /** Expression `pat` matches `s` at position `p` with groups of lengths `a` and `b`. */
  predicate MatchesAt(pat: ScorePattern, s: string, p: nat, a: nat, b: nat) {
    match pat
    case DecimalOver20 => DecimalAt(s, p, a, b) && SlashTwentyAt(s, p + a + 1 + b)
    case DecimalAtEnd => DecimalAt(s, p, a, b) && SpacesToEnd(s, p + a + 1 + b)
    case IntegerOver20 => b == 0 && IntegerAt(s, p, a) && SlashTwentyAt(s, p + a)
    case BareInteger => b == 0 && IntegerAt(s, p, a) && AtBoundary(s, p) && AtBoundary(s, p + a)
  }

  /** At one position the groups can match in one way only: a greedy `\d{1,2}` that
      backtracks to one digit would leave a digit where the expression needs a separator,
      whitespace, '/', the end of the line or a word boundary. */
  lemma CaptureUnique(pat: ScorePattern, s: string, p: nat, a: nat, b: nat, a': nat, b': nat)
    requires MatchesAt(pat, s, p, a, b) && MatchesAt(pat, s, p, a', b')
    ensures a == a' && b == b'
  {
  }

  /** Group lengths in the order the backtracking matcher tries them: `\d{1,2}` is
      greedy, so two digits come before one. */
  function Attempts(pat: ScorePattern): seq<(nat, nat)> {
    if pat.HasFraction() then [(2, 2), (2, 1), (1, 2), (1, 1)] else [(2, 0), (1, 0)]
  }

  /** Every way the expression can match is among the attempts. */
  lemma AttemptsComplete(pat: ScorePattern, s: string, p: nat, a: nat, b: nat)
    requires MatchesAt(pat, s, p, a, b)
    ensures (a, b) in Attempts(pat)
  {
  }

  /** The first of `attempts` with which `pat` matches at `p`. */
  function FirstAttempt(pat: ScorePattern, s: string, p: nat, attempts: seq<(nat, nat)>): (r: Option<Capture>)
    ensures r.Some? ==> r.value.start == p && (r.value.intLen, r.value.fracLen) in attempts
    ensures r.Some? ==> MatchesAt(pat, s, p, r.value.intLen, r.value.fracLen)
    ensures r.None? ==> forall k :: 0 <= k < |attempts| ==> !MatchesAt(pat, s, p, attempts[k].0, attempts[k].1)
  {
    if |attempts| == 0 then None
    else if MatchesAt(pat, s, p, attempts[0].0, attempts[0].1) then Some(Capture(p, attempts[0].0, attempts[0].1))
    else FirstAttempt(pat, s, p, attempts[1..])
  }

  /** The matcher at one position: a match exactly when the expression matches there. */
  function TryAt(pat: ScorePattern, s: string, p: nat): (r: Option<Capture>)
    ensures r.Some? ==> r.value.start == p && MatchesAt(pat, s, p, r.value.intLen, r.value.fracLen)
    ensures r.None? ==> forall a: nat, b: nat :: !MatchesAt(pat, s, p, a, b)
  {
    var r := FirstAttempt(pat, s, p, Attempts(pat));
    if r.None? then NoAttemptNoMatch(pat, s, p); r else r
  }

  lemma NoAttemptNoMatch(pat: ScorePattern, s: string, p: nat)
    requires FirstAttempt(pat, s, p, Attempts(pat)).None?
    ensures forall a: nat, b: nat :: !MatchesAt(pat, s, p, a, b)
  {
    forall a: nat, b: nat | MatchesAt(pat, s, p, a, b) ensures false {
      AttemptsComplete(pat, s, p, a, b);
    }
  }

  /** `s.match(pat)` scanning from position `from`: the leftmost match. */
  function Find(pat: ScorePattern, s: string, from: nat): (r: Option<Capture>)
    requires from <= |s|
    ensures r.Some? ==> from <= r.value.start && MatchesAt(pat, s, r.value.start, r.value.intLen, r.value.fracLen)
    ensures r.Some? ==> forall q: nat, a: nat, b: nat :: from <= q < r.value.start ==> !MatchesAt(pat, s, q, a, b)
    ensures r.None? ==> forall q: nat, a: nat, b: nat :: from <= q ==> !MatchesAt(pat, s, q, a, b)
    decreases |s| - from
  {
    match TryAt(pat, s, from)
    case Some(c) => Some(c)
    case None =>
      if from == |s| then
        None
      else Find(pat, s, from + 1)
  }

  /** The leftmost match anywhere in the line. */
  function Leftmost(pat: ScorePattern, s: string): (r: Option<Capture>)
    ensures r.Some? ==> MatchesAt(pat, s, r.value.start, r.value.intLen, r.value.fracLen)
    ensures r.Some? ==> forall q: nat, a: nat, b: nat :: q < r.value.start ==> !MatchesAt(pat, s, q, a, b)
    ensures r.None? ==> forall q: nat, a: nat, b: nat :: !MatchesAt(pat, s, q, a, b)
  {
    Find(pat, s, 0)
  }

  function Pow10(n: nat): (r: nat)
    ensures r >= 1
  {
    if n == 0 then 1 else 10 * Pow10(n - 1)
  }

  /** The value of one ASCII digit. */
  function DigitValue(c: char): (v: nat)
    requires IsDigit(c)
    ensures v <= 9
  {
    c as int - '0' as int
  }

  /** The value of a decimal digit string, as `parseFloat` reads it (leading zeros allowed). */
  function DigitsValue(ds: string): (v: nat)
    requires forall k :: 0 <= k < |ds| ==> IsDigit(ds[k])
    ensures v < Pow10(|ds|)
  {
    if |ds| == 0 then 0 else DigitsValue(ds[..|ds| - 1]) * 10 + DigitValue(ds[|ds| - 1])
  }

  /** The groups of `c` lie inside `s` and hold digits. */
  predicate WellFormed(s: string, c: Capture) {
    AllDigits(s, c.start, c.start + c.intLen)
    && (c.fracLen > 0 ==> AllDigits(s, c.start + c.intLen + 1, c.start + c.intLen + 1 + c.fracLen))
  }

  /** The score a match stands for: group 1, a point and group 2 read as a decimal number
      when group 2 matched, group 1 alone otherwise; that is, the integer part plus the
      decimals over a power of ten. */
  function CaptureValue(s: string, c: Capture): (v: real)
    requires WellFormed(s, c)
    ensures 0.0 <= v < Pow10(c.intLen) as real
    ensures c.fracLen == 0 ==> v == DigitsValue(s[c.start..c.start + c.intLen]) as real
    ensures c.fracLen > 0 ==> v.Floor == DigitsValue(s[c.start..c.start + c.intLen])
  {
    var whole := DigitsValue(s[c.start..c.start + c.intLen]);
    if c.fracLen == 0 then whole as real
    else
      var fstart := c.start + c.intLen + 1;
      var frac := DigitsValue(s[fstart..fstart + c.fracLen]);
      var scale := Pow10(c.fracLen);
      FractionBelowOne(frac, scale);
      whole as real + frac as real / scale as real
  }

  lemma FractionBelowOne(x: nat, y: nat)
    requires x < y
    ensures 0.0 <= x as real / y as real < 1.0
  {
  }

  /** Every match of a score expression is well formed. */
  lemma MatchWellFormed(pat: ScorePattern, s: string, p: nat, a: nat, b: nat)
    requires MatchesAt(pat, s, p, a, b)
    ensures WellFormed(s, Capture(p, a, b))
  {
  }

  /** The number `searchLine.match(pat)` yields, if the expression matches at all. */
  function Candidate(s: string, pat: ScorePattern): Option<real> {
    match Leftmost(pat, s)
    case None => None
    case Some(c) =>
      MatchWellFormed(pat, s, c.start, c.intLen, c.fracLen);
      Some(CaptureValue(s, c))
  }

  /** There is a number exactly when the expression matches somewhere on the line,
      and it is the value of the leftmost match. */
  lemma CandidateIsLeftmost(s: string, pat: ScorePattern)
    ensures Candidate(s, pat).Some? <==> exists q: nat, a: nat, b: nat :: MatchesAt(pat, s, q, a, b)
    ensures Candidate(s, pat).Some? ==> exists q: nat, a: nat, b: nat ::
              MatchesAt(pat, s, q, a, b) && Candidate(s, pat) == Some(CaptureValue(s, Capture(q, a, b)))
              && forall q': nat, a': nat, b': nat :: q' < q ==> !MatchesAt(pat, s, q', a', b')
  {
    match Leftmost(pat, s)
    case None =>
    case Some(c) =>
      MatchWellFormed(pat, s, c.start, c.intLen, c.fracLen);
      assert MatchesAt(pat, s, c.start, c.intLen, c.fracLen);
  }

  /** The bulletin range test `score >= 0 && score <= 20`. */
  predicate InRange(v: Option<real>) {
    v.Some? && 0.0 <= v.value <= MaxScore
  }

  /** Trying the expressions from the `j`-th on; an out-of-range number falls through
      to the next expression and the first in-range number is taken. */
  function ScoreFrom(s: string, j: nat): (r: Option<real>)
    requires j <= |PatternOrder|
    ensures r.Some? ==> 0.0 <= r.value <= MaxScore
    decreases |PatternOrder| - j
  {
    if j == |PatternOrder| then None
    else
      var c := Candidate(s, PatternOrder[j]);
      if InRange(c) then c else ScoreFrom(s, j + 1)
  }

  /** There is no score exactly when no expression yields an in-range number. */
  lemma {:induction false} ScoreFromNone(s: string, j: nat)
    requires j <= |PatternOrder|
    ensures ScoreFrom(s, j).None? <==> forall k: nat :: j <= k < |PatternOrder| ==> !InRange(Candidate(s, PatternOrder[k]))
    decreases |PatternOrder| - j
  {
    if j < |PatternOrder| {
      ScoreFromNone(s, j + 1);
    }
  }

  /** The expressions are tried in priority order: a score is the number of the first
      expression whose number is in range, every earlier one having yielded nothing or
      a number out of range. */
  lemma {:induction false} ScoreFromFirst(s: string, j: nat)
    requires j <= |PatternOrder|
    ensures ScoreFrom(s, j).Some? ==>
              exists k: nat :: j <= k < |PatternOrder| && Candidate(s, PatternOrder[k]) == ScoreFrom(s, j)
                               && forall i: nat :: j <= i < k ==> !InRange(Candidate(s, PatternOrder[i]))
    decreases |PatternOrder| - j
  {
    if j < |PatternOrder| {
      if InRange(Candidate(s, PatternOrder[j])) {
        assert j <= j < |PatternOrder| && Candidate(s, PatternOrder[j]) == ScoreFrom(s, j);
      } else {
        ScoreFromFirst(s, j + 1);
      }
    }
  }

  /** The score found on one line, if any. */
  function LineScore(s: string): (r: Option<real>)
    ensures r.Some? ==> 0.0 <= r.value <= MaxScore
  {
    ScoreFrom(s, 0)
  }
}
