/** The subject table of the bulletin parser (scoolize/src/components/Student/ScoreOCR.tsx,
    `subjectPatterns`): each subject with the regular expressions that recognise it on a
    lower-cased line of OCR text, and the `test` these expressions are put to. */
module Subjects {
  import opened Text

  /** The closed set of subjects the parser reports. */
  datatype Subject = Math | French | English | Science

  /** The subjects in the order of the table literal, which is the order in which
      `Object.entries` visits them. */
  const SubjectTable: seq<Subject> := [Math, French, English, Science]

  /** The subject key the parser writes into its results. */
  function SubjectName(s: Subject): (name: string)
    ensures name in ["math", "french", "english", "science"]
  {
    match s
    case Math => "math"
    case French => "french"
    case English => "english"
    case Science => "science"
  }

  /** Position of a subject in the table. */
  function SubjectIndex(s: Subject): (i: nat)
    ensures i < |SubjectTable| && SubjectTable[i] == s
  {
    match s
    case Math => 0
    case French => 1
    case English => 2
    case Science => 3
  }

  lemma SubjectNamesDistinct(s: Subject, t: Subject)
    ensures SubjectName(s) == SubjectName(t) <==> s == t
  {
  }

  /** One element of a regular expression without repetition: a literal character,
      a character class such as `[eé]`, or the assertion `\b`. */
  datatype Piece = Ch(c: char) | OneOf(cs: string) | WordBoundary

  /** A regular expression, written as the list of the plain sequences it stands for:
      an optional `s?` becomes two alternatives, with and without the letter. */
  datatype Keyword = Keyword(alternatives: seq<seq<Piece>>)

  /** The pieces matching the literal word `w`. */
  function Lit(w: string): (ps: seq<Piece>)
    ensures |ps| == |w|
    ensures forall k :: 0 <= k < |w| ==> ps[k] == Ch(w[k])
  {
    seq(|w|, k requires 0 <= k < |w| => Ch(w[k]))
  }

  /** The pieces match `s` starting at position `p`. */
  predicate PiecesMatch(s: string, p: nat, ps: seq<Piece>)
    decreases |ps|
  {
    if |ps| == 0 then true
    else match ps[0]
      case Ch(c) => p < |s| && s[p] == c && PiecesMatch(s, p + 1, ps[1..])
      case OneOf(cs) => p < |s| && s[p] in cs && PiecesMatch(s, p + 1, ps[1..])
      case WordBoundary => AtBoundary(s, p) && PiecesMatch(s, p, ps[1..])
  }

  /** What `RegExp.prototype.test` means for an unanchored expression: some
      alternative matches at some position of the string. */
  ghost predicate Occurs(kw: Keyword, s: string) {
    exists p, a :: 0 <= p <= |s| && 0 <= a < |kw.alternatives| && PiecesMatch(s, p, kw.alternatives[a])
  }

  /** Some alternative among `alts` matches at `p`. */
  function MatchesSomeAlternative(s: string, p: nat, alts: seq<seq<Piece>>): (r: bool)
    ensures r <==> exists a :: 0 <= a < |alts| && PiecesMatch(s, p, alts[a])
  {
    if |alts| == 0 then false
    else PiecesMatch(s, p, alts[0]) || MatchesSomeAlternative(s, p, alts[1..])
  }

  /** The scan of `test` from position `from` to the end of the string. */
  function TestFrom(kw: Keyword, s: string, from: nat): (r: bool)
    requires from <= |s|
    ensures r <==> exists p, a :: from <= p <= |s| && 0 <= a < |kw.alternatives| && PiecesMatch(s, p, kw.alternatives[a])
    decreases |s| - from
  {
    if MatchesSomeAlternative(s, from, kw.alternatives) then
      MatchAtWitness(kw, s, from);
      true
    else if from == |s| then false
    else
      var r := TestFrom(kw, s, from + 1);
      assert forall a :: 0 <= a < |kw.alternatives| ==> !PiecesMatch(s, from, kw.alternatives[a]);
      assert r ==> exists p, a :: from <= p <= |s| && 0 <= a < |kw.alternatives| && PiecesMatch(s, p, kw.alternatives[a]);
      assert (exists p, a :: from <= p <= |s| && 0 <= a < |kw.alternatives| && PiecesMatch(s, p, kw.alternatives[a])) ==> r;
      r
  }

  lemma MatchAtWitness(kw: Keyword, s: string, p: nat)
    requires p <= |s| && MatchesSomeAlternative(s, p, kw.alternatives)
    ensures exists q, a :: p <= q <= |s| && 0 <= a < |kw.alternatives| && PiecesMatch(s, q, kw.alternatives[a])
  {
    var a :| 0 <= a < |kw.alternatives| && PiecesMatch(s, p, kw.alternatives[a]);
    assert p <= p <= |s|;
  }

  /** `pattern.test(lower)`. */
  function Test(kw: Keyword, s: string): (r: bool)
    ensures r <==> Occurs(kw, s)
  {
    TestFrom(kw, s, 0)
  }

  /** The expressions of the table, per subject, in the table's order. Every subject has
      at least one, and no alternative is empty, so none passes on every line. */
  function Keywords(s: Subject): (r: seq<Keyword>)
    ensures |r| > 0
    ensures forall k, j :: 0 <= k < |r| && 0 <= j < |r[k].alternatives| ==> |r[k].alternatives[j]| > 0
  {
    match s
    case Math => [
      // "math", an e with or without acute accent, "matique", an optional s
      Keyword([Lit("math") + [OneOf("e\U{00E9}")] + Lit("matiques"), Lit("math") + [OneOf("e\U{00E9}")] + Lit("matique")]),
      // the word "math" or "maths"
      Keyword([[WordBoundary] + Lit("maths") + [WordBoundary], [WordBoundary] + Lit("math") + [WordBoundary]]),
      // "calcul" anywhere
      Keyword([Lit("calcul")])
    ]
    case French => [
      // "fran", a c with or without cedilla, "ais"
      Keyword([Lit("fran") + [OneOf("c\U{00E7}")] + Lit("ais")]),
      // "lettres" anywhere
      Keyword([Lit("lettres")]),
      // the word "fr"
      Keyword([[WordBoundary] + Lit("fr") + [WordBoundary]])
    ]
    case English => [
      // "anglais" anywhere
      Keyword([Lit("anglais")]),
      // the word "ang"
      Keyword([[WordBoundary] + Lit("ang") + [WordBoundary]]),
      // "english" anywhere
      Keyword([Lit("english")])
    ]
    case Science => [
      // "science", an optional s
      Keyword([Lit("sciences"), Lit("science")]),
      Keyword([Lit("physique")]),
      Keyword([Lit("chimie")]),
      Keyword([Lit("biologie")]),
      Keyword([Lit("svt")]),
      Keyword([Lit("pc")])
    ]
  }

  /** One of the expressions `kws` passes the test on `s`. */
  function AnyKeyword(s: string, kws: seq<Keyword>): (r: bool)
    ensures r <==> exists j :: 0 <= j < |kws| && Occurs(kws[j], s)
  {
    if |kws| == 0 then false
    else AnyKeyword(s, kws[..|kws| - 1]) || Test(kws[|kws| - 1], s)
  }

  /** The lower-cased line `lower` mentions subject `s`: one of its expressions passes. */
  function Mentions(lower: string, s: Subject): (r: bool)
    ensures r <==> exists j :: 0 <= j < |Keywords(s)| && Occurs(Keywords(s)[j], lower)
  {
    AnyKeyword(lower, Keywords(s))
  }
}
