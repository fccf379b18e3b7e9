/** `parseScoresImproved` (scoolize/src/components/Student/ScoreOCR.tsx): from the OCR text
    of a bulletin to at most one score per subject.

    The specification is a fold over "events": event `t` is the test of subject
    `SubjectTable[t % 4]` on line `t / 4`, in the order the nested loops perform them.
    `ParseScoresImproved` is the loop program itself and is proved equal to that fold;
    `ParseSpec` then states, in terms of lines and subjects only, what the fold returns,
    and the contract of `ParseScores` what that means for every result on any text. */
module ScoreParser {
  import opened Text
  import opened Seqs
  import opened Wrappers
  import opened Subjects
  import opened ScorePatterns

  /** One entry of the parser's result. */
  datatype ExtractedScore = ExtractedScore(subject: Subject, score: real, confidence: real)

  /** The confidence every extracted score is given. */
  const Confidence: real := 0.85

  /** How many lines below the keyword line the score may be found. */
  const MaxOffset: nat := 2

  /** Every piece trimmed. */
  function TrimAll(pieces: seq<string>): (r: seq<string>)
    ensures |r| == |pieces|
    ensures forall k :: 0 <= k < |r| ==> r[k] == Trim(pieces[k])
  {
    if |pieces| == 0 then [] else [Trim(pieces[0])] + TrimAll(pieces[1..])
  }

  /** The line is not empty. */
  function NonEmpty(l: string): bool {
    |l| > 0
  }

  /** The pieces trimmed, without the ones left empty. */
  function Segment(pieces: seq<string>): seq<string> {
    Filter(NonEmpty, TrimAll(pieces))
  }

  /** The segmented lines: the text split at line feeds, each piece trimmed, the empty ones
      dropped; never more lines than pieces, and none of them empty. */
  function Lines(text: string): (r: seq<string>)
    ensures |r| <= |SplitLines(text)|
    ensures forall k :: 0 <= k < |r| ==> |r[k]| > 0
  {
    Segment(SplitLines(text))
  }

  /** The segmented pieces keep their order, are non-empty trimmed pieces, and every piece
      that is not blank is kept, as many times as it occurs among the trimmed pieces. */
  lemma SegmentSpec(pieces: seq<string>)
    ensures IsSubsequence(Segment(pieces), TrimAll(pieces))
    ensures forall k :: 0 <= k < |Segment(pieces)| ==> Segment(pieces)[k] in TrimAll(pieces) && Segment(pieces)[k] != []
    ensures forall j :: 0 <= j < |pieces| && Trim(pieces[j]) != [] ==> Trim(pieces[j]) in Segment(pieces)
    ensures forall x :: x != [] ==> multiset(Segment(pieces))[x] == multiset(TrimAll(pieces))[x]
    ensures multiset(Segment(pieces))[[]] == 0
  {
    var trimmed := TrimAll(pieces);
    FilterIsSubsequence(NonEmpty, trimmed);
    SegmentCounts(pieces);
    forall j | 0 <= j < |pieces| && Trim(pieces[j]) != []
      ensures Trim(pieces[j]) in Segment(pieces)
    {
      assert trimmed[j] == Trim(pieces[j]) && NonEmpty(trimmed[j]);
    }
  }

  /** Each non-empty trimmed piece occurs in the segment exactly as often as among the
      trimmed pieces; the empty piece not at all. */
  lemma SegmentCounts(pieces: seq<string>)
    ensures forall x :: x != [] ==> multiset(Segment(pieces))[x] == multiset(TrimAll(pieces))[x]
    ensures multiset(Segment(pieces))[[]] == 0
  {
    forall x: string
      ensures multiset(Segment(pieces))[x] == if x != [] then multiset(TrimAll(pieces))[x] else 0
    {
      FilterCount(NonEmpty, TrimAll(pieces), x);
    }
  }

  /** The lines contain no line feed, are not empty and neither start nor end with
      whitespace; they are the trimmed pieces between line feeds in their original order,
      and every piece that is not blank is among them as often as it occurs. */
  lemma LinesSpec(text: string)
    ensures IsSubsequence(Lines(text), TrimAll(SplitLines(text)))
    ensures forall k :: 0 <= k < |Lines(text)| ==>
              |Lines(text)[k]| > 0 && '\n' !in Lines(text)[k]
              && !IsSpace(Lines(text)[k][0]) && !IsSpace(Lines(text)[k][|Lines(text)[k]| - 1])
    ensures forall j :: 0 <= j < |SplitLines(text)| && Trim(SplitLines(text)[j]) != [] ==>
              Trim(SplitLines(text)[j]) in Lines(text)
    ensures forall x :: x != [] ==> multiset(Lines(text))[x] == multiset(TrimAll(SplitLines(text)))[x]
  {
    var pieces := SplitLines(text);
    var r := Lines(text);
    SegmentSpec(pieces);
    forall k | 0 <= k < |r|
      ensures |r[k]| > 0 && '\n' !in r[k] && !IsSpace(r[k][0]) && !IsSpace(r[k][|r[k]| - 1])
    {
      var j :| 0 <= j < |pieces| && TrimAll(pieces)[j] == r[k];
      TrimmedPieceClean(pieces[j]);
    }
  }

  /** A non-blank piece without line feeds trims to a line as `LinesSpec` describes it. */
  lemma TrimmedPieceClean(piece: string)
    requires '\n' !in piece && Trim(piece) != []
    ensures '\n' !in Trim(piece) && !IsSpace(Trim(piece)[0]) && !IsSpace(Trim(piece)[|Trim(piece)| - 1])
  {
    TrimKeepsCharacters(piece);
  }

  /** What the parser reads off one line: the subjects one of whose expressions passes
      on the lower-cased line, and the score the line carries. */
  datatype LineFacts = LineFacts(named: set<Subject>, score: Option<real>)

  function Analyze(line: string): LineFacts {
    var lower := Lower(line);
    var named := set s | s in SubjectTable && Mentions(lower, s);
    LineFacts(named, LineScore(line))
  }

  /** A line names a subject exactly when one of the subject's expressions passes the
      `test` on the lower-cased line, and its score is the score found on it. */
  lemma AnalyzeSpec(line: string, s: Subject)
    ensures s in Analyze(line).named <==> exists j :: 0 <= j < |Keywords(s)| && Occurs(Keywords(s)[j], Lower(line))
    ensures Analyze(line).score.Some? ==> 0.0 <= Analyze(line).score.value <= MaxScore
    ensures Analyze(line).score == ScoreFrom(line, 0)
  {
    var lower := Lower(line);
    assert SubjectTable[SubjectIndex(s)] == s;
    assert s in Analyze(line).named <==> Mentions(lower, s);
  }

  /** The facts of every line, in order. */
  function Facts(lines: seq<string>): (facts: seq<LineFacts>)
    ensures |facts| == |lines|
  {
    if |lines| == 0 then [] else [Analyze(lines[0])] + Facts(lines[1..])
  }

  lemma {:induction false} FactsAt(lines: seq<string>, k: nat)
    requires k < |lines|
    ensures Facts(lines)[k] == Analyze(lines[k])
  {
    if k > 0 {
      FactsAt(lines[1..], k - 1);
    }
  }

  /** Every line score is a bulletin score. */
  ghost predicate ScoresInRange(facts: seq<LineFacts>) {
    forall k :: 0 <= k < |facts| && facts[k].score.Some? ==> 0.0 <= facts[k].score.value <= MaxScore
  }

  lemma FactsInRange(lines: seq<string>)
    ensures ScoresInRange(Facts(lines))
  {
    forall k | 0 <= k < |lines| && Facts(lines)[k].score.Some?
      ensures 0.0 <= Facts(lines)[k].score.value <= MaxScore
    {
      FactsAt(lines, k);
      AnalyzeSpec(lines[k], Math);
    }
  }

  /** The score on line `i + d`, if that line exists and carries one. */
  function ScoreBelow(facts: seq<LineFacts>, i: nat, d: nat): Option<real> {
    if i + d < |facts| then facts[i + d].score else None
  }

  /** The score found by looking at lines `i + o`, `i + o + 1`, ..., `i + MaxOffset`:
      the first of those lines that exists and carries a score. */
  function WindowFrom(facts: seq<LineFacts>, i: nat, o: nat): Option<real>
    requires o <= MaxOffset + 1
    decreases MaxOffset + 1 - o
  {
    if o > MaxOffset then None
    else if ScoreBelow(facts, i, o).Some? then ScoreBelow(facts, i, o)
    else WindowFrom(facts, i, o + 1)
  }

  /** The window yields nothing exactly when none of its lines carries a score. */
  lemma {:induction false} WindowFromNone(facts: seq<LineFacts>, i: nat, o: nat)
    requires o <= MaxOffset + 1
    ensures WindowFrom(facts, i, o).None? <==> forall d: nat :: o <= d <= MaxOffset ==> ScoreBelow(facts, i, d).None?
    decreases MaxOffset + 1 - o
  {
    if o <= MaxOffset {
      WindowFromNone(facts, i, o + 1);
    }
  }

  /** Otherwise the smallest offset that carries a score wins. */
  lemma {:induction false} WindowFromFirst(facts: seq<LineFacts>, i: nat, o: nat)
    requires o <= MaxOffset + 1
    ensures WindowFrom(facts, i, o).Some? ==>
              exists d: nat :: o <= d <= MaxOffset && ScoreBelow(facts, i, d) == WindowFrom(facts, i, o)
                               && forall e: nat :: o <= e < d ==> ScoreBelow(facts, i, e).None?
    decreases MaxOffset + 1 - o
  {
    if o <= MaxOffset {
      if ScoreBelow(facts, i, o).Some? {
        assert o <= o <= MaxOffset && ScoreBelow(facts, i, o) == WindowFrom(facts, i, o);
      } else {
        WindowFromFirst(facts, i, o + 1);
      }
    }
  }

  /** The score for a keyword found on line `i`. */
  function WindowScore(facts: seq<LineFacts>, i: nat): Option<real> {
    WindowFrom(facts, i, 0)
  }

  /** Line `i` names subject `s` and some line of its window carries a score. */
  function Detection(facts: seq<LineFacts>, i: nat, s: Subject): Option<real>
    requires i < |facts|
  {
    if s in facts[i].named then WindowScore(facts, i) else None
  }

  /** Some entry already has subject `s` (the exists-check before the push). */
  predicate HasSubject(scores: seq<ExtractedScore>, s: Subject) {
    exists k :: 0 <= k < |scores| && scores[k].subject == s
  }

  /** The exists-check and the push. */
  function Record(scores: seq<ExtractedScore>, s: Subject, v: real): (r: seq<ExtractedScore>)
    ensures HasSubject(r, s)
    ensures HasSubject(scores, s) ==> r == scores
    ensures !HasSubject(scores, s) ==> r == scores + [ExtractedScore(s, v, Confidence)]
  {
    if HasSubject(scores, s) then scores
    else
      var r := scores + [ExtractedScore(s, v, Confidence)];
      assert r[|scores|].subject == s;
      r
  }

  /** The effect of a detection, if there is one. */
  function Apply(scores: seq<ExtractedScore>, s: Subject, d: Option<real>): seq<ExtractedScore> {
    match d
    case None => scores
    case Some(v) => Record(scores, s, v)
  }

  /** A second identical detection changes nothing: this is why the loops may go on
      after a score has been recorded without changing the result. */
  lemma ApplyIdempotent(scores: seq<ExtractedScore>, s: Subject, d: Option<real>)
    ensures Apply(Apply(scores, s, d), s, d) == Apply(scores, s, d)
  {
  }

  /** The subject tested by event `t`. */
  function EventSubject(t: nat): Subject {
    SubjectTable[t % 4]
  }

  lemma EventSubjectAt(i: nat, si: nat)
    requires si < 4
    ensures EventSubject(4 * i + si) == SubjectTable[si]
  {
    assert (4 * i + si) % 4 == si;
  }

  lemma EventSubjectIndex(t: nat)
    ensures SubjectIndex(EventSubject(t)) == t % 4
  {
  }

  /** What every event contributes, in event order: the detections of the four subjects
      on the first line, then on the second line, and so on. */
  function Detections(facts: seq<LineFacts>): (d: seq<Option<real>>)
    ensures |d| == 4 * |facts|
  {
    seq(4 * |facts|, t requires 0 <= t < 4 * |facts| => Detection(facts, t / 4, EventSubject(t)))
  }

  /** Event `4 * i + si` is the test of the `si`-th subject on line `i`. */
  lemma DetectionsAt(facts: seq<LineFacts>, i: nat, si: nat)
    requires i < |facts| && si < 4
    ensures EventSubject(4 * i + si) == SubjectTable[si]
    ensures Detections(facts)[4 * i + si] == Detection(facts, i, SubjectTable[si])
  {
    var t := 4 * i + si;
    assert t / 4 == i && t % 4 == si;
  }

  /** The result after the first `t` events. */
  function Collected(dets: seq<Option<real>>, t: nat): seq<ExtractedScore>
    requires t <= |dets|
  {
    if t == 0 then []
    else Apply(Collected(dets, t - 1), EventSubject(t - 1), dets[t - 1])
  }

  /** The earliest of the first `T` events that tests subject `s` and detects a score. */
  function FirstHit(dets: seq<Option<real>>, s: Subject, T: nat): (r: Option<nat>)
    requires T <= |dets|
    ensures r.Some? ==> r.value < T && EventSubject(r.value) == s && dets[r.value].Some?
    ensures forall t :: 0 <= t < T && EventSubject(t) == s && (r.None? || t < r.value) ==> dets[t].None?
  {
    if T == 0 then None
    else match FirstHit(dets, s, T - 1)
      case Some(t) => Some(t)
      case None => if EventSubject(T - 1) == s && dets[T - 1].Some? then Some(T - 1) else None
  }

  /** What the result after `T` events is: exactly the subjects with a hit, each with the
      score of its first hit and confidence 0.85, in the order of their first hits. */
  ghost predicate Describes(dets: seq<Option<real>>, T: nat, r: seq<ExtractedScore>)
    requires T <= |dets|
  {
    Members(dets, T, r) && Entries(dets, T, r) && InHitOrder(dets, T, r)
  }

  /** The subjects of `r` are those with a hit among the first `T` events. */
  ghost predicate Members(dets: seq<Option<real>>, T: nat, r: seq<ExtractedScore>)
    requires T <= |dets|
  {
    forall s :: HasSubject(r, s) <==> FirstHit(dets, s, T).Some?
  }

  /** Each entry carries the score of its subject's first hit and confidence 0.85. */
  ghost predicate Entries(dets: seq<Option<real>>, T: nat, r: seq<ExtractedScore>)
    requires T <= |dets|
  {
    forall k :: 0 <= k < |r| ==>
      FirstHit(dets, r[k].subject, T).Some? && dets[FirstHit(dets, r[k].subject, T).value] == Some(r[k].score)
      && r[k].confidence == Confidence
  }

  /** The entries come in the order of their first hits. */
  ghost predicate InHitOrder(dets: seq<Option<real>>, T: nat, r: seq<ExtractedScore>)
    requires T <= |dets|
  {
    forall j, k :: 0 <= j < k < |r| && FirstHit(dets, r[j].subject, T).Some? && FirstHit(dets, r[k].subject, T).Some? ==>
      FirstHit(dets, r[j].subject, T).value < FirstHit(dets, r[k].subject, T).value
  }

  /** An event that detects nothing, or detects a subject already recorded, changes
      neither the result nor any first hit. */
  lemma DescribesUnchanged(dets: seq<Option<real>>, T: nat, prev: seq<ExtractedScore>)
    requires 0 < T <= |dets| && Describes(dets, T - 1, prev)
    requires dets[T - 1].None? || HasSubject(prev, EventSubject(T - 1))
    ensures Describes(dets, T, prev)
  {
    forall x ensures FirstHit(dets, x, T) == FirstHit(dets, x, T - 1) {
      if x == EventSubject(T - 1) && dets[T - 1].Some? {
        assert FirstHit(dets, x, T - 1).Some?;
      }
    }
  }

  /** Appending an entry adds exactly its subject. */
  lemma HasSubjectAppend(prev: seq<ExtractedScore>, e: ExtractedScore, x: Subject)
    ensures HasSubject(prev + [e], x) <==> HasSubject(prev, x) || x == e.subject
  {
    var r := prev + [e];
    if HasSubject(prev, x) {
      var k :| 0 <= k < |prev| && prev[k].subject == x;
      assert r[k] == prev[k];
    }
    if x == e.subject {
      assert r[|prev|] == e;
    }
    if HasSubject(r, x) && x != e.subject {
      var k :| 0 <= k < |r| && r[k].subject == x;
      assert k < |prev| && prev[k] == r[k];
    }
  }

  /** Event `T - 1` is the first hit of its subject when that subject had none before;
      every other subject keeps its first hit. */
  lemma NewFirstHit(dets: seq<Option<real>>, T: nat)
    requires 0 < T <= |dets| && dets[T - 1].Some? && FirstHit(dets, EventSubject(T - 1), T - 1).None?
    ensures FirstHit(dets, EventSubject(T - 1), T) == Some(T - 1)
    ensures forall x :: x != EventSubject(T - 1) ==> FirstHit(dets, x, T) == FirstHit(dets, x, T - 1)
  {
  }

  /** The conditions under which event `T - 1` appends an entry to `prev`. */
  ghost predicate AppendsAt(dets: seq<Option<real>>, T: nat, prev: seq<ExtractedScore>)
  {
    0 < T <= |dets| && Describes(dets, T - 1, prev)
    && dets[T - 1].Some? && !HasSubject(prev, EventSubject(T - 1))
  }

  lemma AppendedMembers(dets: seq<Option<real>>, T: nat, prev: seq<ExtractedScore>, e: ExtractedScore)
    requires AppendsAt(dets, T, prev) && e == ExtractedScore(EventSubject(T - 1), dets[T - 1].value, Confidence)
    ensures Members(dets, T, prev + [e])
  {
    NewFirstHit(dets, T);
    forall x ensures HasSubject(prev + [e], x) <==> FirstHit(dets, x, T).Some? {
      HasSubjectAppend(prev, e, x);
    }
  }

  lemma AppendedEntries(dets: seq<Option<real>>, T: nat, prev: seq<ExtractedScore>, e: ExtractedScore)
    requires AppendsAt(dets, T, prev) && e == ExtractedScore(EventSubject(T - 1), dets[T - 1].value, Confidence)
    ensures Entries(dets, T, prev + [e])
  {
    NewFirstHit(dets, T);
    var r := prev + [e];
    forall k | 0 <= k < |r|
      ensures FirstHit(dets, r[k].subject, T).Some? && dets[FirstHit(dets, r[k].subject, T).value] == Some(r[k].score)
      ensures r[k].confidence == Confidence
    {
      if k < |prev| {
        assert r[k] == prev[k] && prev[k].subject != e.subject;
      } else {
        assert r[k] == e;
      }
    }
  }

  lemma AppendedInHitOrder(dets: seq<Option<real>>, T: nat, prev: seq<ExtractedScore>, e: ExtractedScore)
    requires AppendsAt(dets, T, prev) && e == ExtractedScore(EventSubject(T - 1), dets[T - 1].value, Confidence)
    ensures InHitOrder(dets, T, prev + [e])
  {
    NewFirstHit(dets, T);
    var r := prev + [e];
    forall j, k | 0 <= j < k < |r| && FirstHit(dets, r[j].subject, T).Some? && FirstHit(dets, r[k].subject, T).Some?
      ensures FirstHit(dets, r[j].subject, T).value < FirstHit(dets, r[k].subject, T).value
    {
      assert r[j] == prev[j] && prev[j].subject != e.subject;
      if k < |prev| {
        assert r[k] == prev[k] && prev[k].subject != e.subject;
      } else {
        assert r[k] == e;
      }
    }
  }

  /** A first detection of a subject not yet recorded appends it, and it becomes its
      first hit, later than every earlier one. */
  lemma DescribesAppended(dets: seq<Option<real>>, T: nat, prev: seq<ExtractedScore>)
    requires 0 < T <= |dets| && Describes(dets, T - 1, prev)
    requires dets[T - 1].Some? && !HasSubject(prev, EventSubject(T - 1))
    ensures Describes(dets, T, prev + [ExtractedScore(EventSubject(T - 1), dets[T - 1].value, Confidence)])
  {
    var e := ExtractedScore(EventSubject(T - 1), dets[T - 1].value, Confidence);
    assert AppendsAt(dets, T, prev);
    AppendedMembers(dets, T, prev, e);
    AppendedEntries(dets, T, prev, e);
    AppendedInHitOrder(dets, T, prev, e);
  }

  /** The result after every prefix of the events is described by their first hits. */
  lemma {:induction false} CollectedDescribes(dets: seq<Option<real>>, T: nat)
    requires T <= |dets|
    ensures Describes(dets, T, Collected(dets, T))
  {
    if T > 0 {
      CollectedDescribes(dets, T - 1);
      var prev := Collected(dets, T - 1);
      if dets[T - 1].None? || HasSubject(prev, EventSubject(T - 1)) {
        DescribesUnchanged(dets, T, prev);
      } else {
        DescribesAppended(dets, T, prev);
      }
    }
  }

  /** The result for given line facts. */
  function Parse(facts: seq<LineFacts>): seq<ExtractedScore> {
    Collected(Detections(facts), 4 * |facts|)
  }

  /** Line `i` is the first line on which subject `s` is detected. */
  ghost predicate FirstDetectedAt(facts: seq<LineFacts>, s: Subject, i: nat) {
    i < |facts| && Detection(facts, i, s).Some? && forall i' :: 0 <= i' < i ==> Detection(facts, i', s).None?
  }

  /** The first hit of a subject among all events is its first detection by line. */
  lemma FirstHitIsFirstLine(facts: seq<LineFacts>, s: Subject)
    ensures FirstHit(Detections(facts), s, 4 * |facts|).Some? ==>
              var t := FirstHit(Detections(facts), s, 4 * |facts|).value;
              t == 4 * (t / 4) + SubjectIndex(s) && FirstDetectedAt(facts, s, t / 4)
              && Detections(facts)[t] == Detection(facts, t / 4, s)
    ensures FirstHit(Detections(facts), s, 4 * |facts|).None? ==>
              forall i :: 0 <= i < |facts| ==> Detection(facts, i, s).None?
  {
    var dets := Detections(facts);
    var idx := SubjectIndex(s);
    match FirstHit(dets, s, 4 * |facts|)
    case Some(t) =>
      EventSubjectIndex(t);
      var i := t / 4;
      DetectionsAt(facts, i, idx);
      forall i' | 0 <= i' < i ensures Detection(facts, i', s).None? {
        DetectionsAt(facts, i', idx);
      }
    case None =>
      forall i | 0 <= i < |facts| ensures Detection(facts, i, s).None? {
        DetectionsAt(facts, i, idx);
      }
  }

  /** A first detection is unique. */
  lemma FirstDetectedUnique(facts: seq<LineFacts>, s: Subject, i: nat, i': nat)
    requires FirstDetectedAt(facts, s, i) && FirstDetectedAt(facts, s, i')
    ensures i == i'
  {
  }

  /** A subject detected on some line has a first line of detection. */
  lemma {:induction false} FirstLineExists(facts: seq<LineFacts>, s: Subject, i: nat)
    requires i < |facts| && Detection(facts, i, s).Some?
    ensures exists f: nat :: f <= i && FirstDetectedAt(facts, s, f)
  {
    if forall i' :: 0 <= i' < i ==> Detection(facts, i', s).None? {
      assert FirstDetectedAt(facts, s, i);
    } else {
      var i' :| 0 <= i' < i && Detection(facts, i', s).Some?;
      FirstLineExists(facts, s, i');
    }
  }

  /** Distinct subjects drawn from `allowed` number at most `|allowed|`. */
  lemma {:induction false} DistinctBound(r: seq<ExtractedScore>, allowed: set<Subject>)
    requires forall k :: 0 <= k < |r| ==> r[k].subject in allowed
    requires forall j, k :: 0 <= j < k < |r| ==> r[j].subject != r[k].subject
    ensures |r| <= |allowed|
  {
    if |r| > 0 {
      DistinctBound(r[1..], allowed - {r[0].subject});
    }
  }

  /** What `parseScoresImproved` returns, given what each segmented line names and carries:
      - every entry has confidence 0.85 and, when the line scores are bulletin scores,
        a score in [0, 20];
      - no subject appears twice, so there are at most four entries;
      - a subject is reported exactly when some line detects it;
      - its score is the one detected on the first such line (which exists and is unique
        by `FirstLineExists` and `FirstDetectedUnique`) (and, by `WindowFromFirst`,
        the one of the smallest offset within that line's window);
      - entries come in the order of their first detections, the table order breaking ties
        between subjects first detected on the same line. */
  lemma ParseSpec(facts: seq<LineFacts>)
    ensures forall k :: 0 <= k < |Parse(facts)| ==> Parse(facts)[k].confidence == Confidence
    ensures ScoresInRange(facts) ==>
              forall k :: 0 <= k < |Parse(facts)| ==> 0.0 <= Parse(facts)[k].score <= MaxScore
    ensures forall j, k :: 0 <= j < k < |Parse(facts)| ==> Parse(facts)[j].subject != Parse(facts)[k].subject
    ensures |Parse(facts)| <= 4
    ensures forall s :: HasSubject(Parse(facts), s) <==> exists i :: 0 <= i < |facts| && Detection(facts, i, s).Some?
    ensures forall k, i :: 0 <= k < |Parse(facts)| && FirstDetectedAt(facts, Parse(facts)[k].subject, i) ==>
              Detection(facts, i, Parse(facts)[k].subject) == Some(Parse(facts)[k].score)
    ensures forall j, k, ij, ik ::
              (0 <= j < k < |Parse(facts)|
               && FirstDetectedAt(facts, Parse(facts)[j].subject, ij) && FirstDetectedAt(facts, Parse(facts)[k].subject, ik)) ==>
              ij < ik || (ij == ik && SubjectIndex(Parse(facts)[j].subject) < SubjectIndex(Parse(facts)[k].subject))
  {
    var dets := Detections(facts);
    var T := 4 * |facts|;
    var r := Parse(facts);
    CollectedDescribes(dets, T);
    forall s ensures FirstHit(dets, s, T).Some? ==>
                       var t := FirstHit(dets, s, T).value;
                       t == 4 * (t / 4) + SubjectIndex(s) && FirstDetectedAt(facts, s, t / 4) && dets[t] == Detection(facts, t / 4, s)
             ensures FirstHit(dets, s, T).None? ==> forall i :: 0 <= i < |facts| ==> Detection(facts, i, s).None?
    {
      FirstHitIsFirstLine(facts, s);
    }
    forall k | 0 <= k < |r| && ScoresInRange(facts) ensures 0.0 <= r[k].score <= MaxScore {
      var t := FirstHit(dets, r[k].subject, T).value;
      var i := t / 4;
      assert Detection(facts, i, r[k].subject) == Some(r[k].score);
      WindowFromFirst(facts, i, 0);
    }
    forall j, k | 0 <= j < k < |r| ensures r[j].subject != r[k].subject {
    }
    DistinctBound(r, {Math, French, English, Science});
    forall s ensures HasSubject(r, s) <==> exists i :: 0 <= i < |facts| && Detection(facts, i, s).Some? {
      if HasSubject(r, s) {
        var t := FirstHit(dets, s, T).value;
        assert Detection(facts, t / 4, s).Some?;
      }
    }
    forall k, i | 0 <= k < |r| && FirstDetectedAt(facts, r[k].subject, i)
      ensures Detection(facts, i, r[k].subject) == Some(r[k].score)
    {
      var t := FirstHit(dets, r[k].subject, T).value;
      FirstDetectedUnique(facts, r[k].subject, i, t / 4);
    }
    forall j, k, ij, ik | 0 <= j < k < |r|
      && FirstDetectedAt(facts, r[j].subject, ij) && FirstDetectedAt(facts, r[k].subject, ik)
      ensures ij < ik || (ij == ik && SubjectIndex(r[j].subject) < SubjectIndex(r[k].subject))
    {
      var tj := FirstHit(dets, r[j].subject, T).value;
      var tk := FirstHit(dets, r[k].subject, T).value;
      FirstDetectedUnique(facts, r[j].subject, ij, tj / 4);
      FirstDetectedUnique(facts, r[k].subject, ik, tk / 4);
    }
  }

  /** Nothing is reported when no line names a subject. */
  lemma NothingNamedNothingReported(facts: seq<LineFacts>)
    requires forall i :: 0 <= i < |facts| ==> facts[i].named == {}
    ensures Parse(facts) == []
  {
    var r := Parse(facts);
    forall s ensures !HasSubject(r, s) {
      assert forall i :: 0 <= i < |facts| ==> Detection(facts, i, s).None?;
      FirstHitIsFirstLine(facts, s);
      CollectedDescribes(Detections(facts), 4 * |facts|);
    }
    if |r| > 0 {
      assert HasSubject(r, r[0].subject);
    }
  }

  /** The specification of `parseScoresImproved`. Every result on any text has subjects
      from the table, each at most once, so at most four entries, every score in [0, 20]
      and every confidence 0.85; `ParseSpec` says which entries they are. */
  function ParseScores(text: string): (r: seq<ExtractedScore>)
    ensures |r| <= 4
    ensures forall k :: 0 <= k < |r| ==> 0.0 <= r[k].score <= MaxScore && r[k].confidence == Confidence
    ensures forall j, k :: 0 <= j < k < |r| ==> r[j].subject != r[k].subject
  {
    var lines := Lines(text);
    FactsInRange(lines);
    ParseSpec(Facts(lines));
    Parse(Facts(lines))
  }

  /** The output is empty when no segmented line passes any subject expression. */
  lemma NoKeywordNoScores(text: string)
    requires forall i, s :: 0 <= i < |Lines(text)| ==> !Mentions(Lower(Lines(text)[i]), s)
    ensures ParseScores(text) == []
  {
    var lines := Lines(text);
    forall i | 0 <= i < |lines| ensures Facts(lines)[i].named == {} {
      FactsAt(lines, i);
    }
    NothingNamedNothingReported(Facts(lines));
  }

  /** The score expressions tried in order on `searchLine`, `break` at the first
      in-range number, and the exists-check before the push. */
  method MatchLine(searchLine: string, subject: Subject, scores: seq<ExtractedScore>)
    returns (result: seq<ExtractedScore>)
    ensures result == Apply(scores, subject, LineScore(searchLine))
  {
    result := scores;
    var j := 0;
    while j < |PatternOrder|
      invariant j <= |PatternOrder|
      invariant ScoreFrom(searchLine, j) == LineScore(searchLine)
      invariant result == scores
    {
      var m := Candidate(searchLine, PatternOrder[j]);
      if m.Some? {
        var score := m.value;
        if score >= 0.0 && score <= MaxScore {
          if !HasSubject(result, subject) {
            result := result + [ExtractedScore(subject, score, Confidence)];
          }
          return;
        }
      }
      j := j + 1;
    }
  }

  /** The loop over the offsets 0 to 2 below the keyword line: a line past the end is skipped with
      `continue`, and the scan goes on after a score is found (the `break` leaves only the
      loop over the score expressions). */
  method ScanWindow(lines: seq<string>, index: nat, subject: Subject, scores: seq<ExtractedScore>)
    returns (result: seq<ExtractedScore>)
    ensures result == Apply(scores, subject, WindowScore(Facts(lines), index))
  {
    ghost var facts := Facts(lines);
    result := scores;
    var offset := 0;
    while offset <= MaxOffset
      invariant offset <= MaxOffset + 1
      invariant Apply(result, subject, WindowFrom(facts, index, offset)) == Apply(scores, subject, WindowScore(facts, index))
    {
      if index + offset >= |lines| {
        offset := offset + 1;
        continue;
      }
      FactsAt(lines, index + offset);
      result := MatchLine(lines[index + offset], subject, result);
      offset := offset + 1;
    }
  }

  /** `dets` lists what every event of `lines` detects. The connection is only unfolded
      where a detection is computed, never in the loops that merely fold them. */
  ghost predicate EventsOf(lines: seq<string>, dets: seq<Option<real>>) {
    |dets| == 4 * |lines|
    && forall i: nat, si: nat {:trigger Detection(Facts(lines), i, SubjectTable[si])} ::
         i < |lines| && si < 4 ==> dets[4 * i + si] == Detection(Facts(lines), i, SubjectTable[si])
  }

  lemma DetectionsAreEvents(lines: seq<string>)
    ensures EventsOf(lines, Detections(Facts(lines)))
  {
    forall i: nat, si: nat | i < |lines| && si < 4
      ensures Detections(Facts(lines))[4 * i + si] == Detection(Facts(lines), i, SubjectTable[si])
    {
      DetectionsAt(Facts(lines), i, si);
    }
  }

  /** The loop over the expressions of subject `SubjectTable[si]` on line `index`: each
      expression that passes scans the window. */
  method ScanSubject(lines: seq<string>, index: nat, lower: string, si: nat, scores: seq<ExtractedScore>,
                     ghost dets: seq<Option<real>>)
    returns (result: seq<ExtractedScore>)
    requires index < |lines| && si < 4 && lower == Lower(lines[index]) && EventsOf(lines, dets)
    ensures result == Apply(scores, SubjectTable[si], dets[4 * index + si])
  {
    var subject := SubjectTable[si];
    result := scores;
    ghost var w := WindowScore(Facts(lines), index);
    var patterns := Keywords(subject);
    var pi := 0;
    while pi < |patterns|
      invariant pi <= |patterns|
      invariant result == Apply(scores, subject, if AnyKeyword(lower, patterns[..pi]) then w else None)
    {
      assert patterns[..pi + 1][..pi] == patterns[..pi];
      if Test(patterns[pi], lower) {
        ApplyIdempotent(scores, subject, w);
        result := ScanWindow(lines, index, subject, result);
      }
      pi := pi + 1;
    }
    assert patterns[..pi] == patterns;
    EventOfSubject(lines, index, si, dets);
  }

  /** Event `4 * index + si` detects the window's score exactly when the line mentions the
      subject. */
  lemma EventOfSubject(lines: seq<string>, index: nat, si: nat, dets: seq<Option<real>>)
    requires index < |lines| && si < 4 && EventsOf(lines, dets)
    ensures dets[4 * index + si]
            == if AnyKeyword(Lower(lines[index]), Keywords(SubjectTable[si])) then WindowScore(Facts(lines), index) else None
  {
    FactsAt(lines, index);
    assert SubjectTable[SubjectIndex(SubjectTable[si])] == SubjectTable[si];
    assert dets[4 * index + si] == Detection(Facts(lines), index, SubjectTable[si]);
  }

  /** The loop over the lines, with the loop over the subject table inside. */
  method ScanLines(lines: seq<string>, ghost dets: seq<Option<real>>) returns (scores: seq<ExtractedScore>)
    requires EventsOf(lines, dets)
    ensures scores == Collected(dets, |dets|)
  {
    scores := [];
    var index := 0;
    while index < |lines|
      invariant index <= |lines|
      invariant scores == Collected(dets, 4 * index)
    {
      var lower := Lower(lines[index]);
      var si := 0;
      while si < |SubjectTable|
        invariant si <= |SubjectTable|
        invariant scores == Collected(dets, 4 * index + si)
      {
        scores := ScanSubject(lines, index, lower, si, scores, dets);
        EventSubjectAt(index, si);
        si := si + 1;
      }
      index := index + 1;
    }
  }

  /** `parseScoresImproved`: segment the text, then scan it. */
  method ParseScoresImproved(text: string) returns (scores: seq<ExtractedScore>)
    ensures scores == ParseScores(text)
  {
    var lines := Lines(text);
    DetectionsAreEvents(lines);
    scores := ScanLines(lines, Detections(Facts(lines)));
  }
}
