/** The matching results of a student (scoolize/src/components/Student/MatchingResults.tsx):
    the programmes are split into an eligible and an ineligible list, and each is shown as
    a card with a capped percentage, the unmet requirements and an "apply" action. */
module Matching {
  import opened Wrappers
  import opened Seqs

  /** An unmet requirement; either figure may be absent. */
  datatype MissingRequirement = MissingRequirement(criterion: string, required: Option<real>, obtained: Option<real>)

  /** A `student_program_matches` row, with the fields the page reads. */
  datatype ProgramMatch = ProgramMatch(programId: string, programName: string, schoolName: string, location: string,
                                       matchScore: real, isEligible: bool, missingRequirements: seq<MissingRequirement>)

  // ---- The two lists

  /** The eligible rows; `SplitSpec` says they are all of them, in order. */
  function EligiblePrograms(programs: seq<ProgramMatch>): (r: seq<ProgramMatch>)
    ensures |r| <= |programs|
    ensures forall k :: 0 <= k < |r| ==> r[k] in programs && r[k].isEligible
  {
    Filter((p: ProgramMatch) => p.isEligible, programs)
  }

  /** The ineligible rows; `SplitSpec` says they are all of them, in order. */
  function IneligiblePrograms(programs: seq<ProgramMatch>): (r: seq<ProgramMatch>)
    ensures |r| <= |programs|
    ensures forall k :: 0 <= k < |r| ==> r[k] in programs && !r[k].isEligible
  {
    Filter((p: ProgramMatch) => !p.isEligible, programs)
  }

  /** Both lists keep the order of the rows; every row lands in exactly one of them, in the
      one its eligibility names, and the two together are the rows. */
  lemma SplitSpec(programs: seq<ProgramMatch>)
    ensures IsSubsequence(EligiblePrograms(programs), programs)
    ensures IsSubsequence(IneligiblePrograms(programs), programs)
    ensures multiset(EligiblePrograms(programs)) + multiset(IneligiblePrograms(programs)) == multiset(programs)
    ensures |EligiblePrograms(programs)| + |IneligiblePrograms(programs)| == |programs|
    ensures forall p :: p in EligiblePrograms(programs) <==> p in programs && p.isEligible
    ensures forall p :: p in IneligiblePrograms(programs) <==> p in programs && !p.isEligible
  {
    var keep := (p: ProgramMatch) => p.isEligible;
    var drop := (p: ProgramMatch) => !p.isEligible;
    FilterIsSubsequence(keep, programs);
    FilterIsSubsequence(drop, programs);
    FilterPartition(keep, drop, programs);
  }

  /** The rows arrive ordered by decreasing match score. */
  ghost predicate ByDecreasingScore(programs: seq<ProgramMatch>) {
    forall j, k :: 0 <= j < k < |programs| ==> programs[j].matchScore >= programs[k].matchScore
  }

  /** No element of a filtered list scores above `bound` when no element of the list does. */
  lemma {:induction false} FilterBelow(keep: ProgramMatch -> bool, programs: seq<ProgramMatch>, bound: real)
    requires forall k :: 0 <= k < |programs| ==> programs[k].matchScore <= bound
    ensures forall k :: 0 <= k < |Filter(keep, programs)| ==> Filter(keep, programs)[k].matchScore <= bound
  {
    var r := Filter(keep, programs);
    forall k | 0 <= k < |r| ensures r[k].matchScore <= bound {
      assert r[k] in programs;
    }
  }

  /** The rows after the first are ordered and score at most as much as the first. */
  lemma TailOrdered(programs: seq<ProgramMatch>)
    requires |programs| > 0 && ByDecreasingScore(programs)
    ensures ByDecreasingScore(programs[1..])
    ensures forall k :: 0 <= k < |programs[1..]| ==> programs[1..][k].matchScore <= programs[0].matchScore
  {
    var rest := programs[1..];
    forall j, k | 0 <= j < k < |rest| ensures rest[j].matchScore >= rest[k].matchScore {
      assert rest[j] == programs[j + 1] && rest[k] == programs[k + 1];
    }
    forall k | 0 <= k < |rest| ensures rest[k].matchScore <= programs[0].matchScore {
      assert rest[k] == programs[k + 1];
    }
  }

  /** An ordered list stays ordered with a row in front that scores at least as much as
      each of its elements. */
  lemma ConsOrdered(first: ProgramMatch, tail: seq<ProgramMatch>)
    requires ByDecreasingScore(tail)
    requires forall k :: 0 <= k < |tail| ==> tail[k].matchScore <= first.matchScore
    ensures ByDecreasingScore([first] + tail)
  {
    var r := [first] + tail;
    forall j, k | 0 <= j < k < |r| ensures r[j].matchScore >= r[k].matchScore {
      assert r[k] == tail[k - 1];
      if j > 0 {
        assert r[j] == tail[j - 1];
      }
    }
  }

  /** Filtering keeps the order by decreasing match score. */
  lemma {:induction false} FilterKeepsOrder(keep: ProgramMatch -> bool, programs: seq<ProgramMatch>)
    requires ByDecreasingScore(programs)
    ensures ByDecreasingScore(Filter(keep, programs))
    decreases |programs|
  {
    if |programs| > 0 {
      var rest := programs[1..];
      TailOrdered(programs);
      FilterKeepsOrder(keep, rest);
      FilterBelow(keep, rest, programs[0].matchScore);
      if keep(programs[0]) {
        ConsOrdered(programs[0], Filter(keep, rest));
      }
    }
  }

  /** Both lists are ordered like the rows. */
  lemma ListsByDecreasingScore(programs: seq<ProgramMatch>)
    requires ByDecreasingScore(programs)
    ensures ByDecreasingScore(EligiblePrograms(programs)) && ByDecreasingScore(IneligiblePrograms(programs))
  {
    FilterKeepsOrder((p: ProgramMatch) => p.isEligible, programs);
    FilterKeepsOrder((p: ProgramMatch) => !p.isEligible, programs);
  }

  // ---- The card

  /** `Math.round`: the nearest integer, halves rounded up. */
  function Round(x: real): (n: int)
    ensures (n as real) - 0.5 <= x < (n as real) + 0.5
  {
    (x + 0.5).Floor
  }

  /** `matchPercentage`: the rounded score, capped at 100. */
  function MatchPercentage(score: real): (pct: int)
    ensures pct <= 100
    ensures pct == 100 <==> score >= 99.5
    ensures pct < 100 ==> (pct as real) - 0.5 <= score < (pct as real) + 0.5
  {
    if 100 <= Round(score) then 100 else Round(score)
  }

  /** A higher score never shows a lower percentage. */
  lemma PercentageMonotone(lower: real, higher: real)
    requires lower <= higher
    ensures MatchPercentage(lower) <= MatchPercentage(higher)
  {
  }

  /** `x && ...` on an optional number: present and not 0. */
  predicate Truthy(x: Option<real>) {
    x.Some? && x.value != 0.0
  }

  /** What `required && obtained && <Badge/>` renders beside a criterion: nothing when the
      first falsy operand is missing, the text "0" when it is the number 0 (React prints a
      number it is given), and the badge `obtained/required` when both are truthy. */
  datatype Figures = NoFigures | ZeroText | Badge(obtained: real, required: real)

  /** A line of the unmet-requirements alert: the criterion and what follows it. */
  datatype RequirementLine = RequirementLine(criterion: string, figures: Figures)

  function LineFor(r: MissingRequirement): (line: RequirementLine)
    ensures line.criterion == r.criterion
    ensures line.figures.Badge? <==> Truthy(r.required) && Truthy(r.obtained)
    ensures line.figures.Badge? ==> line.figures == Badge(r.obtained.value, r.required.value)
    ensures line.figures.ZeroText? <==> r.required == Some(0.0) || (Truthy(r.required) && r.obtained == Some(0.0))
    ensures line.figures.NoFigures? <==> r.required.None? || (Truthy(r.required) && r.obtained.None?)
  {
    var figures :=
      if r.required.None? then NoFigures
      else if r.required.value == 0.0 then ZeroText
      else if r.obtained.None? then NoFigures
      else if r.obtained.value == 0.0 then ZeroText
      else Badge(r.obtained.value, r.required.value);
    RequirementLine(r.criterion, figures)
  }

  function LinesFor(reqs: seq<MissingRequirement>): (lines: seq<RequirementLine>)
    ensures |lines| == |reqs|
    ensures forall k :: 0 <= k < |lines| ==> lines[k] == LineFor(reqs[k])
  {
    if |reqs| == 0 then [] else [LineFor(reqs[0])] + LinesFor(reqs[1..])
  }

  /** The arguments the card's button hands to `onApply`. */
  datatype ApplyCall = ApplyCall(programId: string, matchScore: real)

  /** What a card shows and does. */
  datatype Card = Card(percentage: int, eligible: bool, alert: Option<seq<RequirementLine>>, apply: ApplyCall)

  /** `ProgramCard`: the alert is shown only for an ineligible programme with unmet
      requirements, and lists each of them in order; the button applies with the
      programme's own identifier and its unrounded score. */
  function CardFor(p: ProgramMatch): (c: Card)
    ensures c.percentage <= 100 && c.percentage == MatchPercentage(p.matchScore)
    ensures c.eligible == p.isEligible
    ensures c.alert.Some? <==> !p.isEligible && |p.missingRequirements| > 0
    ensures c.alert.Some? ==> |c.alert.value| == |p.missingRequirements|
    ensures c.alert.Some? ==>
              forall k :: 0 <= k < |c.alert.value| ==> c.alert.value[k].criterion == p.missingRequirements[k].criterion
    ensures c.apply == ApplyCall(p.programId, p.matchScore)
  {
    Card(MatchPercentage(p.matchScore), p.isEligible,
         if !p.isEligible && |p.missingRequirements| > 0 then Some(LinesFor(p.missingRequirements)) else None,
         ApplyCall(p.programId, p.matchScore))
  }

  function CardsFor(programs: seq<ProgramMatch>): (cards: seq<Card>)
    ensures |cards| == |programs|
    ensures forall k :: 0 <= k < |cards| ==> cards[k] == CardFor(programs[k])
  {
    if |programs| == 0 then [] else [CardFor(programs[0])] + CardsFor(programs[1..])
  }

  // ---- The page

  /** The state `loadMatches` leaves behind. */
  datatype PageState = PageState(programs: seq<ProgramMatch>, loading: bool, error: Option<string>)

  /** The answer of the query: rows (possibly `null`) or an error message. */
  datatype Answer = Rows(data: Option<seq<ProgramMatch>>) | Failure(message: string)

  /** `loadMatches` once the query has answered: the rows (none for `null`) on success, the
      message on failure with the previous rows kept; loading is over either way. */
  function LoadMatches(previous: seq<ProgramMatch>, answer: Answer): (s: PageState)
    ensures !s.loading
    ensures s.error.Some? <==> answer.Failure?
    ensures answer.Failure? ==> s.programs == previous && s.error == Some(answer.message)
    ensures answer.Rows? ==> s.programs == answer.data.GetOr([])
  {
    match answer
    case Rows(data) => PageState(data.GetOr([]), false, None)
    case Failure(message) => PageState(previous, false, Some(message))
  }

  /** What the page renders. */
  datatype View = LoadingView | ErrorView(message: string) | EmptyView
                | ListsView(eligibleCount: nat, eligible: seq<Card>, ineligible: seq<Card>)

  /** `if (error)` on the error state: a message that is not the empty string. */
  predicate ErrorShown(error: Option<string>) {
    error.Some? && error.value != ""
  }

  /** The early returns in order: loading, then a non-empty error message, then no rows,
      then the two lists, which hold a card for every row, eligible ones first, each in the
      order of the query, with the badge counting the eligible cards. */
  function Render(s: PageState): (v: View)
    ensures v.LoadingView? <==> s.loading
    ensures v.ErrorView? <==> !s.loading && ErrorShown(s.error)
    ensures v.ErrorView? ==> v.message == s.error.value
    ensures v.EmptyView? <==> !s.loading && !ErrorShown(s.error) && |s.programs| == 0
    ensures v.ListsView? <==> !s.loading && !ErrorShown(s.error) && |s.programs| > 0
    ensures v.ListsView? ==>
              v.eligible == CardsFor(EligiblePrograms(s.programs)) &&
              v.ineligible == CardsFor(IneligiblePrograms(s.programs))
    ensures v.ListsView? ==> v.eligibleCount == |v.eligible| && |v.eligible| + |v.ineligible| == |s.programs|
  {
    if s.loading then LoadingView
    else if ErrorShown(s.error) then ErrorView(s.error.value)
    else if |s.programs| == 0 then EmptyView
    else
      SplitSpec(s.programs);
      var eligible := EligiblePrograms(s.programs);
      ListsView(|eligible|, CardsFor(eligible), CardsFor(IneligiblePrograms(s.programs)))
  }

  /** The cards of a section drawn from `programs`, all of one eligibility, apply with the
      identifier and score of a row of that eligibility. */
  lemma SectionApplies(programs: seq<ProgramMatch>, section: seq<ProgramMatch>, eligible: bool)
    requires forall k :: 0 <= k < |section| ==> section[k] in programs && section[k].isEligible == eligible
    ensures forall k :: 0 <= k < |CardsFor(section)| ==>
              CardsFor(section)[k].eligible == eligible &&
              exists p :: p in programs && p.isEligible == eligible && CardsFor(section)[k].apply == ApplyCall(p.programId, p.matchScore)
  {
    var cards := CardsFor(section);
    forall k | 0 <= k < |cards|
      ensures cards[k].eligible == eligible
      ensures exists p :: p in programs && p.isEligible == eligible && cards[k].apply == ApplyCall(p.programId, p.matchScore)
    {
      assert cards[k] == CardFor(section[k]);
      assert section[k] in programs && section[k].isEligible == eligible;
    }
  }

  /** Every card of the eligible section is eligible, every card of the other section is
      not, and each applies with the identifier and score of a row of its own kind. */
  lemma CardsApplyTheirRow(s: PageState)
    requires Render(s).ListsView?
    ensures forall k :: 0 <= k < |Render(s).eligible| ==>
              Render(s).eligible[k].eligible &&
              exists p :: p in s.programs && p.isEligible && Render(s).eligible[k].apply == ApplyCall(p.programId, p.matchScore)
    ensures forall k :: 0 <= k < |Render(s).ineligible| ==>
              !Render(s).ineligible[k].eligible &&
              exists p :: p in s.programs && !p.isEligible && Render(s).ineligible[k].apply == ApplyCall(p.programId, p.matchScore)
  {
    var eligible := EligiblePrograms(s.programs);
    var ineligible := IneligiblePrograms(s.programs);
    SectionApplies(s.programs, eligible, true);
    SectionApplies(s.programs, ineligible, false);
  }

  /** An error without a message shows no alert: the page goes on to the empty notice or to
      the lists of the rows it already had. */
  lemma EmptyMessageShowsNoAlert(previous: seq<ProgramMatch>)
    ensures !Render(LoadMatches(previous, Failure(""))).ErrorView?
    ensures |previous| == 0 ==> Render(LoadMatches(previous, Failure(""))).EmptyView?
    ensures |previous| > 0 ==> Render(LoadMatches(previous, Failure(""))).ListsView?
  {
  }
}
