/** The course catalogue (scoolize/src/pages/CoursesPage.tsx): the filters applied to the
    loaded programs and the list of regions offered to the user. */
module Courses {
  import opened Wrappers
  import opened Text
  import opened Seqs

  /** The joined `schools` row of a program; only the fields the page reads. */
  datatype School = School(name: string, location: Option<string>)

  /** A program with its school (`ProgramWithSchool`); the optional fields of the row are
      `None` when absent. */
  datatype Program = Program(name: string, level: Option<string>, minAverageScore: Option<real>, school: Option<School>)

  /** `CourseFiltersState` as the page uses it. */
  datatype CourseFilters = CourseFilters(search: string, level: Option<string>, region: Option<string>, minScore: real)

  /** The state the page starts with. */
  const InitialFilters: CourseFilters := CourseFilters("", None, None, 20.0)

  /** An optional string is truthy when present and not empty. */
  predicate Truthy(o: Option<string>) {
    o.Some? && o.value != ""
  }

  /** The lower-cased search occurs in the lower-cased name of the program or of its school. */
  predicate MatchesSearch(p: Program, searchLower: string) {
    Includes(Lower(p.name), searchLower) || (p.school.Some? && Includes(Lower(p.school.value.name), searchLower))
  }

  /** `p.schools?.location`. */
  function SchoolLocation(p: Program): Option<string> {
    if p.school.Some? then p.school.value.location else None
  }

  /** The average the program requires, 0 when it states none. */
  function RequiredAverage(p: Program): real {
    p.minAverageScore.GetOr(0.0)
  }

  /** The search filter, passed by everything when the search is empty. */
  predicate SearchOk(f: CourseFilters, p: Program) {
    f.search != "" ==> MatchesSearch(p, Lower(f.search))
  }

  /** The level filter, passed by everything when no level is chosen. */
  predicate LevelOk(f: CourseFilters, p: Program) {
    Truthy(f.level) ==> p.level == f.level
  }

  /** The region filter, passed by everything when no region is chosen. */
  predicate RegionOk(f: CourseFilters, p: Program) {
    Truthy(f.region) ==> SchoolLocation(p) == f.region
  }

  /** The score filter, passed by everything when the minimum is not positive. */
  predicate ScoreOk(f: CourseFilters, p: Program) {
    f.minScore > 0.0 ==> RequiredAverage(p) <= f.minScore
  }

  /** A program is kept when it passes every enabled filter: the search in its name or
      its school's name, the level, the school's location and the required average. */
  predicate Kept(f: CourseFilters, p: Program) {
    SearchOk(f, p) && LevelOk(f, p) && RegionOk(f, p) && ScoreOk(f, p)
  }

  /** The programs shown for filters `f`: loaded programs that pass them, no more of them
      than were loaded. */
  function Shown(f: CourseFilters, programs: seq<Program>): (r: seq<Program>)
    ensures |r| <= |programs|
    ensures forall k :: 0 <= k < |r| ==> r[k] in programs && Kept(f, r[k])
  {
    Filter(p => Kept(f, p), programs)
  }

  /** `applyFilters`: `let result = [...programs]`, then each enabled filter in turn,
      each on the result of the previous ones. */
  method ApplyFilters(programs: seq<Program>, filters: CourseFilters) returns (result: seq<Program>)
    ensures result == Shown(filters, programs)
  {
    result := programs;
    FilterKeepsAll(p => true, programs);
    if filters.search != "" {
      var searchLower := Lower(filters.search);
      result := Filter(p => MatchesSearch(p, searchLower), result);
      FilterFilter(p => true, p => MatchesSearch(p, searchLower), p => SearchOk(filters, p), programs);
    } else {
      FilterSame(p => true, p => SearchOk(filters, p), programs);
    }
    assert result == Filter(p => SearchOk(filters, p), programs);
    if Truthy(filters.level) {
      result := Filter((p: Program) => p.level == filters.level, result);
      FilterFilter(p => SearchOk(filters, p), (p: Program) => p.level == filters.level,
                   p => SearchOk(filters, p) && LevelOk(filters, p), programs);
    } else {
      FilterSame(p => SearchOk(filters, p), p => SearchOk(filters, p) && LevelOk(filters, p), programs);
    }
    assert result == Filter(p => SearchOk(filters, p) && LevelOk(filters, p), programs);
    if Truthy(filters.region) {
      result := Filter(p => SchoolLocation(p) == filters.region, result);
      FilterFilter(p => SearchOk(filters, p) && LevelOk(filters, p), p => SchoolLocation(p) == filters.region,
                   p => SearchOk(filters, p) && LevelOk(filters, p) && RegionOk(filters, p), programs);
    } else {
      FilterSame(p => SearchOk(filters, p) && LevelOk(filters, p),
                 p => SearchOk(filters, p) && LevelOk(filters, p) && RegionOk(filters, p), programs);
    }
    assert result == Filter(p => SearchOk(filters, p) && LevelOk(filters, p) && RegionOk(filters, p), programs);
    if filters.minScore > 0.0 {
      result := Filter(p => RequiredAverage(p) <= filters.minScore, result);
      FilterFilter(p => SearchOk(filters, p) && LevelOk(filters, p) && RegionOk(filters, p),
                   p => RequiredAverage(p) <= filters.minScore, p => Kept(filters, p), programs);
    } else {
      FilterSame(p => SearchOk(filters, p) && LevelOk(filters, p) && RegionOk(filters, p), p => Kept(filters, p), programs);
    }
  }

  /** The shown list keeps the order of the loaded list, and holds exactly the loaded
      programs that pass every enabled filter. */
  lemma ShownSpec(programs: seq<Program>, f: CourseFilters)
    ensures IsSubsequence(Shown(f, programs), programs)
    ensures forall p :: p in Shown(f, programs) <==> p in programs && Kept(f, p)
  {
    FilterIsSubsequence(p => Kept(f, p), programs);
    forall p | p in programs && Kept(f, p) ensures p in Shown(f, programs) {
      var k :| 0 <= k < |programs| && programs[k] == p;
    }
  }

  /** With every filter falsy (an empty search, no level, no region, a minimum of 0 or
      less) the whole list is shown. */
  lemma NoFilterShowsAll(programs: seq<Program>, f: CourseFilters)
    requires f.search == "" && !Truthy(f.level) && !Truthy(f.region) && f.minScore <= 0.0
    ensures Shown(f, programs) == programs
  {
    FilterKeepsAll(p => Kept(f, p), programs);
  }

  /** A minimum of 0 (or less) turns the score filter off: whether a program is kept
      does not depend on the average it requires. */
  lemma ZeroMinScoreDisables(f: CourseFilters, p: Program, required: Option<real>)
    requires f.minScore <= 0.0
    ensures Kept(f, p) == Kept(f, p.(minAverageScore := required))
  {
  }

  /** For a positive minimum, raising it never removes a program: the list for the lower
      minimum is a sub-list of the one for the higher minimum. */
  lemma RaisingMinScoreKeepsPrograms(programs: seq<Program>, f: CourseFilters, higher: real)
    requires 0.0 < f.minScore <= higher
    ensures IsSubsequence(Shown(f, programs), Shown(f.(minScore := higher), programs))
    ensures forall p :: p in Shown(f, programs) ==> p in Shown(f.(minScore := higher), programs)
  {
    var g := f.(minScore := higher);
    FilterMonotone(p => Kept(f, p), p => Kept(g, p), programs);
    ShownSpec(programs, f);
    ShownSpec(programs, g);
  }

  /** On the initial filters a program is shown exactly when it requires an average of
      at most 20 (or none). */
  lemma InitialFiltersKeep(p: Program)
    ensures Kept(InitialFilters, p) <==> RequiredAverage(p) <= 20.0
  {
  }

  // The region list.

  /** The school locations of the programs, in order, without the absent or empty ones. */
  function Locations(programs: seq<Program>): (r: seq<string>)
    ensures forall x :: x in r <==> exists k :: 0 <= k < |programs| && SchoolLocation(programs[k]) == Some(x) && x != ""
  {
    if |programs| == 0 then []
    else
      var rest := Locations(programs[1..]);
      var here := if Truthy(SchoolLocation(programs[0])) then [SchoolLocation(programs[0]).value] else [];
      assert forall k :: 0 <= k < |programs| - 1 ==> programs[1..][k] == programs[k + 1];
      assert forall x :: (exists k :: 1 <= k < |programs| && SchoolLocation(programs[k]) == Some(x) && x != "")
                          ==> x in rest;
      here + rest
  }

  /** Strictly increasing in the default order of `sort`. */
  ghost predicate StrictlySorted(xs: seq<string>) {
    forall i, j :: 0 <= i < j < |xs| ==> StrLess(xs[i], xs[j])
  }

  /** Inserts `x` into a strictly sorted list unless it is already there. */
  function InsertSorted(xs: seq<string>, x: string): (r: seq<string>)
    requires StrictlySorted(xs)
    ensures StrictlySorted(r)
    ensures forall y :: y in r <==> y in xs || y == x
  {
    if |xs| == 0 then [x]
    else if x == xs[0] then xs
    else if StrLess(x, xs[0]) then
      forall j | 0 <= j < |xs| ensures StrLess(x, xs[j]) {
        if j > 0 {
          StrLessTransitive(x, xs[0], xs[j]);
        }
      }
      [x] + xs
    else
      StrLessTotal(x, xs[0]);
      var rest := InsertSorted(xs[1..], x);
      assert forall y :: y in xs[1..] ==> StrLess(xs[0], y);
      [xs[0]] + rest
  }

  /** The distinct strings of `xs`, sorted (a set made into an array, then sorted). */
  function SortedDistinct(xs: seq<string>): (r: seq<string>)
    ensures StrictlySorted(r)
    ensures forall y :: y in r <==> y in xs
  {
    if |xs| == 0 then []
    else
      var r := InsertSorted(SortedDistinct(xs[..|xs| - 1]), xs[|xs| - 1]);
      assert xs == xs[..|xs| - 1] + [xs[|xs| - 1]];
      r
  }

  /** A strictly sorted list has no duplicates. */
  lemma SortedHasNoDuplicates(xs: seq<string>)
    requires StrictlySorted(xs)
    ensures forall i, j :: 0 <= i < j < |xs| ==> xs[i] != xs[j]
  {
    forall i, j | 0 <= i < j < |xs| ensures xs[i] != xs[j] {
      StrLessIrreflexive(xs[i]);
    }
  }

  /** The tail of a strictly sorted list holds its elements other than the first. */
  lemma TailMembers(xs: seq<string>, y: string)
    requires StrictlySorted(xs) && |xs| > 0
    ensures y in xs[1..] <==> y in xs && y != xs[0]
  {
    if y in xs[1..] {
      var k :| 0 <= k < |xs| - 1 && xs[1..][k] == y;
      assert StrLess(xs[0], xs[k + 1]);
      StrLessIrreflexive(y);
    }
    if y in xs && y != xs[0] {
      var k :| 0 <= k < |xs| && xs[k] == y;
      assert xs[1..][k - 1] == y;
    }
  }

  /** Lists with the same elements are empty together. */
  lemma SameElementsEmpty(a: seq<string>, b: seq<string>)
    requires forall y :: y in a <==> y in b
    ensures |a| == 0 <==> |b| == 0
  {
    if |a| > 0 {
      assert a[0] in b;
    }
    if |b| > 0 {
      assert b[0] in a;
    }
  }

  /** Two strictly sorted lists with the same elements are equal: whatever way the
      distinct locations are collected, sorting them gives this list. */
  lemma {:induction false} SortedDeterminedByElements(a: seq<string>, b: seq<string>)
    requires StrictlySorted(a) && StrictlySorted(b)
    requires forall y :: y in a <==> y in b
    ensures a == b
  {
    SameElementsEmpty(a, b);
    if |a| > 0 {
      if a[0] != b[0] {
        assert a[0] in a && b[0] in b;
        var i :| 0 <= i < |b| && b[i] == a[0];
        var j :| 0 <= j < |a| && a[j] == b[0];
        assert i > 0 && j > 0;
        StrLessTransitive(a[0], a[j], b[i]);
        StrLessIrreflexive(a[0]);
      }
      forall y ensures y in a[1..] <==> y in b[1..] {
        TailMembers(a, y);
        TailMembers(b, y);
      }
      SortedDeterminedByElements(a[1..], b[1..]);
      assert a == [a[0]] + a[1..] && b == [b[0]] + b[1..];
    }
  }

  /** The regions offered: every truthy school location, once each, sorted. */
  function Regions(programs: seq<Program>): (r: seq<string>)
    ensures StrictlySorted(r)
    ensures forall x :: x in r <==> exists k :: 0 <= k < |programs| && SchoolLocation(programs[k]) == Some(x) && x != ""
  {
    SortedDistinct(Locations(programs))
  }

  /** Each region is offered once. */
  lemma RegionsDistinct(programs: seq<Program>)
    ensures forall i, j :: 0 <= i < j < |Regions(programs)| ==> Regions(programs)[i] != Regions(programs)[j]
  {
    SortedHasNoDuplicates(Regions(programs));
  }

  /** Any sorted list of exactly the truthy locations, each once, is this list: the result
      of `Array.from(new Set(...)).sort()` does not depend on the order the set was built in. */
  lemma RegionsUnique(programs: seq<Program>, r: seq<string>)
    requires StrictlySorted(r)
    requires forall x :: x in r <==> exists k :: 0 <= k < |programs| && SchoolLocation(programs[k]) == Some(x) && x != ""
    ensures r == Regions(programs)
  {
    RegionsDistinct(programs);
    SortedDeterminedByElements(r, Regions(programs));
  }

  /** The effect on `[programs]`: the region list is recomputed only when programs were
      loaded, and otherwise keeps its previous value. */
  function RegionsAfterLoad(previous: seq<string>, programs: seq<Program>): (r: seq<string>)
    ensures |programs| == 0 ==> r == previous
    ensures |programs| > 0 ==> StrictlySorted(r)
    ensures |programs| > 0 ==>
              forall x :: x in r <==> exists k :: 0 <= k < |programs| && SchoolLocation(programs[k]) == Some(x) && x != ""
  {
    if |programs| > 0 then Regions(programs) else previous
  }
}
