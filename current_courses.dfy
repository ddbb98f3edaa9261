/** The selection logic of the "current courses" block: which course pages are
    listed, how they are grouped by bachelor year and ordered, the schedule
    links in each year's heading, which study period counts as current, and
    the program-syllabus dropdown. Rendering and data fetching are not modelled. */
module CurrentCourses {
  import opened Wrappers
  import opened Sequences
  import opened Numbers

  type StudyPeriod = string
  type Year = string
  type Program = string

  /** A course page as returned by the REST API: its program-syllabus term
      ids and the fields of its course-page metadata that the block reads. */
  datatype Post = Post(
    link: string,
    title: string,
    syllabuses: seq<int>,
    studyPeriods: seq<StudyPeriod>,
    years: seq<Year>,
    participantCount: real)

  // ---------------------------------------------------------------------
  // Which posts are listed
  // ---------------------------------------------------------------------

  /** `ids.includes(n)` for integer ids: some id is `=== n`. */
  predicate Includes(ids: seq<int>, n: JsNumber): (b: bool)
    ensures b <==> exists k :: 0 <= k < |ids| && IsInt(n, ids[k])
  {
    n.Finite? && n.value == n.value.Floor as real && n.value.Floor in ids
  }

  /** The filter predicate of the listing. `selectedId` is the chosen
      program-syllabus id (negative for "all"), `loadedSyllabuses` the
      number of program-syllabus terms fetched so far, and `currentSp` the
      current study period (`None` until it has been determined). */
  predicate Listed(post: Post, selectedId: JsNumber, loadedSyllabuses: nat, currentSp: Option<StudyPeriod>): (b: bool)
    ensures b ==> currentSp.Some? && currentSp.value in post.studyPeriods
    ensures currentSp.Some? && loadedSyllabuses == 0 ==> (b <==> currentSp.value in post.studyPeriods)
    ensures b && loadedSyllabuses > 0 && !Negative(selectedId) ==> Includes(post.syllabuses, selectedId)
    ensures b && loadedSyllabuses > 0 ==> post.syllabuses != []
  {
    && ((Negative(selectedId) && |post.syllabuses| > 0)
        || loadedSyllabuses == 0
        || Includes(post.syllabuses, selectedId))
    && currentSp.Some? && currentSp.value in post.studyPeriods
  }

  function ListedPosts(allPosts: seq<Post>, selectedId: JsNumber, loadedSyllabuses: nat, currentSp: Option<StudyPeriod>): (r: seq<Post>)
    ensures forall i :: 0 <= i < |r| ==> r[i] in allPosts && Listed(r[i], selectedId, loadedSyllabuses, currentSp)
    ensures forall i :: 0 <= i < |allPosts| && Listed(allPosts[i], selectedId, loadedSyllabuses, currentSp)
                        ==> allPosts[i] in r
  {
    Filter(p => Listed(p, selectedId, loadedSyllabuses, currentSp), allPosts)
  }

  /** Until the current study period is known nothing is listed. */
  lemma NothingListedBeforePeriodKnown(allPosts: seq<Post>, selectedId: JsNumber, loadedSyllabuses: nat)
    ensures ListedPosts(allPosts, selectedId, loadedSyllabuses, None) == []
  {
    var r := ListedPosts(allPosts, selectedId, loadedSyllabuses, None);
    assert r != [] ==> Listed(r[0], selectedId, loadedSyllabuses, None);
  }

  // ---------------------------------------------------------------------
  // One section per bachelor year
  // ---------------------------------------------------------------------

  predicate InYear(year: Year, p: Post) { year in p.years }

  /** Sort key that puts the largest participant count first. */
  function ByCountDescending(p: Post): real { -p.participantCount }

  /** The `filter` step: the posts whose years include `year`, in order. */
  function PostsOfYear(posts: seq<Post>, year: Year): seq<Post> {
    Filter(p => InYear(year, p), posts)
  }

  /** The posts listed under `year`: those whose years include it, sorted by
      participant count, highest first. */
  function YearCourses(posts: seq<Post>, year: Year): (r: seq<Post>)
    ensures forall i, j :: 0 <= i < j < |r| ==> r[i].participantCount >= r[j].participantCount
  {
    SortBy(PostsOfYear(posts, year), ByCountDescending)
  }

  /** A year's list is a permutation of exactly the posts of that year: each
      post occurs as often as it does in the input if it belongs to the year,
      and not at all otherwise. */
  lemma YearCoursesPermutation(posts: seq<Post>, year: Year, p: Post)
    ensures multiset(YearCourses(posts, year))[p] == if year in p.years then multiset(posts)[p] else 0
  {
    FilterMultiset(q => InYear(year, q), posts, p);
    assert multiset(YearCourses(posts, year)) == multiset(PostsOfYear(posts, year));
  }

  /** Posts with equal participant counts keep the order they were fetched in
      (the JavaScript sort is stable): those sharing `p`'s count appear in
      the year's list in their fetched order. */
  lemma YearCoursesStable(posts: seq<Post>, year: Year, p: Post)
    ensures WithKey(YearCourses(posts, year), ByCountDescending, ByCountDescending(p))
            == WithKey(PostsOfYear(posts, year), ByCountDescending, ByCountDescending(p))
  {
    assert YearCourses(posts, year) == SortBy(PostsOfYear(posts, year), ByCountDescending);
    SortByStable(PostsOfYear(posts, year), ByCountDescending, ByCountDescending(p));
  }

  // ---------------------------------------------------------------------
  // Schedule links in a year's heading
  // ---------------------------------------------------------------------

  /** `option?.schedules`: per year, per program, a schedule URL. */
  type Schedules = map<Year, map<Program, string>>

  function YearSchedules(schedules: Option<Schedules>, year: Year): map<Program, string> {
    if schedules.Some? && year in schedules.value then schedules.value[year] else map[]
  }

  /** A program has a schedule when its URL is present and non-empty. */
  predicate HasSchedule(bySchedule: map<Program, string>, prog: Program) {
    prog in bySchedule && bySchedule[prog] != ""
  }

  function ScheduleLink(prog: Program, url: string): (link: string)
    ensures link != ""
  {
    "<a href=\"" + url + "\" target=\"_blank\" rel=\"noopener noreferrer\">" + prog + "</a>"
  }

  /** The programs that have a schedule, in `PROGRAMS` order. */
  function ScheduledPrograms(programs: seq<Program>, bySchedule: map<Program, string>): seq<Program> {
    Filter(prog => HasSchedule(bySchedule, prog), programs)
  }

  /** The `flatMap`: one link per program that has a schedule. */
  function LinkEntries(programs: seq<Program>, bySchedule: map<Program, string>): (r: seq<string>)
    ensures |r| <= |programs|
  {
    if programs == [] then []
    else
      var prog := programs[0];
      var rest := LinkEntries(programs[1..], bySchedule);
      if HasSchedule(bySchedule, prog) then [ScheduleLink(prog, bySchedule[prog])] + rest else rest
  }

  /** The links are those of the programs that have a schedule, one each, in
      `PROGRAMS` order. */
  lemma {:induction false} LinkEntriesFollowPrograms(programs: seq<Program>, bySchedule: map<Program, string>)
    ensures var sp := ScheduledPrograms(programs, bySchedule);
            |LinkEntries(programs, bySchedule)| == |sp|
            && forall k :: 0 <= k < |sp| ==>
                 HasSchedule(bySchedule, sp[k]) && LinkEntries(programs, bySchedule)[k] == ScheduleLink(sp[k], bySchedule[sp[k]])
  {
    if programs != [] {
      var prog := programs[0];
      var sp := ScheduledPrograms(programs, bySchedule);
      var rest := ScheduledPrograms(programs[1..], bySchedule);
      assert sp == (if HasSchedule(bySchedule, prog) then [prog] else []) + rest;
      LinkEntriesFollowPrograms(programs[1..], bySchedule);
      var links := LinkEntries(programs, bySchedule);
      var restLinks := LinkEntries(programs[1..], bySchedule);
      if HasSchedule(bySchedule, prog) {
        assert links == [ScheduleLink(prog, bySchedule[prog])] + restLinks;
        forall k | 0 <= k < |sp|
          ensures HasSchedule(bySchedule, sp[k]) && links[k] == ScheduleLink(sp[k], bySchedule[sp[k]])
        {
          if k == 0 {
            assert sp[0] == prog && links[0] == ScheduleLink(prog, bySchedule[prog]);
          } else {
            assert sp[k] == rest[k - 1] && links[k] == restLinks[k - 1];
          }
        }
      } else {
        assert links == restLinks && sp == rest;
      }
    }
  }

  /** The links joined by ", "; empty exactly when no program has a schedule. */
  function ScheduleLinks(programs: seq<Program>, schedules: Option<Schedules>, year: Year): (r: string)
    ensures r == "" <==> forall prog :: prog in programs ==> !HasSchedule(YearSchedules(schedules, year), prog)
  {
    var bySchedule := YearSchedules(schedules, year);
    var entries := LinkEntries(programs, bySchedule);
    forall i | 0 <= i < |entries| ensures entries[i] != [] {
      LinkEntriesFollowPrograms(programs, bySchedule);
    }
    assert entries == [] <==> forall prog :: prog in programs ==> !HasSchedule(bySchedule, prog) by {
      var sp := ScheduledPrograms(programs, bySchedule);
      LinkEntriesFollowPrograms(programs, bySchedule);
      if exists prog :: prog in programs && HasSchedule(bySchedule, prog) {
        var prog :| prog in programs && HasSchedule(bySchedule, prog);
        var k :| 0 <= k < |programs| && programs[k] == prog;
        assert prog in sp;
      }
      if sp != [] {
        assert sp[0] in programs;
      }
    }
    Join(entries, ", ")
  }

  /** `pattern` occurs in `s` starting at index `j`. */
  predicate OccursAt(s: string, pattern: string, j: int) {
    0 <= j && j + |pattern| <= |s| && s[j..j + |pattern|] == pattern
  }

  /** The first index at or after `from` where `pattern` occurs in `s`. */
  function IndexOf(s: string, pattern: string, from: nat): (r: Option<nat>)
    decreases |s| - from
    ensures r.Some? ==> from <= r.value && OccursAt(s, pattern, r.value)
    ensures r.Some? ==> forall j :: from <= j < r.value ==> !OccursAt(s, pattern, j)
    ensures r.None? ==> forall j :: from <= j ==> !OccursAt(s, pattern, j)
  {
    if from + |pattern| > |s| then None
    else if s[from..from + |pattern|] == pattern then Some(from)
    else IndexOf(s, pattern, from + 1)
  }

  /** The replacement text after its `$` patterns are expanded, as
      GetSubstitution of ECMA-262 does for a string pattern, which has no
      capture groups: `$$` is `$`, `$&` the matched text, `` $` `` the text
      before the match and `$'` the text after it; any other `$` stays. */
  function Substitution(replacement: string, matched: string, before: string, after: string): (r: string)
    decreases |replacement|
    ensures '$' !in replacement ==> r == replacement
  {
    if replacement == [] then ""
    else if |replacement| >= 2 && replacement[0] == '$' && replacement[1] == '$' then
      "$" + Substitution(replacement[2..], matched, before, after)
    else if |replacement| >= 2 && replacement[0] == '$' && replacement[1] == '&' then
      matched + Substitution(replacement[2..], matched, before, after)
    else if |replacement| >= 2 && replacement[0] == '$' && replacement[1] == '`' then
      before + Substitution(replacement[2..], matched, before, after)
    else if |replacement| >= 2 && replacement[0] == '$' && replacement[1] == '\'' then
      after + Substitution(replacement[2..], matched, before, after)
    else
      [replacement[0]] + Substitution(replacement[1..], matched, before, after)
  }

  /** `s.replace(pattern, replacement)` with a string pattern: the first
      occurrence is replaced by the expanded replacement. */
  function Replace(s: string, pattern: string, replacement: string): (r: string)
    ensures IndexOf(s, pattern, 0).None? ==> r == s
    ensures IndexOf(s, pattern, 0).Some? ==>
              var k := IndexOf(s, pattern, 0).value;
              r == s[..k] + Substitution(replacement, pattern, s[..k], s[k + |pattern|..]) + s[k + |pattern|..]
  {
    match IndexOf(s, pattern, 0)
    case None => s
    case Some(k) =>
      s[..k] + Substitution(replacement, pattern, s[..k], s[k + |pattern|..]) + s[k + |pattern|..]
  }

  const SCHEDULE_OPENING := "(Schedule "
  const SCHEDULE_SLOT := "%1$s"
  const SCHEDULE_CLOSING := ")"
  /** The heading's translatable template, as its English source string. */
  const SCHEDULE_TEMPLATE := SCHEDULE_OPENING + SCHEDULE_SLOT + SCHEDULE_CLOSING

  /** The first occurrence of the slot is right after the opening. */
  lemma ScheduleSlotPosition()
    ensures IndexOf(SCHEDULE_TEMPLATE, SCHEDULE_SLOT, 0) == Some(|SCHEDULE_OPENING|)
    ensures SCHEDULE_TEMPLATE[..|SCHEDULE_OPENING|] == SCHEDULE_OPENING
    ensures SCHEDULE_TEMPLATE[|SCHEDULE_OPENING| + |SCHEDULE_SLOT|..] == SCHEDULE_CLOSING
  {
    var n := |SCHEDULE_OPENING|;
    assert SCHEDULE_TEMPLATE[n..n + |SCHEDULE_SLOT|] == SCHEDULE_SLOT;
    assert OccursAt(SCHEDULE_TEMPLATE, SCHEDULE_SLOT, n);
    forall j | 0 <= j < n ensures !OccursAt(SCHEDULE_TEMPLATE, SCHEDULE_SLOT, j) {
      assert SCHEDULE_TEMPLATE[j] == SCHEDULE_OPENING[j] != '%';
      assert SCHEDULE_TEMPLATE[j..j + |SCHEDULE_SLOT|][0] == SCHEDULE_TEMPLATE[j];
    }
  }

  /** `__('(Schedule %1$s)').replace('%1$s', links)`: the template with the
      links, `$` patterns expanded, in place of its slot. */
  function ScheduleText(links: string): (r: string)
    ensures r == SCHEDULE_OPENING + Substitution(links, SCHEDULE_SLOT, SCHEDULE_OPENING, SCHEDULE_CLOSING) + SCHEDULE_CLOSING
  {
    ScheduleSlotPosition();
    Replace(SCHEDULE_TEMPLATE, SCHEDULE_SLOT, links)
  }

  /** The year heading: the formatted year, followed by " " and the
      schedule text only when there are links. */
  function YearHeading(yearLabel: string, links: string): (r: string)
    ensures |r| >= |yearLabel| && r[..|yearLabel|] == yearLabel
    ensures links == "" <==> r == yearLabel
    ensures links != "" ==> r[|yearLabel|..] == " " + ScheduleText(links)
  {
    yearLabel + (if links != "" then " " + ScheduleText(links) else "")
  }

  /** The heading with the links inserted exactly as they are. */
  function IntendedYearHeading(yearLabel: string, links: string): (r: string)
    ensures |r| >= |yearLabel| && r[..|yearLabel|] == yearLabel
    ensures links == "" <==> r == yearLabel
    ensures links != "" ==> var start := |yearLabel| + 1 + |SCHEDULE_OPENING|;
                            |r| == start + |links| + |SCHEDULE_CLOSING| && r[start..start + |links|] == links
  {
    var r := yearLabel + (if links != "" then " " + (SCHEDULE_OPENING + links + SCHEDULE_CLOSING) else "");
    assert links != "" ==> r[|yearLabel| + 1 + |SCHEDULE_OPENING|..][..|links|] == links;
    r
  }

  /** As long as no schedule URL holds a `$`, the links are inserted as
      they are. */
  lemma YearHeadingWithoutDollar(yearLabel: string, links: string)
    requires '$' !in links
    ensures YearHeading(yearLabel, links) == IntendedYearHeading(yearLabel, links)
  {
  }

  /** A character other than `$` is copied as it is. */
  lemma SubstitutionOfPlainChar(c: char, rest: string, matched: string, before: string, after: string)
    requires c != '$'
    ensures Substitution([c] + rest, matched, before, after) == [c] + Substitution(rest, matched, before, after)
  {
    assert ([c] + rest)[0] == c;
    assert ([c] + rest)[1..] == rest;
  }

  /** A replacement prefix without `$` is copied as it is, ahead of the
      expansion of the rest. */
  lemma {:induction false} SubstitutionOfPlainPrefix(p: string, rest: string, matched: string, before: string, after: string)
    requires '$' !in p
    ensures Substitution(p + rest, matched, before, after) == p + Substitution(rest, matched, before, after)
    decreases |p|
  {
    if p == [] {
      assert p + rest == rest;
    } else {
      var c := p[0];
      assert c in p;
      assert '$' !in p[1..];
      calc {
        Substitution(p + rest, matched, before, after);
        { assert p + rest == [c] + (p[1..] + rest); }
        Substitution([c] + (p[1..] + rest), matched, before, after);
        { SubstitutionOfPlainChar(c, p[1..] + rest, matched, before, after); }
        [c] + Substitution(p[1..] + rest, matched, before, after);
        { SubstitutionOfPlainPrefix(p[1..], rest, matched, before, after); }
        [c] + (p[1..] + Substitution(rest, matched, before, after));
        { assert [c] + p[1..] == p; }
        p + Substitution(rest, matched, before, after);
      }
    }
  }

  /** A single `$&` between text without `$` stands for the matched text. */
  lemma SubstitutionOfMatch(p: string, q: string, matched: string, before: string, after: string)
    requires '$' !in p && '$' !in q
    ensures Substitution(p + "$&" + q, matched, before, after) == p + matched + q
  {
    assert p + "$&" + q == p + ("$&" + q);
    SubstitutionOfPlainPrefix(p, "$&" + q, matched, before, after);
    assert ("$&" + q)[2..] == q;
  }

  /** A `$&` in a schedule URL is replaced by the slot text itself, so the
      link no longer points at the schedule and the heading differs from
      the one with the link inserted as it is. */
  lemma DollarAmpersandInLink(yearLabel: string, p: string, q: string)
    requires '$' !in p && '$' !in q
    ensures ScheduleText(p + "$&" + q) == SCHEDULE_OPENING + (p + SCHEDULE_SLOT + q) + SCHEDULE_CLOSING
    ensures YearHeading(yearLabel, p + "$&" + q) != IntendedYearHeading(yearLabel, p + "$&" + q)
  {
    SubstitutionOfMatch(p, q, SCHEDULE_SLOT, SCHEDULE_OPENING, SCHEDULE_CLOSING);
    var links := p + "$&" + q;
    assert |YearHeading(yearLabel, links)| == |yearLabel| + 1 + |SCHEDULE_OPENING| + |p| + |SCHEDULE_SLOT| + |q| + |SCHEDULE_CLOSING|;
  }

  // ---------------------------------------------------------------------
  // The current study period
  // ---------------------------------------------------------------------

  type Month = m: int | 1 <= m <= 12 witness 1
  type Day = d: int | 1 <= d <= 31 witness 1

  /** One entry of `study_period_ends`: the period ends at midnight at the
      start of (month, day) of the current year. */
  datatype PeriodEnd = PeriodEnd(sp: StudyPeriod, month: Month, day: Day)

  /** The current moment: a day of the current year and the milliseconds
      elapsed since its midnight. */
  datatype Instant = Instant(month: Month, day: Day, ms: nat)

  function DayOrdinal(month: Month, day: Day): int { month * 32 + day }

  /** Sort key of an end: earlier days have smaller keys. */
  function EndKey(e: PeriodEnd): real { DayOrdinal(e.month, e.day) as real }

  /** `currentDate > end`: the end's midnight has passed, which is already the
      case during the end day itself once it has begun. */
  predicate Passed(now: Instant, e: PeriodEnd): (b: bool)
    ensures b <==> now.month > e.month
                   || (now.month == e.month && (now.day > e.day || (now.day == e.day && now.ms > 0)))
  {
    DayOrdinal(now.month, now.day) > DayOrdinal(e.month, e.day)
    || (DayOrdinal(now.month, now.day) == DayOrdinal(e.month, e.day) && now.ms > 0)
  }

  /** The highest index whose end has passed, or -1 when none has. */
  function LastPassed(s: seq<PeriodEnd>, now: Instant): (r: int)
    ensures -1 <= r < |s|
    ensures r >= 0 ==> Passed(now, s[r])
    ensures forall j :: r < j < |s| ==> !Passed(now, s[j])
  {
    if s == [] then -1
    else if Passed(now, s[|s| - 1]) then |s| - 1
    else LastPassed(s[..|s| - 1], now)
  }

  /** The period after the last one that has ended (wrapping around), or the
      first when none has ended yet. */
  function CurrentIndex(s: seq<PeriodEnd>, now: Instant): (k: nat)
    requires s != []
    ensures k < |s|
  {
    var i := LastPassed(s, now);
    if i < 0 then 0 else (i + 1) % |s|
  }

  lemma SortedEndIsConfigured(ends: seq<PeriodEnd>, k: nat)
    requires k < |ends|
    ensures SortBy(ends, EndKey)[k] in ends
  {
    var s := SortBy(ends, EndKey);
    assert s[k] in multiset(s);
  }

  /** The descending scan over the sorted ends: the index after the last
      end that has passed (wrapping around), or 0 when none has passed. */
  method ScanEnds(sps: seq<PeriodEnd>, now: Instant) returns (k: nat)
    requires sps != []
    ensures k == CurrentIndex(sps, now)
  {
    var i := |sps| - 1;
    while i >= 0
      invariant -1 <= i < |sps|
      invariant forall j :: i < j < |sps| ==> !Passed(now, sps[j])
    {
      if Passed(now, sps[i]) {
        assert LastPassed(sps, now) == i;
        return (i + 1) % |sps|;
      }
      i := i - 1;
    }
    assert LastPassed(sps, now) == -1;
    return 0;
  }

  /** The effect of fetching the public options: sorts the configured ends
      and scans them from the last. With no ends at all, `sps[0]` is
      undefined and the handler throws before setting a period, so none is
      chosen. */
  method SelectCurrentPeriod(ends: seq<PeriodEnd>, now: Instant) returns (sp: Option<StudyPeriod>)
    ensures sp.None? <==> ends == []
    ensures ends != [] ==> sp == Some(SortBy(ends, EndKey)[CurrentIndex(SortBy(ends, EndKey), now)].sp)
    ensures sp.Some? ==> exists e :: e in ends && e.sp == sp.value
  {
    var sps := SortBy(ends, EndKey);
    if |sps| == 0 {
      return None;
    }
    var k := ScanEnds(sps, now);
    SortedEndIsConfigured(ends, k);
    return Some(sps[k].sp);
  }

  /** Before any end of the year has passed the first period (by end date)
      is current. */
  lemma NoEndPassedGivesFirst(s: seq<PeriodEnd>, now: Instant)
    requires s != []
    requires forall j :: 0 <= j < |s| ==> !Passed(now, s[j])
    ensures CurrentIndex(s, now) == 0
  {
  }

  /** Once the last end of the year has passed, the selection wraps around
      to the first period. */
  lemma LastEndPassedWraps(s: seq<PeriodEnd>, now: Instant)
    requires s != [] && Passed(now, s[|s| - 1])
    ensures CurrentIndex(s, now) == 0
  {
  }

  /** Otherwise the current period is the one whose end comes next: its end
      has not passed, and the end before it (if any) has. */
  lemma {:induction false} CurrentIsNextEnd(s: seq<PeriodEnd>, now: Instant)
    requires s != [] && !Passed(now, s[|s| - 1])
    ensures !Passed(now, s[CurrentIndex(s, now)])
    ensures CurrentIndex(s, now) > 0 ==> Passed(now, s[CurrentIndex(s, now) - 1])
  {
    var i := LastPassed(s, now);
    assert i < |s| - 1;
    assert 0 <= i + 1 < |s|;
    assert (i + 1) % |s| == i + 1;
    assert CurrentIndex(s, now) == i + 1;
    assert !Passed(now, s[i + 1]);
  }

  // ---------------------------------------------------------------------
  // Program-syllabus selection
  // ---------------------------------------------------------------------

  /** `Number(stored) || -1`, where `stored` is what
      `Number(localStorage.getItem(key))` gave (a missing item reads as
      `Number(null)`, which is 0): a truthy number is kept, anything else
      (NaN or zero) falls back to -1. */
  function StoredSyllabusId(stored: JsNumber): (id: JsNumber)
    ensures Truthy(id)
    ensures Truthy(stored) ==> id == stored
    ensures !Truthy(stored) ==> id == Finite(-1.0)
  {
    if Truthy(stored) then stored else Finite(-1.0)
  }

  datatype Syllabus = Syllabus(id: int, name: string)

  /** An option of `Dropdown.Select`; `caption` is its `label`, a word Dafny
      reserves. */
  datatype DropdownOption = DropdownOption(value: int, caption: string)
  datatype Dropdown = Dropdown(disabled: bool, content: Option<string>, options: seq<DropdownOption>)

  const SYLLABUS_PLACEHOLDER := "Program syllabus"
  const ALL_SYLLABUSES := "All program syllabuses"

  /** `find(…)?.name`: the name of the first entry with the given id. */
  function NameOf(entries: seq<Syllabus>, id: JsNumber): (r: Option<string>)
    ensures r.None? <==> forall k :: 0 <= k < |entries| ==> !IsInt(id, entries[k].id)
    ensures r.Some? ==> exists k :: 0 <= k < |entries| && IsInt(id, entries[k].id) && entries[k].name == r.value
                                    && forall j :: 0 <= j < k ==> !IsInt(id, entries[j].id)
  {
    if entries == [] then None
    else if IsInt(id, entries[0].id) then Some(entries[0].name)
    else
      var r := NameOf(entries[1..], id);
      assert r.Some? ==> exists k :: 0 <= k < |entries| && IsInt(id, entries[k].id) && entries[k].name == r.value
                                     && forall j :: 0 <= j < k ==> !IsInt(id, entries[j].id) by {
        if r.Some? {
          var k :| 0 <= k < |entries| - 1 && IsInt(id, entries[1..][k].id) && entries[1..][k].name == r.value
                   && forall j :: 0 <= j < k ==> !IsInt(id, entries[1..][j].id);
          assert IsInt(id, entries[k + 1].id);
        }
      }
      r
  }

  /** The dropdown's options: the "all" sentinel with value -1, then every
      loaded syllabus in order. */
  function SyllabusOptions(syllabuses: seq<Syllabus>): (r: seq<DropdownOption>)
    ensures |r| == |syllabuses| + 1
    ensures r[0] == DropdownOption(-1, ALL_SYLLABUSES)
    ensures forall i :: 0 <= i < |syllabuses| ==> r[i + 1] == DropdownOption(syllabuses[i].id, syllabuses[i].name)
  {
    [DropdownOption(-1, ALL_SYLLABUSES)]
      + seq(|syllabuses|, i requires 0 <= i < |syllabuses| => DropdownOption(syllabuses[i].id, syllabuses[i].name))
  }

  /** The syllabus control: shown only once syllabuses are loaded; its
      content is the name of the entry matching the selected id, where the
      sentinel -1 reads "Program syllabus". */
  function SyllabusControl(syllabuses: seq<Syllabus>, selectedId: JsNumber, loading: bool): (r: Option<Dropdown>)
    ensures r.Some? <==> syllabuses != []
    ensures r.Some? ==> r.value.disabled == loading && r.value.options == SyllabusOptions(syllabuses)
    ensures r.Some? && IsInt(selectedId, -1) ==> r.value.content == Some(SYLLABUS_PLACEHOLDER)
    ensures r.Some? && !IsInt(selectedId, -1) ==> r.value.content == NameOf(syllabuses, selectedId)
  {
    if syllabuses == [] then None
    else
      var entries := [Syllabus(-1, SYLLABUS_PLACEHOLDER)] + syllabuses;
      assert entries[1..] == syllabuses;
      Some(Dropdown(loading, NameOf(entries, selectedId), SyllabusOptions(syllabuses)))
  }
}
