/** The store of the current application: the project roster, the closed
    logs and the ask-for-activity-name preference, with the operations the
    user interface calls on them. The pure functions describe each new
    roster or log list; `Store` holds the three persisted values and its
    methods replace them exactly as the handlers do. */
module DataProvider {
  import opened Types
  import opened Utils
  import Text

  function ProjectSlug(p: Project): Slug {
    p.slug
  }

  /** No two projects of the roster share a slug. */
  predicate UniqueSlugs(projects: seq<Project>) {
    forall i, j :: 0 <= i < j < |projects| ==> projects[i].slug != projects[j].slug
  }

  /** `activeProjects`: the started projects, in roster order. */
  function ActiveProjects(projects: seq<Project>): (r: seq<Project>)
    ensures forall p :: p in r <==> p in projects && IsStarted(p)
  {
    if projects == [] then []
    else (if IsStarted(projects[0]) then [projects[0]] else []) + ActiveProjects(projects[1..])
  }

  /** The filter works entry by entry: the active projects of two rosters
      in a row are those of the first followed by those of the second, so
      roster order is kept. */
  lemma {:induction false} ActiveProjectsAppend(a: seq<Project>, b: seq<Project>)
    ensures ActiveProjects(a + b) == ActiveProjects(a) + ActiveProjects(b)
  {
    if a == [] {
      assert a + b == b;
    } else {
      ActiveProjectsAppend(a[1..], b);
      assert (a + b)[1..] == a[1..] + b && (a + b)[0] == a[0];
      var head := if IsStarted(a[0]) then [a[0]] else [];
      Text.ConcatAssoc(head, ActiveProjects(a[1..]), ActiveProjects(b));
    }
  }

  /** Every started entry is kept as often as it occurs, and no other. */
  lemma {:induction false} ActiveProjectsCount(projects: seq<Project>, p: Project)
    ensures multiset(ActiveProjects(projects))[p] == if IsStarted(p) then multiset(projects)[p] else 0
  {
    if projects != [] {
      var head := if IsStarted(projects[0]) then [projects[0]] else [];
      ActiveProjectsCount(projects[1..], p);
      assert projects == [projects[0]] + projects[1..];
      assert multiset(projects) == multiset([projects[0]]) + multiset(projects[1..]);
      assert ActiveProjects(projects) == head + ActiveProjects(projects[1..]);
      assert multiset(head + ActiveProjects(projects[1..])) == multiset(head) + multiset(ActiveProjects(projects[1..]));
    }
  }

  // ---------------------------------------------------------------------
  // closing the running timers

  /** The log that closes a started project's timer at `now`. In ask mode
      it is named after the last activity entered (`lastActivityName ??
      name`), otherwise after the project. */
  function ClosingLog(p: Project, ask: bool, now: int): Log
    requires IsStarted(p)
  {
    Log(p.slug, Interval(p.startedAt.value, now),
      if ask then p.lastActivityName.GetOr(p.name) else p.name)
  }

  /** `createNewLogs()`: one closing log per started project, in roster
      order. */
  function CreateNewLogs(projects: seq<Project>, ask: bool, now: int): seq<Log> {
    if projects == [] then []
    else
      var head := if IsStarted(projects[0]) then [ClosingLog(projects[0], ask, now)] else [];
      head + CreateNewLogs(projects[1..], ask, now)
  }

  /** The new logs are the closing logs of `activeProjects`, one for one
      (`activeProjects.map(...)`). */
  lemma {:induction false} CreateNewLogsOfActive(projects: seq<Project>, ask: bool, now: int)
    ensures |CreateNewLogs(projects, ask, now)| == |ActiveProjects(projects)|
    ensures forall i :: 0 <= i < |ActiveProjects(projects)| ==>
      IsStarted(ActiveProjects(projects)[i]) &&
      CreateNewLogs(projects, ask, now)[i] == ClosingLog(ActiveProjects(projects)[i], ask, now)
  {
    if projects != [] {
      CreateNewLogsOfActive(projects[1..], ask, now);
    }
  }

  /** The closing logs carry exactly the running time that the live total
      was showing for the started projects at `now`. */
  lemma {:induction false} ClosingLogsCarryElapsed(projects: seq<Project>, ask: bool, now: int)
    ensures Durations(CreateNewLogs(projects, ask, now)) == Elapsed(StartedAts(projects), now)
  {
    if projects != [] {
      ClosingLogsCarryElapsed(projects[1..], ask, now);
      var head := if IsStarted(projects[0]) then [ClosingLog(projects[0], ask, now)] else [];
      DurationsAppend(head, CreateNewLogs(projects[1..], ask, now));
      var sHead := if IsStarted(projects[0]) then [projects[0].startedAt.value] else [];
      ElapsedAppend(sHead, StartedAts(projects[1..]), now);
    }
  }

  lemma {:induction false} DurationsAppend(a: seq<Log>, b: seq<Log>)
    ensures Durations(a + b) == Durations(a) + Durations(b)
  {
    var whole, left, right := Durations(a + b), Durations(a), Durations(b);
    forall i | 0 <= i < |whole|
      ensures whole[i] == (left + right)[i]
    {
      if i < |a| {
        assert (a + b)[i] == a[i];
      } else {
        assert (a + b)[i] == b[i - |a|];
      }
    }
  }

  lemma {:induction false} ElapsedAppend(a: seq<int>, b: seq<int>, now: int)
    ensures Elapsed(a + b, now) == Elapsed(a, now) + Elapsed(b, now)
  {
    if a == [] {
      assert a + b == b;
    } else {
      ElapsedAppend(a[1..], b, now);
      assert (a + b)[1..] == a[1..] + b && (a + b)[0] == a[0];
      Text.ConcatAssoc([now - a[0]], Elapsed(a[1..], now), Elapsed(b, now));
    }
  }

  lemma {:induction false} NoneActive(projects: seq<Project>, ask: bool, now: int)
    requires forall i :: 0 <= i < |projects| ==> !IsStarted(projects[i])
    ensures CreateNewLogs(projects, ask, now) == []
  {
    if projects != [] {
      NoneActive(projects[1..], ask, now);
    }
  }

  lemma {:induction false} OneActive(projects: seq<Project>, j: int, ask: bool, now: int)
    requires 0 <= j < |projects| && IsStarted(projects[j])
    requires forall i :: 0 <= i < |projects| && i != j ==> !IsStarted(projects[i])
    ensures CreateNewLogs(projects, ask, now) == [ClosingLog(projects[j], ask, now)]
  {
    if j == 0 {
      NoneActive(projects[1..], ask, now);
    } else {
      OneActive(projects[1..], j - 1, ask, now);
    }
  }

  // ---------------------------------------------------------------------
  // starting and stopping

  /** The record `startProject` stores for the project being started. */
  function StartedProject(project: Project, ask: bool, now: int, answer: Option<string>): Project {
    var activityName := if ask then PromptAnswer(answer) else None;
    project.(startedAt := Some(now), lastActivityName := Some(OrText(activityName, project.name)))
  }

  /** The roster after `startProject(project)`: the project (by slug) is
      replaced by its started record, every other project is stopped. */
  function StartRoster(projects: seq<Project>, project: Project, ask: bool, now: int,
    answer: Option<string>): (r: seq<Project>)
    ensures |r| == |projects|
  {
    seq(|projects|, i requires 0 <= i < |projects| =>
      if projects[i].slug == project.slug then StartedProject(project, ask, now, answer)
      else projects[i].(startedAt := None))
  }

  /** The record `stopProject` stores for the project being stopped. */
  function StoppedProject(project: Project, ask: bool): Project {
    project.(startedAt := None, lastActivityName := if ask then project.lastActivityName else None)
  }

  /** The roster after `stopProject(project)`: the project (by slug) is
      replaced by its stopped record, every other project is unchanged. */
  function StopRoster(projects: seq<Project>, project: Project, ask: bool): (r: seq<Project>)
    ensures |r| == |projects|
  {
    seq(|projects|, i requires 0 <= i < |projects| =>
      if projects[i].slug == project.slug then StoppedProject(project, ask) else projects[i])
  }

  /** The roster after `toggleActiveProject(project)`. */
  function ToggleRoster(projects: seq<Project>, project: Project, ask: bool, now: int,
    answer: Option<string>): seq<Project>
  {
    if IsStarted(project) then StopRoster(projects, project, ask)
    else StartRoster(projects, project, ask, now, answer)
  }

  /** Starting a project leaves it the only one running: a roster entry is
      started exactly when it carries the project's slug, and then it
      started at `now`. Slugs stay where they were; names only change on
      the entries replaced by the started record. */
  lemma StartExclusive(projects: seq<Project>, project: Project, ask: bool, now: int,
    answer: Option<string>)
    ensures var r := StartRoster(projects, project, ask, now, answer);
      forall i :: 0 <= i < |projects| ==>
        r[i].slug == projects[i].slug &&
        (IsStarted(r[i]) <==> projects[i].slug == project.slug) &&
        (IsStarted(r[i]) ==> r[i].startedAt == Some(now) && r[i].name == project.name) &&
        (!IsStarted(r[i]) ==> r[i].name == projects[i].name &&
                              r[i].lastActivityName == projects[i].lastActivityName)
  {
  }

  /** The activity name a start records: in ask mode a non-empty answer to
      the prompt, otherwise (no ask mode, cancelled or empty answer) the
      project's name. */
  lemma StartActivityName(project: Project, ask: bool, now: int, answer: Option<string>)
    ensures StartedProject(project, ask, now, answer).lastActivityName ==
      if ask && TruthyText(answer) then answer else Some(project.name)
  {
  }

  /** Stopping a project stops every entry with its slug and nothing else;
      the entries that stop remember the last activity only in ask mode. */
  lemma StopOnly(projects: seq<Project>, project: Project, ask: bool)
    ensures var r := StopRoster(projects, project, ask);
      forall i :: 0 <= i < |projects| ==>
        r[i].slug == projects[i].slug &&
        (IsStarted(r[i]) <==> IsStarted(projects[i]) && projects[i].slug != project.slug) &&
        (projects[i].slug == project.slug ==>
          r[i].lastActivityName == (if ask then project.lastActivityName else None)) &&
        (projects[i].slug != project.slug ==> r[i] == projects[i])
  {
  }

  /** At most one project of the roster runs. */
  predicate AtMostOneStarted(projects: seq<Project>) {
    forall i, j :: 0 <= i < j < |projects| ==> !(IsStarted(projects[i]) && IsStarted(projects[j]))
  }

  /** With unique slugs, toggling keeps the slugs unique and never leaves
      two projects running: the stop-watch invariant of the roster. */
  lemma ToggleKeepsOneRunning(projects: seq<Project>, project: Project, ask: bool, now: int,
    answer: Option<string>)
    requires UniqueSlugs(projects) && AtMostOneStarted(projects)
    ensures var r := ToggleRoster(projects, project, ask, now, answer);
      |r| == |projects| && UniqueSlugs(r) && AtMostOneStarted(r)
  {
    if IsStarted(project) {
      StopOnly(projects, project, ask);
    } else {
      StartExclusive(projects, project, ask, now, answer);
    }
  }

  /** Starting a stopped project and then stopping it, in a roster where
      nothing ran and slugs are unique, leaves nothing running and adds
      exactly one log: the project's, from the start time to the stop time,
      named after the prompted activity in ask mode and after the project
      otherwise. In ask mode the activity is remembered for the next
      prompt. */
  lemma ToggleTwice(projects: seq<Project>, logs: seq<Log>, j: int, ask: bool,
    t1: int, t2: int, answer: Option<string>)
    requires UniqueSlugs(projects) && 0 <= j < |projects|
    requires forall i :: 0 <= i < |projects| ==> !IsStarted(projects[i])
    ensures var p := projects[j];
      var projects1 := ToggleRoster(projects, p, ask, t1, answer);
      var logs1 := CreateNewLogs(projects, ask, t1) + logs;
      var projects2 := ToggleRoster(projects1, projects1[j], ask, t2, answer);
      var logs2 := CreateNewLogs(projects1, ask, t2) + logs1;
      var activity := if ask && TruthyText(answer) then answer.value else p.name;
      IsStarted(projects1[j]) &&
      (forall i :: 0 <= i < |projects2| ==> !IsStarted(projects2[i])) &&
      logs2 == [Log(p.slug, Interval(t1, t2), activity)] + logs &&
      projects2[j].lastActivityName == (if ask then Some(activity) else None)
  {
    var p := projects[j];
    var projects1 := StartRoster(projects, p, ask, t1, answer);
    StartExclusive(projects, p, ask, t1, answer);
    NoneActive(projects, ask, t1);
    assert CreateNewLogs(projects, ask, t1) + logs == logs;
    OneActive(projects1, j, ask, t2);
    StopOnly(projects1, projects1[j], ask);
  }

  /** A Marketing project (slug "a148-marketing") started at `t` and
      stopped 5000 ms later, without ask mode, leaves a single log of
      5000 ms named "Marketing" and a live total of 5000 ms at any time
      afterwards. */
  lemma MarketingFiveSeconds(t: int, later: int)
    ensures var p := Project(Some("a148-marketing"), "Marketing", None, None);
      var projects1 := ToggleRoster([p], p, false, t, None);
      var logs1 := CreateNewLogs([p], false, t) + [];
      var projects2 := ToggleRoster(projects1, projects1[0], false, t + 5000, None);
      var logs2 := CreateNewLogs(projects1, false, t + 5000) + logs1;
      logs2 == [Log(p.slug, Interval(t, t + 5000), "Marketing")] &&
      LiveTotal(projects2, logs2, later) == 5000
  {
    var p := Project(Some("a148-marketing"), "Marketing", None, None);
    ToggleTwice([p], [], 0, false, t, t + 5000, None);
    var projects1 := ToggleRoster([p], p, false, t, None);
    var projects2 := ToggleRoster(projects1, projects1[0], false, t + 5000, None);
    var l := Log(p.slug, Interval(t, t + 5000), "Marketing");
    assert ProjectLogs([l], p.slug) == [l] by {
      assert [l][..|[l]| - 1] == [];
      assert Group([l], LogSlug, p.slug) == Group([], LogSlug, p.slug) + [l];
    }
    assert projects2[1..] == [];
    assert ProjectsLogs(projects2, [l]) == [l];
    assert Durations([l]) == [5000] by {
      assert [l][1..] == [];
    }
    assert Sum([5000]) == 5000 by {
      assert [5000][1..] == [];
    }
    NoneStarted(projects2);
  }

  // ---------------------------------------------------------------------
  // clearing

  /** Every project with its timer stopped (the roster of `removeAllLogs`
      and of resetting all timers). */
  function StopAll(projects: seq<Project>): (r: seq<Project>)
    ensures |r| == |projects|
  {
    seq(|projects|, i requires 0 <= i < |projects| => projects[i].(startedAt := None))
  }

  /** Stopping every timer keeps each project's slug, name and last
      activity, stops them all, and doing it again changes nothing. */
  lemma StopAllStops(projects: seq<Project>)
    ensures var r := StopAll(projects);
      (forall i :: 0 <= i < |r| ==>
        !IsStarted(r[i]) && r[i].slug == projects[i].slug &&
        r[i].name == projects[i].name && r[i].lastActivityName == projects[i].lastActivityName) &&
      StopAll(r) == r
  {
  }

  lemma {:induction false} ProjectsLogsOfNone(projects: seq<Project>)
    ensures ProjectsLogs(projects, []) == []
  {
    if projects != [] {
      ProjectsLogsOfNone(projects[1..]);
    }
  }

  /** After all logs are removed and every timer stopped, the live total
      of any projects of the roster is zero at every time. */
  lemma ClearedTotal(projects: seq<Project>, now: int)
    ensures LiveTotal(StopAll(projects), [], now) == 0
  {
    ProjectsLogsOfNone(StopAll(projects));
    NoneStarted(StopAll(projects));
  }

  /** The logs of every project but the one with slug `slug`
      (`logs.filter((l) => l.projectSlug !== slug)`). */
  function WithoutLogsOf(logs: seq<Log>, slug: Slug): seq<Log> {
    WithoutSlug(logs, LogSlug, slug)
  }

  /** Filtering a log list extended by one log extends the filtered list by
      that log, unless the log is the project's. */
  lemma WithoutLogsOfSnoc(init: seq<Log>, last: Log, slug: Slug)
    ensures WithoutLogsOf(init + [last], slug) ==
      WithoutLogsOf(init, slug) + (if last.projectSlug != slug then [last] else [])
  {
    WithoutSlugAppend(init, [last], LogSlug, slug);
    assert [last][1..] == [];
  }

  /** Deleting one project's logs empties its group and leaves every other
      project's logs exactly as they were, in order. */
  lemma {:induction false} WithoutLogsOfGroups(logs: seq<Log>, slug: Slug, other: Slug)
    ensures ProjectLogs(WithoutLogsOf(logs, slug), slug) == []
    ensures other != slug ==>
      ProjectLogs(WithoutLogsOf(logs, slug), other) == ProjectLogs(logs, other)
    ensures |WithoutLogsOf(logs, slug)| == |logs| - |ProjectLogs(logs, slug)|
  {
    WithoutLogsOfEmpties(logs, slug);
    if other != slug {
      WithoutLogsOfKeeps(logs, slug, other);
    }
    WithoutLogsOfLength(logs, slug);
  }

  lemma {:induction false} WithoutLogsOfEmpties(logs: seq<Log>, slug: Slug)
    ensures ProjectLogs(WithoutLogsOf(logs, slug), slug) == []
  {
    if logs != [] {
      var init := logs[..|logs| - 1];
      var last := logs[|logs| - 1];
      WithoutLogsOfEmpties(init, slug);
      var w := WithoutLogsOf(init, slug);
      assert init + [last] == logs;
      WithoutLogsOfSnoc(init, last, slug);
      if last.projectSlug != slug {
        GroupAppendOne(w, last, LogSlug, slug);
      } else {
        assert WithoutLogsOf(logs, slug) == w;
      }
    }
  }

  lemma {:induction false} WithoutLogsOfKeeps(logs: seq<Log>, slug: Slug, other: Slug)
    requires other != slug
    ensures ProjectLogs(WithoutLogsOf(logs, slug), other) == ProjectLogs(logs, other)
  {
    if logs != [] {
      var init := logs[..|logs| - 1];
      var last := logs[|logs| - 1];
      WithoutLogsOfKeeps(init, slug, other);
      var w := WithoutLogsOf(init, slug);
      assert init + [last] == logs;
      WithoutLogsOfSnoc(init, last, slug);
      if last.projectSlug != slug {
        GroupAppendOne(w, last, LogSlug, other);
      } else {
        assert WithoutLogsOf(logs, slug) == w;
      }
      GroupAppendOne(init, last, LogSlug, other);
    }
  }

  lemma {:induction false} WithoutLogsOfLength(logs: seq<Log>, slug: Slug)
    ensures |WithoutLogsOf(logs, slug)| == |logs| - |ProjectLogs(logs, slug)|
  {
    if logs != [] {
      var init := logs[..|logs| - 1];
      var last := logs[|logs| - 1];
      WithoutLogsOfLength(init, slug);
      assert init + [last] == logs;
      WithoutLogsOfSnoc(init, last, slug);
      GroupAppendOne(init, last, LogSlug, slug);
    }
  }

  /** The roster of `resetProject`: the project's entries are stopped. */
  function ResetRoster(projects: seq<Project>, slug: Slug): (r: seq<Project>)
    ensures |r| == |projects|
  {
    seq(|projects|, i requires 0 <= i < |projects| =>
      if projects[i].slug == slug then projects[i].(startedAt := None) else projects[i])
  }

  /** A reset stops the entries with the slug and keeps their slug, name
      and last activity; every other entry is left as it was. */
  lemma ResetStopsOnly(projects: seq<Project>, slug: Slug)
    ensures var r := ResetRoster(projects, slug);
      forall i :: 0 <= i < |projects| ==>
        r[i].slug == projects[i].slug && r[i].name == projects[i].name &&
        r[i].lastActivityName == projects[i].lastActivityName &&
        (IsStarted(r[i]) <==> IsStarted(projects[i]) && projects[i].slug != slug) &&
        (projects[i].slug != slug ==> r[i] == projects[i])
  {
  }

  /** After a reset the project shows a live total of zero: its logs are
      gone and its timer is stopped; the other projects are untouched. */
  lemma ResetZeroesProject(projects: seq<Project>, logs: seq<Log>, i: int, now: int)
    requires 0 <= i < |projects|
    ensures var r := ResetRoster(projects, projects[i].slug);
      LiveTotal([r[i]], WithoutLogsOf(logs, projects[i].slug), now) == 0 &&
      forall k :: 0 <= k < |projects| && projects[k].slug != projects[i].slug ==> r[k] == projects[k]
  {
    var r := ResetRoster(projects, projects[i].slug);
    WithoutLogsOfGroups(logs, projects[i].slug, projects[i].slug);
    assert [r[i]][1..] == [];
    assert ProjectsLogs([r[i]], WithoutLogsOf(logs, projects[i].slug)) == [];
    NoneStarted([r[i]]);
  }

  /** The roster of `updateProject`: every entry with the project's slug
      replaced by the new record. */
  function ReplaceBySlug(projects: seq<Project>, project: Project): (r: seq<Project>)
    ensures |r| == |projects|
  {
    seq(|projects|, i requires 0 <= i < |projects| =>
      if projects[i].slug == project.slug then project else projects[i])
  }

  /** An update replaces the entries with the record's slug and no others;
      replacing with the same record again changes nothing. */
  lemma ReplaceBySlugEffect(projects: seq<Project>, project: Project)
    ensures var r := ReplaceBySlug(projects, project);
      (forall i :: 0 <= i < |r| ==>
        (r[i] == project <==> projects[i].slug == project.slug || projects[i] == project) &&
        (projects[i].slug != project.slug ==> r[i] == projects[i])) &&
      ReplaceBySlug(r, project) == r
  {
  }

  // ---------------------------------------------------------------------
  // reordering

  /** `projects.find((p) => p.slug === slug)`: the first entry with the
      slug. */
  function Find(projects: seq<Project>, slug: Slug): (r: Option<Project>)
    ensures r.None? <==> !HasSlug(projects, ProjectSlug, slug)
    ensures r.Some? ==> r.value in projects && r.value.slug == slug
    ensures r.Some? ==> FirstWithSlug(projects, slug, r.value)
  {
    if projects == [] then None
    else if projects[0].slug == slug then Some(projects[0])
    else
      var rest := Find(projects[1..], slug);
      HasSlugTail(projects, slug);
      if rest.Some? then
        FirstWithSlugTail(projects, slug, rest.value);
        rest
      else rest
  }

  lemma HasSlugTail(projects: seq<Project>, slug: Slug)
    requires projects != [] && projects[0].slug != slug
    ensures HasSlug(projects, ProjectSlug, slug) <==> HasSlug(projects[1..], ProjectSlug, slug)
  {
    if HasSlug(projects, ProjectSlug, slug) {
      var i :| 0 <= i < |projects| && ProjectSlug(projects[i]) == slug;
      assert projects[1..][i - 1] == projects[i];
    }
    if HasSlug(projects[1..], ProjectSlug, slug) {
      var i :| 0 <= i < |projects[1..]| && ProjectSlug(projects[1..][i]) == slug;
      assert projects[i + 1] == projects[1..][i];
    }
  }

  lemma FirstWithSlugTail(projects: seq<Project>, slug: Slug, p: Project)
    requires projects != [] && projects[0].slug != slug
    requires FirstWithSlug(projects[1..], slug, p)
    ensures FirstWithSlug(projects, slug, p) && p in projects
  {
    var i :| 0 <= i < |projects[1..]| && projects[1..][i] == p &&
      forall k :: 0 <= k < i ==> projects[1..][k].slug != slug;
    assert projects[i + 1] == p;
    forall k | 0 <= k < i + 1 ensures projects[k].slug != slug {
      if k > 0 { assert projects[k] == projects[1..][k - 1]; }
    }
  }

  /** `p` is the first entry of the roster carrying `slug`. */
  predicate FirstWithSlug(projects: seq<Project>, slug: Slug, p: Project) {
    exists i :: 0 <= i < |projects| && projects[i] == p &&
      forall k :: 0 <= k < i ==> projects[k].slug != slug
  }

  /** The roster of `sortProjects(slugs)`: for each slug in turn the first
      project carrying it; slugs no project carries are skipped. */
  function SortRoster(projects: seq<Project>, slugs: seq<string>): (r: seq<Project>)
    ensures |r| <= |slugs|
    ensures forall i :: 0 <= i < |r| ==> r[i] in projects
  {
    if slugs == [] then []
    else
      var found := Find(projects, Some(slugs[0]));
      (if found.Some? then [found.value] else []) + SortRoster(projects, slugs[1..])
  }

  lemma {:induction false} SortRosterAppend(projects: seq<Project>, a: seq<string>, b: seq<string>)
    ensures SortRoster(projects, a + b) == SortRoster(projects, a) + SortRoster(projects, b)
  {
    if a == [] {
      assert a + b == b;
    } else {
      var ab := a + b;
      assert ab[0] == a[0] && ab[1..] == a[1..] + b;
      SortRosterAppend(projects, a[1..], b);
      var found := Find(projects, Some(a[0]));
      var head := if found.Some? then [found.value] else [];
      calc {
        SortRoster(projects, ab);
        head + SortRoster(projects, a[1..] + b);
        head + (SortRoster(projects, a[1..]) + SortRoster(projects, b));
        (head + SortRoster(projects, a[1..])) + SortRoster(projects, b);
      }
    }
  }

  /** A slug no project carries contributes nothing to the new order. */
  lemma SortRosterSkipsUnknown(projects: seq<Project>, a: seq<string>, s: string, b: seq<string>)
    requires !HasSlug(projects, ProjectSlug, Some(s))
    ensures SortRoster(projects, a + [s] + b) == SortRoster(projects, a + b)
  {
    SortRosterAppend(projects, a + [s], b);
    SortRosterAppend(projects, a, [s]);
    SortRosterAppend(projects, a, b);
    assert SortRoster(projects, [s]) == [] by {
      assert [s][1..] == [];
    }
  }

  /** The slugs of a roster whose slugs are all strings, in order. */
  function SlugTexts(projects: seq<Project>): (r: seq<string>)
    requires forall i :: 0 <= i < |projects| ==> projects[i].slug.Some?
    ensures |r| == |projects|
    ensures forall i :: 0 <= i < |projects| ==> r[i] == projects[i].slug.value
  {
    seq(|projects|, i requires 0 <= i < |projects| => projects[i].slug.value)
  }

  lemma FindUnique(projects: seq<Project>, p: Project)
    requires UniqueSlugs(projects) && p in projects
    ensures Find(projects, p.slug) == Some(p)
  {
    var j :| 0 <= j < |projects| && projects[j] == p;
    assert HasSlug(projects, ProjectSlug, p.slug) by {
      assert ProjectSlug(projects[j]) == p.slug;
    }
    var r := Find(projects, p.slug);
    var i :| 0 <= i < |projects| && projects[i] == r.value;
    assert projects[i].slug == projects[j].slug;
  }

  lemma {:induction false} SortRosterOfMembers(projects: seq<Project>, q: seq<Project>)
    requires UniqueSlugs(projects)
    requires forall i :: 0 <= i < |q| ==> q[i] in projects && q[i].slug.Some?
    ensures SortRoster(projects, SlugTexts(q)) == q
  {
    if q != [] {
      FindUnique(projects, q[0]);
      assert SlugTexts(q)[1..] == SlugTexts(q[1..]);
      SortRosterOfMembers(projects, q[1..]);
    }
  }

  /** Sorting a roster with unique string slugs by its own order of slugs
      gives back the same roster. */
  lemma SortByOwnOrder(projects: seq<Project>)
    requires UniqueSlugs(projects)
    requires forall i :: 0 <= i < |projects| ==> projects[i].slug.Some?
    ensures SortRoster(projects, SlugTexts(projects)) == projects
  {
    SortRosterOfMembers(projects, projects);
  }

  // ---------------------------------------------------------------------
  // the store

  /** The persisted state: the roster, the logs (newest first) and the
      ask-for-activity-name preference. `now` is the clock reading
      (`Date.now()`) of the handler; `answer` is the prompt's result
      (`None` for a cancelled prompt). */
  class Store {
    var projects: seq<Project>
    var logs: seq<Log>
    var shouldAskForActivityName: bool

    /** The defaults of the three stored values. */
    constructor ()
      ensures projects == [] && logs == [] && !shouldAskForActivityName
    {
      projects := [];
      logs := [];
      shouldAskForActivityName := false;
    }

    method SetShouldAskForActivityName(ask: bool)
      modifies this
      ensures shouldAskForActivityName == ask
      ensures projects == old(projects) && logs == old(logs)
    {
      shouldAskForActivityName := ask;
    }

    /** `getProjectLogs(project)`: the group of the project's slug in the
        grouping of all logs, or nothing. */
    method GetProjectLogs(project: Project) returns (r: seq<Log>)
      ensures r == ProjectLogs(logs, project.slug)
    {
      r := LookupProjectLogs(logs, project.slug);
    }

    method StartProject(project: Project, now: int, answer: Option<string>)
      modifies this
      ensures logs == CreateNewLogs(old(projects), shouldAskForActivityName, now) + old(logs)
      ensures projects == StartRoster(old(projects), project, shouldAskForActivityName, now, answer)
      ensures shouldAskForActivityName == old(shouldAskForActivityName)
    {
      logs := CreateNewLogs(projects, shouldAskForActivityName, now) + logs;
      projects := StartRoster(projects, project, shouldAskForActivityName, now, answer);
    }

    method StopProject(project: Project, now: int)
      requires IsStarted(project)
      modifies this
      ensures logs == CreateNewLogs(old(projects), shouldAskForActivityName, now) + old(logs)
      ensures projects == StopRoster(old(projects), project, shouldAskForActivityName)
      ensures shouldAskForActivityName == old(shouldAskForActivityName)
    {
      logs := CreateNewLogs(projects, shouldAskForActivityName, now) + logs;
      projects := StopRoster(projects, project, shouldAskForActivityName);
    }

    method ToggleActiveProject(project: Project, now: int, answer: Option<string>)
      modifies this
      ensures logs == CreateNewLogs(old(projects), shouldAskForActivityName, now) + old(logs)
      ensures projects == ToggleRoster(old(projects), project, shouldAskForActivityName, now, answer)
      ensures shouldAskForActivityName == old(shouldAskForActivityName)
    {
      if IsStarted(project) {
        StopProject(project, now);
      } else {
        StartProject(project, now, answer);
      }
    }

    method AddProject(project: Project)
      modifies this
      ensures projects == [project] + old(projects)
      ensures logs == old(logs) && shouldAskForActivityName == old(shouldAskForActivityName)
    {
      projects := [project] + projects;
    }

    method RemoveAllProjectsAndLogs()
      modifies this
      ensures projects == [] && logs == []
      ensures shouldAskForActivityName == old(shouldAskForActivityName)
    {
      projects := [];
      logs := [];
    }

    method RemoveAllLogs()
      modifies this
      ensures projects == StopAll(old(projects)) && logs == []
      ensures shouldAskForActivityName == old(shouldAskForActivityName)
    {
      projects := StopAll(projects);
      logs := [];
    }

    method AddProjects(newProjects: seq<Project>)
      modifies this
      ensures projects == AppendUnseen(old(projects), newProjects, ProjectSlug)
      ensures logs == old(logs) && shouldAskForActivityName == old(shouldAskForActivityName)
    {
      projects := AppendUnseen(projects, newProjects, ProjectSlug);
    }

    method ResetProject(project: Project)
      modifies this
      ensures projects == ResetRoster(old(projects), project.slug)
      ensures logs == WithoutLogsOf(old(logs), project.slug)
      ensures shouldAskForActivityName == old(shouldAskForActivityName)
    {
      projects := ResetRoster(projects, project.slug);
      logs := WithoutLogsOf(logs, project.slug);
    }

    method RemoveProject(project: Project)
      modifies this
      ensures projects == WithoutSlug(old(projects), ProjectSlug, project.slug)
      ensures logs == WithoutLogsOf(old(logs), project.slug)
      ensures shouldAskForActivityName == old(shouldAskForActivityName)
    {
      projects := WithoutSlug(projects, ProjectSlug, project.slug);
      logs := WithoutLogsOf(logs, project.slug);
    }

    method UpdateProject(project: Project)
      modifies this
      ensures projects == ReplaceBySlug(old(projects), project)
      ensures logs == old(logs) && shouldAskForActivityName == old(shouldAskForActivityName)
    {
      projects := ReplaceBySlug(projects, project);
    }

    method SortProjects(slugs: seq<string>)
      modifies this
      ensures projects == SortRoster(old(projects), slugs)
      ensures logs == old(logs) && shouldAskForActivityName == old(shouldAskForActivityName)
    {
      projects := SortRoster(projects, slugs);
    }
  }
}
