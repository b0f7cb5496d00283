/** The earlier version of the tracker, in which every project carries its
    own list of closed time entries (`times`) and the whole state is the
    project roster. */
module LegacyApp {
  import opened Types
  import opened Utils
  import opened ImportText
  import Text

  /** A closed time entry of the earlier format. */
  datatype Time = Time(startedAt: int, endedAt: int, activityName: string)

  /** A project of the earlier format. */
  datatype LegacyProject = LegacyProject(
    slug: Slug,
    name: string,
    startedAt: Option<int>,
    lastActivityName: Option<string>,
    times: seq<Time>)

  function LegacySlug(p: LegacyProject): Slug {
    p.slug
  }

  // ---------------------------------------------------------------------
  // toggling

  /** What `toggleActiveProject(clicked)` does to one roster entry `e`. A
      running entry (truthy `startedAt`) is closed into a new time entry;
      in ask mode the entry is named after its last activity or, failing
      that, after the clicked project. Otherwise the entry with the
      clicked slug is started, with the prompt's answer as its activity in
      ask mode. Every other entry is left alone. */
  function ToggleEntry(e: LegacyProject, clicked: LegacyProject, ask: bool, now: int,
    answer: Option<string>): LegacyProject
  {
    if Truthy(e.startedAt) then
      var t := Time(e.startedAt.value, now,
        if ask then OrText(e.lastActivityName, clicked.name) else e.name);
      e.(times := e.times + [t], startedAt := None,
        lastActivityName := if ask then e.lastActivityName else None)
    else if e.slug == clicked.slug then
      e.(startedAt := Some(now), lastActivityName := if ask then PromptAnswer(answer) else None)
    else e
  }

  /** The roster after `toggleActiveProject(clicked)`. The prompt is shown
      for each entry being started; one answer stands for all of them. */
  function ToggleRoster(projects: seq<LegacyProject>, clicked: LegacyProject, ask: bool, now: int,
    answer: Option<string>): (r: seq<LegacyProject>)
    ensures |r| == |projects|
  {
    seq(|projects|, i requires 0 <= i < |projects| =>
      ToggleEntry(projects[i], clicked, ask, now, answer))
  }

  /** Every running entry gains exactly one time entry, from its start to
      `now`, and stops; entries that were not running keep their times, and
      those without the clicked slug are returned unchanged. Slugs, names
      and the order of the roster are kept. */
  lemma ToggleCloses(projects: seq<LegacyProject>, clicked: LegacyProject, ask: bool, now: int,
    answer: Option<string>)
    ensures var r := ToggleRoster(projects, clicked, ask, now, answer);
      forall i :: 0 <= i < |projects| ==>
        r[i].slug == projects[i].slug && r[i].name == projects[i].name &&
        (Truthy(projects[i].startedAt) ==>
          |r[i].times| == |projects[i].times| + 1 &&
          r[i].times[..|projects[i].times|] == projects[i].times &&
          r[i].times[|projects[i].times|].startedAt == projects[i].startedAt.value &&
          r[i].times[|projects[i].times|].endedAt == now &&
          r[i].startedAt.None?) &&
        (!Truthy(projects[i].startedAt) ==> r[i].times == projects[i].times) &&
        (!Truthy(projects[i].startedAt) && projects[i].slug != clicked.slug ==> r[i] == projects[i])
  {
  }

  /** An entry ends up running (truthy `startedAt`, for a clock reading
      `now` other than 0) exactly when it carries the clicked slug and was
      not running, and then it started at `now`. So clicking the running
      project stops it and clicking a stopped one starts it. */
  lemma ToggleStartsClicked(projects: seq<LegacyProject>, clicked: LegacyProject, ask: bool,
    now: int, answer: Option<string>)
    requires now != 0
    ensures var r := ToggleRoster(projects, clicked, ask, now, answer);
      forall i :: 0 <= i < |projects| ==>
        (Truthy(r[i].startedAt) <==> projects[i].slug == clicked.slug && !Truthy(projects[i].startedAt)) &&
        (Truthy(r[i].startedAt) ==> r[i].startedAt == Some(now))
  {
  }

  /** With unique slugs (and a clock reading other than 0) at most one
      project runs after a toggle, whatever ran before. */
  lemma ToggleKeepsOneRunning(projects: seq<LegacyProject>, clicked: LegacyProject, ask: bool,
    now: int, answer: Option<string>)
    requires now != 0
    requires forall i, k :: 0 <= i < k < |projects| ==> projects[i].slug != projects[k].slug
    ensures var r := ToggleRoster(projects, clicked, ask, now, answer);
      forall i, k :: 0 <= i < k < |r| ==> !(Truthy(r[i].startedAt) && Truthy(r[k].startedAt))
  {
    ToggleStartsClicked(projects, clicked, ask, now, answer);
  }

  /** The name of a closed time entry: the project's own name outside ask
      mode; in ask mode its last activity, or the clicked project's name
      when there is none, even if the clicked project is another one. The
      last activity survives the stop only in ask mode. */
  lemma ClosedEntryName(e: LegacyProject, clicked: LegacyProject, ask: bool, now: int,
    answer: Option<string>)
    requires Truthy(e.startedAt)
    ensures var r := ToggleEntry(e, clicked, ask, now, answer);
      var t := r.times[|r.times| - 1];
      (!ask ==> t.activityName == e.name && r.lastActivityName.None?) &&
      (ask && TruthyText(e.lastActivityName) ==> t.activityName == e.lastActivityName.value) &&
      (ask && !TruthyText(e.lastActivityName) ==> t.activityName == clicked.name) &&
      (ask ==> r.lastActivityName == e.lastActivityName)
  {
  }

  /** Clicking a stopped project twice in a roster where nothing runs and
      slugs are unique adds one time entry to it, from the first click to
      the second, named after the prompted activity in ask mode and after
      the project otherwise; everything is stopped again and no other
      project changes. */
  lemma ToggleTwice(projects: seq<LegacyProject>, j: int, ask: bool, t1: int, t2: int,
    answer: Option<string>)
    requires 0 <= j < |projects| && t1 != 0
    requires forall i, k :: 0 <= i < k < |projects| ==> projects[i].slug != projects[k].slug
    requires forall i :: 0 <= i < |projects| ==> !Truthy(projects[i].startedAt)
    ensures var p := projects[j];
      var r1 := ToggleRoster(projects, p, ask, t1, answer);
      var r2 := ToggleRoster(r1, r1[j], ask, t2, answer);
      (forall i :: 0 <= i < |projects| ==> !Truthy(r2[i].startedAt)) &&
      var activity := if ask then OrText(PromptAnswer(answer), p.name) else p.name;
      r2[j].times == p.times + [Time(t1, t2, activity)] &&
      (forall i :: 0 <= i < |projects| && i != j ==> r2[i] == r1[i] == projects[i])
  {
    var p := projects[j];
    var r1 := ToggleRoster(projects, p, ask, t1, answer);
    assert r1[j].startedAt == Some(t1);
    var r2 := ToggleRoster(r1, r1[j], ask, t2, answer);
  }

  // ---------------------------------------------------------------------
  // removing and resetting

  /** Removing keeps the other entries in their order: removing a slug no
      entry has changes nothing. */
  lemma {:induction false} RemoveAbsentSlug(projects: seq<LegacyProject>, slug: Slug)
    requires forall i :: 0 <= i < |projects| ==> projects[i].slug != slug
    ensures WithoutSlug(projects, LegacySlug, slug) == projects
  {
    if projects != [] {
      RemoveAbsentSlug(projects[1..], slug);
    }
  }

  /** A project with its timer stopped and no time entries. */
  function Cleared(p: LegacyProject): (r: LegacyProject)
    ensures r.slug == p.slug && r.name == p.name && r.lastActivityName == p.lastActivityName
    ensures r.times == [] && r.startedAt.None?
  {
    p.(times := [], startedAt := None)
  }

  /** The roster of `resetProject`: the entries with the slug cleared. */
  function ResetSlug(projects: seq<LegacyProject>, slug: Slug): (r: seq<LegacyProject>)
    ensures |r| == |projects|
    ensures forall i :: 0 <= i < |r| ==>
      r[i].slug == projects[i].slug && r[i].name == projects[i].name &&
      (projects[i].slug == slug ==> r[i].times == [] && r[i].startedAt.None?) &&
      (projects[i].slug != slug ==> r[i] == projects[i])
  {
    seq(|projects|, i requires 0 <= i < |projects| =>
      if projects[i].slug == slug then Cleared(projects[i]) else projects[i])
  }

  /** The roster of a confirmed `onResetTimers`: every entry cleared. */
  function ClearAll(projects: seq<LegacyProject>): (r: seq<LegacyProject>)
    ensures |r| == |projects|
  {
    seq(|projects|, i requires 0 <= i < |projects| => Cleared(projects[i]))
  }

  /** Resetting all timers is resetting every project in turn, and doing it
      twice is doing it once. */
  lemma ClearAllIsEveryReset(projects: seq<LegacyProject>)
    ensures forall i :: 0 <= i < |projects| ==>
      ClearAll(projects)[i] == ResetSlug(projects, projects[i].slug)[i]
    ensures ClearAll(ClearAll(projects)) == ClearAll(projects)
  {
  }

  // ---------------------------------------------------------------------
  // import

  /** The record `onImport` builds for a parsed line: no timer, no times. */
  function ImportedProject(e: Entry): LegacyProject {
    LegacyProject(e.slug, e.name, None, None, [])
  }

  function ImportedProjects(entries: seq<Entry>): (r: seq<LegacyProject>)
    ensures |r| == |entries|
    ensures forall i :: 0 <= i < |r| ==> r[i].slug == entries[i].slug && r[i].name == entries[i].name
  {
    seq(|entries|, i requires 0 <= i < |entries| => ImportedProject(entries[i]))
  }

  /** The roster after `onImport` with the prompt's text (`None` when
      cancelled): unchanged for a cancelled or empty text, otherwise the
      roster followed by the imported projects whose slug it lacks. */
  function ImportRoster(projects: seq<LegacyProject>, text: Option<string>): seq<LegacyProject> {
    if !TruthyText(text) then projects
    else AppendUnseen(projects, ImportedProjects(ParseImport(text.value)), LegacySlug)
  }

  /** An import keeps the roster as a prefix and adds only stopped
      projects without time entries whose slugs the roster lacked;
      importing the same text again adds nothing. */
  lemma ImportEffect(projects: seq<LegacyProject>, text: Option<string>)
    ensures var r := ImportRoster(projects, text);
      projects <= r &&
      (forall i :: |projects| <= i < |r| ==>
        r[i].startedAt.None? && r[i].times == [] && !HasSlug(projects, LegacySlug, r[i].slug)) &&
      ImportRoster(r, text) == r
  {
    if TruthyText(text) {
      var incoming := ImportedProjects(ParseImport(text.value));
      var r := AppendUnseen(projects, incoming, LegacySlug);
      var added := Unseen(projects, incoming, LegacySlug);
      assert r == projects + added;
      forall i | |projects| <= i < |r|
        ensures r[i].startedAt.None? && r[i].times == [] && !HasSlug(projects, LegacySlug, r[i].slug)
      {
        var x := added[i - |projects|];
        UnseenExactly(projects, incoming, LegacySlug, x);
        assert x in multiset(incoming) by {
          assert x in added;
        }
      }
      AppendUnseenIdempotent(projects, incoming, LegacySlug);
    }
  }

  // ---------------------------------------------------------------------
  // export

  /** A project appears in the export when it has time entries or a
      running timer. */
  predicate Exported(p: LegacyProject) {
    |p.times| > 0 || Truthy(p.startedAt)
  }

  /** The durations of an exported project: its time entries, then the
      running time up to `now` when its timer runs. */
  function ExportDurations(p: LegacyProject, now: int): (r: seq<int>)
    ensures |r| == |p.times| + (if Truthy(p.startedAt) then 1 else 0)
    ensures forall i :: 0 <= i < |p.times| ==> r[i] == p.times[i].endedAt - p.times[i].startedAt
    ensures Truthy(p.startedAt) ==> r[|r| - 1] == now - p.startedAt.value
  {
    var closed := seq(|p.times|, i requires 0 <= i < |p.times| => p.times[i].endedAt - p.times[i].startedAt);
    if Truthy(p.startedAt) then closed + [now - p.startedAt.value] else closed
  }

  /** The figures of the export, one row per exported project in roster
      order. */
  function ExportRows(projects: seq<LegacyProject>, now: int): (r: seq<ExportRow>)
    ensures |r| <= |projects|
  {
    if projects == [] then []
    else
      var p := projects[0];
      var head := if Exported(p) then [ExportRow(p.slug, p.name, TotalMinutes(ExportDurations(p, now)))] else [];
      head + ExportRows(projects[1..], now)
  }

  /** The export has one row for each exported project and none for the
      others, in roster order: the rows of a roster are the rows of its
      parts. */
  lemma {:induction false} ExportRowsAppend(a: seq<LegacyProject>, b: seq<LegacyProject>, now: int)
    ensures ExportRows(a + b, now) == ExportRows(a, now) + ExportRows(b, now)
  {
    if a == [] {
      assert a + b == b;
    } else {
      var ab := a + b;
      assert ab[0] == a[0] && ab[1..] == a[1..] + b;
      ExportRowsAppend(a[1..], b, now);
      var p := a[0];
      var head := if Exported(p) then [ExportRow(p.slug, p.name, TotalMinutes(ExportDurations(p, now)))] else [];
      Text.ConcatAssoc(head, ExportRows(a[1..], now), ExportRows(b, now));
    }
  }

  /** A single project's row: present exactly when it has time entries or
      runs, and then it reports the least whole number of minutes covering
      its closed and running time. */
  lemma ExportRowOfOne(p: LegacyProject, now: int)
    ensures |ExportRows([p], now)| == (if Exported(p) then 1 else 0)
    ensures Exported(p) ==>
      var row := ExportRows([p], now)[0];
      row.slug == p.slug && row.name == p.name &&
      (row.minutes - 1) * 60000 < Sum(ExportDurations(p, now)) <= row.minutes * 60000
  {
    assert [p][1..] == [];
  }

  // ---------------------------------------------------------------------
  // the store

  /** The persisted state of the earlier version. `now` is the handler's
      clock reading, `answer` the prompt's result and `confirmed` the
      answer to a confirmation dialog. */
  class LegacyStore {
    var projects: seq<LegacyProject>
    var shouldAskForActivityName: bool

    constructor (initial: seq<LegacyProject>)
      ensures projects == initial && !shouldAskForActivityName
    {
      projects := initial;
      shouldAskForActivityName := false;
    }

    method ToggleActiveProject(clicked: LegacyProject, now: int, answer: Option<string>)
      modifies this
      ensures projects == ToggleRoster(old(projects), clicked, shouldAskForActivityName, now, answer)
      ensures shouldAskForActivityName == old(shouldAskForActivityName)
    {
      projects := ToggleRoster(projects, clicked, shouldAskForActivityName, now, answer);
    }

    method RemoveProject(project: LegacyProject)
      modifies this
      ensures projects == WithoutSlug(old(projects), LegacySlug, project.slug)
      ensures shouldAskForActivityName == old(shouldAskForActivityName)
    {
      projects := WithoutSlug(projects, LegacySlug, project.slug);
    }

    method ResetProject(project: LegacyProject)
      modifies this
      ensures projects == ResetSlug(old(projects), project.slug)
      ensures shouldAskForActivityName == old(shouldAskForActivityName)
    {
      projects := ResetSlug(projects, project.slug);
    }

    method OnResetTimers(confirmed: bool)
      modifies this
      ensures projects == if confirmed then ClearAll(old(projects)) else old(projects)
      ensures shouldAskForActivityName == old(shouldAskForActivityName)
    {
      if confirmed {
        projects := ClearAll(projects);
      }
    }

    method OnFullReset(confirmed: bool)
      modifies this
      ensures projects == if confirmed then [] else old(projects)
      ensures shouldAskForActivityName == old(shouldAskForActivityName)
    {
      if confirmed {
        projects := [];
      }
    }

    method OnImport(text: Option<string>)
      modifies this
      ensures projects == ImportRoster(old(projects), text)
      ensures shouldAskForActivityName == old(shouldAskForActivityName)
    {
      if TruthyText(text) {
        projects := AppendUnseen(projects, ImportedProjects(ParseImport(text.value)), LegacySlug);
      }
    }
  }
}
