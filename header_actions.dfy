/** The header buttons of the current version: full reset, reset of all
    timers, import of a pasted project listing and the export figures,
    acting on the store of projects and logs. */
module HeaderActions {
  import opened Types
  import opened Utils
  import opened ImportText
  import opened DataProvider

  /** The record the importer builds for a parsed line (`{ slug, name }`). */
  function ImportedProject(e: Entry): Project {
    Project(e.slug, e.name, None, None)
  }

  function ImportedProjects(entries: seq<Entry>): (r: seq<Project>)
    ensures |r| == |entries|
    ensures forall i :: 0 <= i < |r| ==>
      r[i].slug == entries[i].slug && r[i].name == entries[i].name && !IsStarted(r[i])
  {
    seq(|entries|, i requires 0 <= i < |entries| => ImportedProject(entries[i]))
  }

  /** The roster after `onImport` with the prompt's text (`None` when
      cancelled): unchanged for a cancelled or empty text, otherwise the
      roster followed by the parsed projects whose slug it lacks. */
  function ImportRoster(projects: seq<Project>, text: Option<string>): seq<Project> {
    if !TruthyText(text) then projects
    else AppendUnseen(projects, ImportedProjects(ParseImport(text.value)), ProjectSlug)
  }

  /** An import keeps the roster as a prefix and adds only stopped
      projects with slugs the roster lacked; importing the same text again
      adds nothing. */
  lemma ImportEffect(projects: seq<Project>, text: Option<string>)
    ensures var r := ImportRoster(projects, text);
      projects <= r &&
      (forall i :: |projects| <= i < |r| ==>
        !IsStarted(r[i]) && !HasSlug(projects, ProjectSlug, r[i].slug)) &&
      ImportRoster(r, text) == r
  {
    if TruthyText(text) {
      var incoming := ImportedProjects(ParseImport(text.value));
      var r := AppendUnseen(projects, incoming, ProjectSlug);
      var added := Unseen(projects, incoming, ProjectSlug);
      assert r == projects + added;
      forall i | |projects| <= i < |r|
        ensures !IsStarted(r[i]) && !HasSlug(projects, ProjectSlug, r[i].slug)
      {
        var x := added[i - |projects|];
        UnseenExactly(projects, incoming, ProjectSlug, x);
        assert x in multiset(incoming) by {
          assert x in added;
        }
      }
      AppendUnseenIdempotent(projects, incoming, ProjectSlug);
    }
  }

  /** The durations `onExport` collects for a project: those of its logs
      (as the two-argument `getProjectLogs` helper selects them, by slug),
      then its running time up to `now` when its timer runs. */
  function ExportDurations(p: Project, logs: seq<Log>, now: int): (r: seq<int>)
    ensures |r| == |ProjectLogs(logs, p.slug)| + (if Truthy(p.startedAt) then 1 else 0)
    ensures r[..|ProjectLogs(logs, p.slug)|] == Durations(ProjectLogs(logs, p.slug))
    ensures forall i :: 0 <= i < |ProjectLogs(logs, p.slug)| ==> r[i] == Duration(ProjectLogs(logs, p.slug)[i])
    ensures Truthy(p.startedAt) ==> r[|r| - 1] == now - p.startedAt.value
  {
    var closed := Durations(ProjectLogs(logs, p.slug));
    if Truthy(p.startedAt) then closed + [now - p.startedAt.value] else closed
  }

  /** The figures of the export: a row for each project with a non-empty
      list of durations, in roster order. */
  function ExportRows(projects: seq<Project>, logs: seq<Log>, now: int): (r: seq<ExportRow>)
    ensures |r| <= |projects|
  {
    if projects == [] then []
    else
      var p := projects[0];
      var durations := ExportDurations(p, logs, now);
      var head := if |durations| > 0 then [ExportRow(p.slug, p.name, TotalMinutes(durations))] else [];
      head + ExportRows(projects[1..], logs, now)
  }

  lemma {:induction false} ExportRowsAppend(a: seq<Project>, b: seq<Project>, logs: seq<Log>, now: int)
    ensures ExportRows(a + b, logs, now) == ExportRows(a, logs, now) + ExportRows(b, logs, now)
  {
    if a == [] {
      assert a + b == b;
    } else {
      var ab := a + b;
      assert ab[0] == a[0] && ab[1..] == a[1..] + b;
      ExportRowsAppend(a[1..], b, logs, now);
    }
  }

  /** A project is exported exactly when it has logs or a running timer;
      its row reports the least whole number of minutes covering the
      durations of its logs plus, only while it runs, `now - startedAt`. */
  lemma ExportRowOfOne(p: Project, logs: seq<Log>, now: int)
    ensures var exported := |ProjectLogs(logs, p.slug)| > 0 || Truthy(p.startedAt);
      |ExportRows([p], logs, now)| == (if exported then 1 else 0) &&
      (exported ==>
        var row := ExportRows([p], logs, now)[0];
        var total := Sum(Durations(ProjectLogs(logs, p.slug))) +
          (if Truthy(p.startedAt) then now - p.startedAt.value else 0);
        row.slug == p.slug && row.name == p.name &&
        (row.minutes - 1) * 60000 < total <= row.minutes * 60000)
  {
    assert [p][1..] == [];
    var closed := Durations(ProjectLogs(logs, p.slug));
    if Truthy(p.startedAt) {
      SumAppend(closed, [now - p.startedAt.value]);
      assert Sum([now - p.startedAt.value]) == now - p.startedAt.value by {
        assert [now - p.startedAt.value][1..] == [];
      }
    }
  }

  /** A confirmed full reset empties the roster and keeps the logs; a
      declined one changes nothing. */
  method OnFullReset(store: Store, confirmed: bool)
    modifies store
    ensures store.projects == if confirmed then [] else old(store.projects)
    ensures store.logs == old(store.logs)
    ensures store.shouldAskForActivityName == old(store.shouldAskForActivityName)
  {
    if confirmed {
      store.projects := [];
    }
  }

  /** A confirmed reset of the timers stops every project and removes all
      logs; a declined one changes nothing. */
  method OnResetTimers(store: Store, confirmed: bool)
    modifies store
    ensures store.projects == if confirmed then StopAll(old(store.projects)) else old(store.projects)
    ensures store.logs == if confirmed then [] else old(store.logs)
    ensures store.shouldAskForActivityName == old(store.shouldAskForActivityName)
  {
    if confirmed {
      store.projects := StopAll(store.projects);
      store.logs := [];
    }
  }

  method OnImport(store: Store, text: Option<string>)
    modifies store
    ensures store.projects == ImportRoster(old(store.projects), text)
    ensures store.logs == old(store.logs)
    ensures store.shouldAskForActivityName == old(store.shouldAskForActivityName)
  {
    if TruthyText(text) {
      var entries := ParseImport(text.value);
      store.projects := AppendUnseen(store.projects, ImportedProjects(entries), ProjectSlug);
    }
  }
}
