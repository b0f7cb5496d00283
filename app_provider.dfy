/** The provider that moved the tracker from time entries embedded in each
    project to a separate list of logs: the one-off migration of the old
    entries, the stripping of the old field on every roster write, and the
    lookup of a project's logs. */
module AppProvider {
  import opened Types
  import opened Utils

  /** A time entry of the old format, with its own copy of the slug. */
  datatype OldTime = OldTime(projectSlug: Slug, activityName: string, startedAt: int, endedAt: int)

  /** A project that may still carry old time entries (`times` absent is
      `undefined`). */
  datatype OldProject = OldProject(
    slug: Slug,
    name: string,
    startedAt: Option<int>,
    lastActivityName: Option<string>,
    times: Option<seq<OldTime>>)

  // ---------------------------------------------------------------------
  // flattening

  /** The entries of one project as the migration restates them: the slug
      is the project's, and an empty activity name becomes the project's
      name. */
  function Adopt(p: OldProject, t: OldTime): OldTime {
    t.(projectSlug := p.slug, activityName := if t.activityName != "" then t.activityName else p.name)
  }

  function ProjectTimes(p: OldProject): (r: seq<OldTime>)
    ensures |r| == |p.times.GetOr([])|
  {
    var ts := p.times.GetOr([]);
    seq(|ts|, i requires 0 <= i < |ts| => Adopt(p, ts[i]))
  }

  /** `projects.flatMap(...)`: every project's adopted entries, project by
      project. */
  function Flatten(projects: seq<OldProject>): seq<OldTime> {
    if projects == [] then [] else ProjectTimes(projects[0]) + Flatten(projects[1..])
  }

  /** The number of old entries across the roster. */
  function EntryCount(projects: seq<OldProject>): nat {
    if projects == [] then 0 else |projects[0].times.GetOr([])| + EntryCount(projects[1..])
  }

  /** `t` is the adopted form of an old entry of some project of the
      roster. */
  predicate AdoptedFrom(projects: seq<OldProject>, t: OldTime) {
    exists j, k :: 0 <= j < |projects| && 0 <= k < |projects[j].times.GetOr([])| &&
      t == Adopt(projects[j], projects[j].times.GetOr([])[k])
  }

  /** There is one flattened entry per old entry, and each is the adopted
      form of an old entry of the roster. */
  lemma {:induction false} FlattenEntries(projects: seq<OldProject>)
    ensures |Flatten(projects)| == EntryCount(projects)
    ensures forall t :: t in Flatten(projects) ==> AdoptedFrom(projects, t)
  {
    FlattenLength(projects);
    FlattenAdopted(projects);
  }

  /** Entry `k` of project `j` sits in the flattened list right after the
      entries of the projects before it. */
  lemma {:induction false} FlattenAt(projects: seq<OldProject>, j: nat, k: nat)
    requires j < |projects| && k < |projects[j].times.GetOr([])|
    ensures EntryCount(projects[..j]) + k < |Flatten(projects)|
    ensures Flatten(projects)[EntryCount(projects[..j]) + k] == Adopt(projects[j], projects[j].times.GetOr([])[k])
  {
    FlattenLength(projects[1..]);
    var head, tail := ProjectTimes(projects[0]), Flatten(projects[1..]);
    assert Flatten(projects) == head + tail;
    if j == 0 {
      assert projects[..0] == [];
    } else {
      var rest := projects[1..];
      FlattenAt(rest, j - 1, k);
      var prefix := projects[..j];
      assert prefix[0] == projects[0] && prefix[1..] == rest[..j - 1];
      assert rest[j - 1] == projects[j];
      var before := EntryCount(rest[..j - 1]);
      assert EntryCount(prefix) == |head| + before;
      assert (head + tail)[|head| + before + k] == tail[before + k];
    }
  }

  /** Every old entry of the roster reaches the flattened list. */
  lemma FlattenComplete(projects: seq<OldProject>)
    ensures forall j, k :: 0 <= j < |projects| && 0 <= k < |projects[j].times.GetOr([])| ==>
      Adopt(projects[j], projects[j].times.GetOr([])[k]) in Flatten(projects)
  {
    forall j, k | 0 <= j < |projects| && 0 <= k < |projects[j].times.GetOr([])|
      ensures Adopt(projects[j], projects[j].times.GetOr([])[k]) in Flatten(projects)
    {
      FlattenAt(projects, j, k);
    }
  }

  lemma {:induction false} FlattenLength(projects: seq<OldProject>)
    ensures |Flatten(projects)| == EntryCount(projects)
  {
    if projects != [] {
      FlattenLength(projects[1..]);
    }
  }

  lemma {:induction false} FlattenAdopted(projects: seq<OldProject>)
    ensures forall t :: t in Flatten(projects) ==> AdoptedFrom(projects, t)
  {
    if projects != [] {
      FlattenAdopted(projects[1..]);
      forall t | t in Flatten(projects) ensures AdoptedFrom(projects, t) {
        if t in ProjectTimes(projects[0]) {
          AdoptedHead(projects, t);
        } else {
          assert t in Flatten(projects[1..]);
          AdoptedTail(projects, t);
        }
      }
    }
  }

  lemma AdoptedHead(projects: seq<OldProject>, t: OldTime)
    requires projects != [] && t in ProjectTimes(projects[0])
    ensures AdoptedFrom(projects, t)
  {
    var k :| 0 <= k < |ProjectTimes(projects[0])| && ProjectTimes(projects[0])[k] == t;
    assert t == Adopt(projects[0], projects[0].times.GetOr([])[k]);
  }

  lemma AdoptedTail(projects: seq<OldProject>, t: OldTime)
    requires projects != [] && AdoptedFrom(projects[1..], t)
    ensures AdoptedFrom(projects, t)
  {
    var j, k :| 0 <= j < |projects[1..]| && 0 <= k < |projects[1..][j].times.GetOr([])| &&
      t == Adopt(projects[1..][j], projects[1..][j].times.GetOr([])[k]);
    assert projects[1..][j] == projects[j + 1];
  }

  // ---------------------------------------------------------------------
  // sorting by end time, latest first

  /** Ordered by `endedAt`, latest first. */
  predicate SortedByEnd(ts: seq<OldTime>) {
    forall i, j :: 0 <= i < j < |ts| ==> ts[i].endedAt >= ts[j].endedAt
  }

  /** Inserts `x` into a list sorted latest first, ahead of every entry
      that ends no later than it. */
  function Insert(x: OldTime, ts: seq<OldTime>): seq<OldTime> {
    if ts == [] || ts[0].endedAt <= x.endedAt then [x] + ts
    else [ts[0]] + Insert(x, ts[1..])
  }

  /** `sort((t1, t2) => t2.endedAt - t1.endedAt)`: the stable sort, latest
      end first, written as an insertion sort. */
  function SortByEnd(ts: seq<OldTime>): seq<OldTime> {
    if ts == [] then [] else Insert(ts[0], SortByEnd(ts[1..]))
  }

  lemma {:induction false} InsertSorted(x: OldTime, ts: seq<OldTime>)
    requires SortedByEnd(ts)
    ensures SortedByEnd(Insert(x, ts))
    ensures multiset(Insert(x, ts)) == multiset(ts) + multiset{x}
    ensures |Insert(x, ts)| == |ts| + 1
    ensures Insert(x, ts)[0] == x || (ts != [] && Insert(x, ts)[0] == ts[0])
  {
    InsertKeeps(x, ts);
    if ts != [] && ts[0].endedAt > x.endedAt {
      InsertSorted(x, ts[1..]);
      ConsSorted(ts[0], Insert(x, ts[1..]));
    } else {
      ConsSorted(x, ts);
    }
  }

  /** Insertion adds exactly `x`, and the new head is `x` or the old one. */
  lemma {:induction false} InsertKeeps(x: OldTime, ts: seq<OldTime>)
    ensures multiset(Insert(x, ts)) == multiset(ts) + multiset{x}
    ensures |Insert(x, ts)| == |ts| + 1
    ensures Insert(x, ts)[0] == x || (ts != [] && Insert(x, ts)[0] == ts[0])
  {
    if ts != [] && ts[0].endedAt > x.endedAt {
      InsertKeeps(x, ts[1..]);
      assert ts == [ts[0]] + ts[1..];
    }
  }

  /** An entry ending no earlier than the head of a sorted list can go in
      front of it. */
  lemma ConsSorted(y: OldTime, r: seq<OldTime>)
    requires SortedByEnd(r) && (r == [] || y.endedAt >= r[0].endedAt)
    ensures SortedByEnd([y] + r)
  {
    var c := [y] + r;
    forall i, j | 0 <= i < j < |c| ensures c[i].endedAt >= c[j].endedAt {
      if i == 0 {
        assert c[j] == r[j - 1];
        assert r[0].endedAt >= r[j - 1].endedAt || j == 1;
      } else {
        assert c[i] == r[i - 1] && c[j] == r[j - 1];
      }
    }
  }

  /** Entries with end time `k`, in order. */
  function WithEnd(ts: seq<OldTime>, k: int): seq<OldTime> {
    if ts == [] then []
    else (if ts[0].endedAt == k then [ts[0]] else []) + WithEnd(ts[1..], k)
  }

  lemma {:induction false} InsertStable(x: OldTime, ts: seq<OldTime>, k: int)
    requires SortedByEnd(ts)
    ensures WithEnd(Insert(x, ts), k) ==
      (if x.endedAt == k then [x] else []) + WithEnd(ts, k)
  {
    if ts != [] && ts[0].endedAt > x.endedAt {
      InsertStable(x, ts[1..], k);
      if ts[0].endedAt == k {
        // x ends before ts[0] does, so it lacks the end time k
        assert x.endedAt != k;
      }
    }
  }

  /** The migration's sort orders the entries latest end first, keeps
      every entry exactly as often as it occurs, and keeps the flattened
      order among entries with the same end time. */
  lemma {:induction false} SortByEndCorrect(ts: seq<OldTime>, k: int)
    ensures SortedByEnd(SortByEnd(ts))
    ensures multiset(SortByEnd(ts)) == multiset(ts)
    ensures WithEnd(SortByEnd(ts), k) == WithEnd(ts, k)
  {
    if ts != [] {
      SortByEndCorrect(ts[1..], k);
      InsertSorted(ts[0], SortByEnd(ts[1..]));
      InsertStable(ts[0], SortByEnd(ts[1..]), k);
      assert ts == [ts[0]] + ts[1..];
    }
  }

  // ---------------------------------------------------------------------
  // the migrated logs

  function ToLog(t: OldTime): Log {
    Log(t.projectSlug, Interval(t.startedAt, t.endedAt), t.activityName)
  }

  function ToLogs(ts: seq<OldTime>): (r: seq<Log>)
    ensures |r| == |ts|
    ensures forall i :: 0 <= i < |r| ==> r[i] == ToLog(ts[i])
  {
    seq(|ts|, i requires 0 <= i < |ts| => ToLog(ts[i]))
  }

  /** `useMigrateOldLogs(projects)`: the logs the old entries become. */
  function MigrateOldLogs(projects: seq<OldProject>): seq<Log> {
    ToLogs(SortByEnd(Flatten(projects)))
  }

  /** `l` is the log of old entry `k` of project `j` of the roster: filed
      under the project's slug whatever slug the entry held, spanning from
      the entry's start to its end, and named after the entry's activity
      or, when that is empty, after the project. */
  predicate MigratedFrom(projects: seq<OldProject>, l: Log) {
    exists j, k :: 0 <= j < |projects| && 0 <= k < |projects[j].times.GetOr([])| &&
      var t := projects[j].times.GetOr([])[k];
      l == Log(projects[j].slug, Interval(t.startedAt, t.endedAt),
        if t.activityName != "" then t.activityName else projects[j].name)
  }

  lemma LogOfAdopted(projects: seq<OldProject>, t: OldTime)
    requires AdoptedFrom(projects, t)
    ensures MigratedFrom(projects, ToLog(t))
  {
    var j, k :| 0 <= j < |projects| && 0 <= k < |projects[j].times.GetOr([])| &&
      t == Adopt(projects[j], projects[j].times.GetOr([])[k]);
  }

  /** The migration yields one log per old entry, latest end first, and
      each log is migrated from an old entry of the roster. */
  lemma MigrationCorrect(projects: seq<OldProject>)
    ensures var logs := MigrateOldLogs(projects);
      |logs| == EntryCount(projects) &&
      (forall i, j :: 0 <= i < j < |logs| ==> logs[i].interval.end >= logs[j].interval.end) &&
      (forall i :: 0 <= i < |logs| ==> MigratedFrom(projects, logs[i]))
  {
    var flat := Flatten(projects);
    var sorted := SortByEnd(flat);
    SortByEndCorrect(flat, 0);
    FlattenEntries(projects);
    assert |sorted| == |flat| by {
      assert |multiset(sorted)| == |multiset(flat)|;
    }
    forall i | 0 <= i < |sorted| ensures MigratedFrom(projects, ToLog(sorted[i])) {
      assert sorted[i] in multiset(sorted);
      assert sorted[i] in flat;
      LogOfAdopted(projects, sorted[i]);
    }
  }

  /** Turning entries into logs commutes with concatenation. */
  lemma ToLogsAppend(a: seq<OldTime>, b: seq<OldTime>)
    ensures ToLogs(a + b) == ToLogs(a) + ToLogs(b)
  {
    var whole, parts := ToLogs(a + b), ToLogs(a) + ToLogs(b);
    forall i | 0 <= i < |whole| ensures whole[i] == parts[i] {
      if i < |a| {
        assert (a + b)[i] == a[i];
      } else {
        assert (a + b)[i] == b[i - |a|];
      }
    }
  }

  /** Taking out the element at `m` leaves the others, each as often as
      before. */
  lemma SplitAt<T>(s: seq<T>, m: nat)
    requires m < |s|
    ensures s == s[..m] + ([s[m]] + s[m + 1..])
    ensures multiset(s[..m] + s[m + 1..]) == multiset(s) - multiset{s[m]}
  {
    var left, right := s[..m], s[m + 1..];
    assert s == left + ([s[m]] + right);
    assert multiset(s) == multiset(left) + multiset([s[m]] + right);
    assert multiset([s[m]] + right) == multiset{s[m]} + multiset(right);
    assert multiset(left + right) == multiset(left) + multiset(right);
  }

  /** Reordering the entries reorders the logs: two lists holding the same
      entries equally often give logs holding the same logs equally often. */
  lemma {:induction false} ToLogsPermutation(a: seq<OldTime>, b: seq<OldTime>)
    requires multiset(a) == multiset(b)
    ensures multiset(ToLogs(a)) == multiset(ToLogs(b))
  {
    if a == [] {
      assert |multiset(b)| == 0;
    } else {
      var x := a[0];
      assert x in multiset(b);
      var m :| 0 <= m < |b| && b[m] == x;
      var left, right := b[..m], b[m + 1..];
      SplitAt(b, m);
      SplitAt(a, 0);
      assert a[..0] + a[1..] == a[1..];
      assert multiset(a[1..]) == multiset(left + right);
      ToLogsPermutation(a[1..], left + right);
      ToLogsAppend([x], a[1..]);
      ToLogsAppend(left, [x] + right);
      ToLogsAppend([x], right);
      ToLogsAppend(left, right);
      var lx, ll, lr := ToLogs([x]), ToLogs(left), ToLogs(right);
      assert ToLogs(a) == lx + ToLogs(a[1..]) by {
        assert [x] + a[1..] == a;
      }
      assert ToLogs(b) == ll + (lx + lr);
      Reinsert(lx, ToLogs(a[1..]), ll, lr);
    }
  }

  /** Putting the same piece in front of two lists with the same elements,
      or between the two halves of the second, keeps them equal as
      multisets. */
  lemma Reinsert<U>(x: seq<U>, t: seq<U>, l: seq<U>, r: seq<U>)
    requires multiset(t) == multiset(l + r)
    ensures multiset(x + t) == multiset(l + (x + r))
  {
    calc {
      multiset(x + t);
      multiset(x) + multiset(t);
      multiset(x) + (multiset(l) + multiset(r));
      multiset(l) + (multiset(x) + multiset(r));
      multiset(l) + multiset(x + r);
      multiset(l + (x + r));
    }
  }

  /** Nothing is lost or duplicated: the migration yields each old entry's
      log exactly as often as the flattened roster holds that entry, so
      every old entry of every project reaches the migrated logs. */
  lemma MigrationComplete(projects: seq<OldProject>)
    ensures multiset(MigrateOldLogs(projects)) == multiset(ToLogs(Flatten(projects)))
    ensures forall j, k :: 0 <= j < |projects| && 0 <= k < |projects[j].times.GetOr([])| ==>
      ToLog(Adopt(projects[j], projects[j].times.GetOr([])[k])) in MigrateOldLogs(projects)
  {
    var flat := Flatten(projects);
    SortByEndCorrect(flat, 0);
    ToLogsPermutation(SortByEnd(flat), flat);
    FlattenComplete(projects);
    forall j, k | 0 <= j < |projects| && 0 <= k < |projects[j].times.GetOr([])|
      ensures ToLog(Adopt(projects[j], projects[j].times.GetOr([])[k])) in MigrateOldLogs(projects)
    {
      var t := Adopt(projects[j], projects[j].times.GetOr([])[k]);
      var i :| 0 <= i < |flat| && flat[i] == t;
      assert ToLogs(flat)[i] == ToLog(t);
      assert ToLog(t) in multiset(ToLogs(flat));
    }
  }

  /** One project's migrated entries, in the simplest case: an entry
      without an activity name takes the project's name and the project's
      slug, whatever slug the entry held. */
  lemma MigrateOneEntry(slug: Slug, name: string, other: Slug, start: int, end: int)
    ensures MigrateOldLogs([OldProject(slug, name, None, None, Some([OldTime(other, "", start, end)]))])
      == [Log(slug, Interval(start, end), name)]
  {
    var p := OldProject(slug, name, None, None, Some([OldTime(other, "", start, end)]));
    assert [p][1..] == [];
    assert Flatten([p]) == [OldTime(slug, name, start, end)];
    var flat := [OldTime(slug, name, start, end)];
    assert flat[1..] == [];
    assert SortByEnd(flat) == Insert(flat[0], []) == flat;
  }

  // ---------------------------------------------------------------------
  // voidTimes and the lookup

  /** `voidTimes`: every project with its old entries dropped. */
  function VoidTimes(projects: seq<OldProject>): (r: seq<OldProject>)
    ensures |r| == |projects|
  {
    seq(|projects|, i requires 0 <= i < |projects| => projects[i].(times := None))
  }

  /** Dropping the old entries keeps the order and every other field,
      leaves nothing for a later migration, and is idempotent. */
  lemma VoidTimesEffect(projects: seq<OldProject>)
    ensures var r := VoidTimes(projects);
      (forall i :: 0 <= i < |r| ==>
        r[i].times.None? && r[i].slug == projects[i].slug && r[i].name == projects[i].name &&
        r[i].startedAt == projects[i].startedAt && r[i].lastActivityName == projects[i].lastActivityName) &&
      VoidTimes(r) == r &&
      EntryCount(r) == 0
  {
    VoidedCount(VoidTimes(projects));
  }

  lemma {:induction false} VoidedCount(projects: seq<OldProject>)
    requires forall i :: 0 <= i < |projects| ==> projects[i].times.None?
    ensures EntryCount(projects) == 0
  {
    if projects != [] {
      VoidedCount(projects[1..]);
    }
  }

  /** The state of the provider: the roster, stripped of old entries on
      every write, and the logs. */
  class AppState {
    var projects: seq<OldProject>
    var logs: seq<Log>

    /** The stored roster and, when no logs were stored yet, the logs
        migrated from the roster's old entries. */
    constructor (storedProjects: seq<OldProject>, storedLogs: Option<seq<Log>>)
      ensures projects == storedProjects
      ensures logs == storedLogs.GetOr(MigrateOldLogs(storedProjects))
    {
      projects := storedProjects;
      logs := storedLogs.GetOr(MigrateOldLogs(storedProjects));
    }

    /** `setProjects(value)`: the roster written is `value` without old
        entries. */
    method SetProjects(value: seq<OldProject>)
      modifies this
      ensures projects == VoidTimes(value) && logs == old(logs)
    {
      projects := VoidTimes(value);
    }

    method SetLogs(value: seq<Log>)
      modifies this
      ensures logs == value && projects == old(projects)
    {
      logs := value;
    }

    /** `getProjectLogs(project)`: the logs filed under the project's slug,
        in stored order, or none. */
    method GetProjectLogs(project: OldProject) returns (r: seq<Log>)
      ensures r == ProjectLogs(logs, project.slug)
    {
      r := LookupProjectLogs(logs, project.slug);
    }
  }
}
