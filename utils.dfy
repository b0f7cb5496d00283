/** The pure helpers of the tracker's utility module: summing, the
    human-readable duration format, grouping logs by project, the
    project-button toggle and the live total of a set of projects. */
module Utils {
  import opened Types
  import opened Text

  /** `items.reduce((acc, e) => acc + e, 0)`. */
  function Sum(items: seq<int>): int {
    if items == [] then 0 else items[0] + Sum(items[1..])
  }

  /** `xs.flatMap(f)`: the lists `f` gives for each member, concatenated
      in order. */
  function FlatMap<A, B>(f: A -> seq<B>, xs: seq<A>): seq<B> {
    if xs == [] then [] else f(xs[0]) + FlatMap(f, xs[1..])
  }

  /** `flatMap` distributes over concatenation. */
  lemma {:induction false} FlatMapAppend<A, B>(f: A -> seq<B>, a: seq<A>, b: seq<A>)
    ensures FlatMap(f, a + b) == FlatMap(f, a) + FlatMap(f, b)
  {
    if a == [] {
      assert a + b == b;
    } else {
      assert (a + b)[0] == a[0];
      assert (a + b)[1..] == a[1..] + b;
      FlatMapAppend(f, a[1..], b);
    }
  }

  /** What `f` gives for a member appears in the flattened list. */
  lemma {:induction false} FlatMapMember<A, B>(f: A -> seq<B>, xs: seq<A>, k: int, y: B)
    requires 0 <= k < |xs| && y in f(xs[k])
    ensures y in FlatMap(f, xs)
  {
    if k > 0 {
      FlatMapMember(f, xs[1..], k - 1, y);
    }
  }

  /** The sum of a concatenation is the sum of the sums. */
  lemma {:induction false} SumAppend(a: seq<int>, b: seq<int>)
    ensures Sum(a + b) == Sum(a) + Sum(b)
  {
    if a != [] {
      assert (a + b)[0] == a[0];
      assert (a + b)[1..] == a[1..] + b;
      SumAppend(a[1..], b);
    } else {
      assert a + b == b;
    }
  }

  /** `Math.ceil(n / d)` for integers: the least multiple count of `d`
      that reaches `n`. */
  function CeilDiv(n: int, d: int): (r: int)
    requires d > 0
    ensures (r - 1) * d < n <= r * d
  {
    -((-n) / d)
  }

  /** `Math.ceil` on an exact real. */
  function Ceil(x: real): (r: int)
    ensures r as real - 1.0 < x <= r as real
  {
    -((-x).Floor)
  }

  // ---------------------------------------------------------------------
  // msToHumanFormat

  datatype Separator = Units | Colon

  /** Hours, minutes and seconds exactly as `msToHumanFormat` computes them
      from `value = ms / 1000`, its floating-point arithmetic taken as
      exact: floor for hours and minutes, and an independent ceiling for
      the remainder of the seconds modulo 60. */
  function Fields(ms: nat): (int, int, int) {
    var value := ms as real / 1000.0;
    var hours := (value / 60.0 / 60.0).Floor;
    var minutes := (value / 60.0).Floor % 60;
    var seconds := Ceil(value - 60.0 * (value / 60.0).Floor as real);
    (hours, minutes, seconds)
  }

  lemma FloorOfQuotient(n: nat, d: nat)
    requires d > 0
    ensures (n as real / d as real).Floor == n / d
  {
    var q, r := n / d, n % d;
    assert n == q * d + r;
    assert n as real / d as real == q as real + r as real / d as real;
    assert 0.0 <= r as real / d as real < 1.0;
  }

  /** The fields are integer-exact: whole hours, the minutes left within
      the hour, and the milliseconds left within the minute rounded up to
      whole seconds. */
  lemma {:induction false} FieldsExact(ms: nat)
    ensures Fields(ms).0 == ms / 3600000
    ensures Fields(ms).1 == (ms / 60000) % 60
    ensures Fields(ms).2 == (ms % 60000 + 999) / 1000
  {
    var value := ms as real / 1000.0;
    assert value / 60.0 / 60.0 == ms as real / 3600000.0;
    assert value / 60.0 == ms as real / 60000.0;
    FloorOfQuotient(ms, 3600000);
    FloorOfQuotient(ms, 60000);
    var q, r := ms / 60000, ms % 60000;
    assert ms == q * 60000 + r;
    assert value - 60.0 * q as real == r as real / 1000.0;
    var c := (r + 999) / 1000;
    assert (c - 1) * 1000 < r <= c * 1000;
    assert c as real - 1.0 < r as real / 1000.0 <= c as real;
  }

  /** What the three fields mean: `ms` lies within the minute named by
      hours and minutes, minutes stay below 60, and seconds is the number of
      started seconds within that minute, which reaches 60 rather than
      carrying into the minutes. */
  lemma FieldsMeaning(ms: nat)
    ensures var (h, m, s) := Fields(ms);
      0 <= h && 0 <= m < 60 && 0 <= s <= 60
      && h * 3600000 + m * 60000 <= ms < h * 3600000 + m * 60000 + 60000
      && (s - 1) * 1000 < ms - h * 3600000 - m * 60000 <= s * 1000
  {
    FieldsExact(ms);
    var q := ms / 60000;
    assert q == (q / 60) * 60 + q % 60;
    assert ms / 3600000 == q / 60;
  }

  /** One field of the units rendering: its number and unit letter when
      positive, nothing otherwise. */
  function Piece(v: int, unit: string): seq<string> {
    if v > 0 then [NatToString(v) + unit] else []
  }

  /** The units rendering keeps the positive fields only, each followed by
      its unit letter. */
  function UnitsPieces(pairs: seq<(int, string)>): (r: seq<string>)
    ensures |r| <= |pairs|
  {
    if pairs == [] then []
    else Piece(pairs[0].0, pairs[0].1) + UnitsPieces(pairs[1..])
  }

  /** The pieces of the three-field list, written out. */
  lemma UnitsPiecesOfFields(h: int, m: int, s: int)
    ensures UnitsPieces([(h, "h"), (m, "m"), (s, "s")]) == Piece(h, "h") + Piece(m, "m") + Piece(s, "s")
  {
    var l1: seq<(int, string)> := [(s, "s")];
    var l2 := [(m, "m")] + l1;
    var l3 := [(h, "h")] + l2;
    UnitsPiecesCons((s, "s"), []);
    assert [(s, "s")] + [] == l1;
    assert UnitsPieces([]) == [];
    assert UnitsPieces(l1) == Piece(s, "s") + [] == Piece(s, "s");
    UnitsPiecesCons((m, "m"), l1);
    UnitsPiecesCons((h, "h"), l2);
    ThreeList((h, "h"), (m, "m"), (s, "s"));
    ConcatAssoc(Piece(h, "h"), Piece(m, "m"), Piece(s, "s"));
  }

  lemma ThreeList<T>(a: T, b: T, c: T)
    ensures [a, b, c] == [a] + ([b] + [c])
  {
  }

  lemma UnitsPiecesCons(p: (int, string), rest: seq<(int, string)>)
    ensures UnitsPieces([p] + rest) == Piece(p.0, p.1) + UnitsPieces(rest)
  {
    assert ([p] + rest)[1..] == rest;
  }

  /** `msToHumanFormat(ms, separator)`. */
  function MsToHumanFormat(ms: nat, separator: Separator): string {
    var (hours, minutes, seconds) := Fields(ms);
    if separator == Units then
      Join(UnitsPieces([(hours, "h"), (minutes, "m"), (seconds, "s")]), " ")
    else
      FieldsExact(ms);
      PadStart2(NatToString(hours)) + ":" + PadStart2(NatToString(minutes)) + ":"
      + PadStart2(NatToString(seconds))
  }

  lemma PaddedFree(n: nat, c: char)
    requires !IsDigit(c)
    ensures forall i :: 0 <= i < |PadStart2(NatToString(n))| ==> PadStart2(NatToString(n))[i] != c
  {
    PaddedNumber(n);
  }

  /** The colon format reads back: it splits on ':' into exactly three
      fields, the minutes and seconds fields are two digits each, the hours
      field at least two, and each field parses to the hours, minutes and
      seconds of the duration. */
  lemma ColonFormat(ms: nat)
    ensures var r := Split(MsToHumanFormat(ms, Colon), ":");
      |r| == 3 && AllDigits(r[0]) && AllDigits(r[1]) && AllDigits(r[2])
      && |r[0]| >= 2 && |r[1]| == 2 && |r[2]| == 2
      && ParseDecimal(r[0]) == ms / 3600000
      && ParseDecimal(r[1]) == (ms / 60000) % 60
      && ParseDecimal(r[2]) == (ms % 60000 + 999) / 1000
  {
    FieldsExact(ms);
    FieldsMeaning(ms);
    var (h, m, s) := Fields(ms);
    var a, b, c := PadStart2(NatToString(h)), PadStart2(NatToString(m)), PadStart2(NatToString(s));
    PaddedNumber(h);
    PaddedNumber(m);
    PaddedNumber(s);
    PaddedFree(h, ':');
    PaddedFree(m, ':');
    PaddedFree(s, ':');
    assert MsToHumanFormat(ms, Colon) == a + ":" + b + ":" + c;
    SplitThree(a, b, c, ':');
  }

  /** 59.6 seconds shows as 60 seconds and no minute: the seconds field is
      rounded up on its own and never carried. */
  lemma SecondsNotCarried()
    ensures MsToHumanFormat(59600, Colon) == "00:00:60"
    ensures MsToHumanFormat(59600, Units) == "60s"
  {
    FieldsExact(59600);
    assert Fields(59600) == (0, 0, 60);
    assert NatToString(0) == "0";
    assert NatToString(6) == "6";
    assert NatToString(60) == "60";
    assert PadStart2("0") == "00" && PadStart2("60") == "60";
    UnitsPiecesOfFields(0, 0, 60);
    assert Piece(0, "h") == [] && Piece(0, "m") == [];
    assert "60" + "s" == "60s";
    assert Piece(60, "s") == ["60s"];
    assert [] + [] + ["60s"] == ["60s"];
  }

  /** The units format is empty exactly when every field is zero, which
      is the case for a zero duration; otherwise splitting it on spaces
      gives one piece per positive field, in hours, minutes, seconds
      order. */
  lemma UnitsFormat(ms: nat)
    ensures var (h, m, s) := Fields(ms);
      (MsToHumanFormat(ms, Units) == "" <==> h == 0 && m == 0 && s == 0)
      && (ms == 0 ==> MsToHumanFormat(ms, Units) == "")
      && (MsToHumanFormat(ms, Units) != "" ==>
            Split(MsToHumanFormat(ms, Units), " ") ==
              (if h > 0 then [NatToString(h) + "h"] else [])
              + (if m > 0 then [NatToString(m) + "m"] else [])
              + (if s > 0 then [NatToString(s) + "s"] else []))
  {
    FieldsExact(ms);
    var (h, m, s) := Fields(ms);
    UnitsPiecesOfFields(h, m, s);
    UnitsJoinSplits(h, m, s);
  }

  /** A non-empty text without a space. */
  predicate Spaceless(t: string) {
    t != [] && forall i :: 0 <= i < |t| ==> t[i] != ' '
  }

  /** A number followed by a unit letter holds no space. */
  lemma UnitPieceSpaceless(v: nat, unit: string)
    requires |unit| == 1 && unit[0] != ' '
    ensures Spaceless(NatToString(v) + unit)
  {
    var t := NatToString(v);
    forall i | 0 <= i < |t| ensures (t + unit)[i] != ' ' {
      assert (t + unit)[i] == t[i] && IsDigit(t[i]);
    }
  }

  /** Space-joined pieces without spaces: the text is empty exactly when
      there are no pieces, and splitting on spaces gives them back. */
  lemma JoinSplitSpaces(pieces: seq<string>)
    requires forall k :: 0 <= k < |pieces| ==> Spaceless(pieces[k])
    ensures Join(pieces, " ") == "" <==> pieces == []
    ensures pieces != [] ==> Split(Join(pieces, " "), " ") == pieces
  {
    if pieces != [] {
      JoinSplitChar(pieces, ' ');
      assert Join(pieces, " ") != "" by {
        if |pieces| > 1 {
          assert |Join(pieces, " ")| >= |pieces[0]| + 1;
        }
      }
    }
  }

  /** Joining the unit pieces with spaces gives the empty text exactly
      when there is no piece, and splitting on spaces gives the pieces
      back. */
  lemma UnitsJoinSplits(h: int, m: int, s: int)
    ensures var pieces := Piece(h, "h") + Piece(m, "m") + Piece(s, "s");
      (Join(pieces, " ") == "" <==> h <= 0 && m <= 0 && s <= 0)
      && (pieces != [] ==> Split(Join(pieces, " "), " ") == pieces)
  {
    var ph, pm, ps := Piece(h, "h"), Piece(m, "m"), Piece(s, "s");
    if h > 0 { UnitPieceSpaceless(h, "h"); }
    if m > 0 { UnitPieceSpaceless(m, "m"); }
    if s > 0 { UnitPieceSpaceless(s, "s"); }
    var pieces := ph + pm + ps;
    forall k | 0 <= k < |pieces| ensures Spaceless(pieces[k]) {
      assert pieces[k] in ph || pieces[k] in pm || pieces[k] in ps;
    }
    JoinSplitSpaces(pieces);
  }

  // ---------------------------------------------------------------------
  // groupBy

  /** The members of `arr` whose key is `k`, in input order. */
  function Group<T, K(==)>(arr: seq<T>, key: T -> K, k: K): seq<T> {
    if arr == [] then []
    else Group(arr[..|arr| - 1], key, k) + (if key(arr[|arr| - 1]) == k then [arr[|arr| - 1]] else [])
  }

  /** `groupBy(arr, key)`: the reduce that builds, in an accumulator
      object, one list per key value seen. Every key of `arr` names a group,
      and each group holds the members with that key in input order. */
  method GroupBy<T, K(==)>(arr: seq<T>, key: T -> K) returns (groups: map<K, seq<T>>)
    ensures groups.Keys == set i | 0 <= i < |arr| :: key(arr[i])
    ensures forall k :: k in groups ==> groups[k] == Group(arr, key, k)
    ensures forall k :: k !in groups ==> Group(arr, key, k) == []
  {
    groups := map[];
    for n := 0 to |arr|
      invariant groups.Keys == set i | 0 <= i < n :: key(arr[i])
      invariant forall k :: k in groups ==> groups[k] == Group(arr[..n], key, k)
      invariant forall k :: k !in groups ==> Group(arr[..n], key, k) == []
    {
      GroupsExtend(arr, key, n, groups);
      KeysExtend(arr, key, n);
      var k := key(arr[n]);
      groups := groups[k := GroupOrEmpty(groups, k) + [arr[n]]];
    }
    assert arr[..|arr|] == arr;
  }

  /** One step of the reduce: appending the next member to its key's
      group (created empty when missing) keeps every group equal to
      `Group` of the longer prefix. */
  lemma GroupsExtend<T, K>(arr: seq<T>, key: T -> K, n: nat, before: map<K, seq<T>>)
    requires n < |arr|
    requires forall k :: k in before ==> before[k] == Group(arr[..n], key, k)
    requires forall k :: k !in before ==> Group(arr[..n], key, k) == []
    ensures var after := before[key(arr[n]) := GroupOrEmpty(before, key(arr[n])) + [arr[n]]];
      (forall j :: j in after ==> after[j] == Group(arr[..n + 1], key, j))
      && (forall j :: j !in after ==> Group(arr[..n + 1], key, j) == [])
  {
    var k := key(arr[n]);
    var after := before[k := GroupOrEmpty(before, k) + [arr[n]]];
    forall j ensures Group(arr[..n + 1], key, j) == Group(arr[..n], key, j) + (if k == j then [arr[n]] else []) {
      GroupSnoc(arr, key, n, j);
    }
    forall j | j in after ensures after[j] == Group(arr[..n + 1], key, j) {
      if j != k {
        assert Group(arr[..n], key, j) + [] == Group(arr[..n], key, j);
      }
    }
  }

  lemma KeysExtend<T, K>(arr: seq<T>, key: T -> K, n: nat)
    requires n < |arr|
    ensures (set i | 0 <= i < n + 1 :: key(arr[i])) == (set i | 0 <= i < n :: key(arr[i])) + {key(arr[n])}
  {
  }

  /** `Group` of a list with one more member at the end. */
  lemma GroupAppendOne<T, K>(xs: seq<T>, x: T, key: T -> K, k: K)
    ensures Group(xs + [x], key, k) == Group(xs, key, k) + (if key(x) == k then [x] else [])
  {
    assert (xs + [x])[..|xs|] == xs;
  }

  lemma GroupSnoc<T, K>(arr: seq<T>, key: T -> K, n: nat, j: K)
    requires n < |arr|
    ensures Group(arr[..n + 1], key, j) == Group(arr[..n], key, j) + (if key(arr[n]) == j then [arr[n]] else [])
  {
    var a := arr[..n + 1];
    assert a[..|a| - 1] == arr[..n] && a[|a| - 1] == arr[n];
  }

  /** `acc[k] ?? []` on a grouping. */
  function GroupOrEmpty<K(==), T>(groups: map<K, seq<T>>, k: K): seq<T> {
    if k in groups then groups[k] else []
  }

  /** Grouping puts each item in the group named by its key as many times
      as it occurs in the input, and in no other group. */
  lemma {:induction false} GroupExactlyOnce<T, K>(arr: seq<T>, key: T -> K, x: T, k: K)
    ensures multiset(Group(arr, key, key(x)))[x] == multiset(arr)[x]
    ensures k != key(x) ==> multiset(Group(arr, key, k))[x] == 0
  {
    if arr != [] {
      var init := arr[..|arr| - 1];
      GroupExactlyOnce(init, key, x, k);
      assert arr == init + [arr[|arr| - 1]];
    }
  }

  // ---------------------------------------------------------------------
  // toggleProjectButton

  predicate NoDup<T(==)>(s: seq<T>) {
    forall i, j :: 0 <= i < j < |s| ==> s[i] != s[j]
  }

  /** `[...new Set(s)]`: the first occurrence of every element, in order. */
  function Dedupe<T(==,!new)>(s: seq<T>): (r: seq<T>)
    ensures NoDup(r)
    ensures forall x :: x in r <==> x in s
  {
    if s == [] then []
    else
      var d := Dedupe(s[..|s| - 1]);
      assert forall x :: x in s <==> x in s[..|s| - 1] || x == s[|s| - 1];
      if s[|s| - 1] in d then d else d + [s[|s| - 1]]
  }

  /** The index of the first occurrence of `x` in `s`. */
  function FirstIndex<T(==)>(s: seq<T>, x: T): (r: nat)
    requires x in s
    ensures r < |s| && s[r] == x
    ensures forall k :: 0 <= k < r ==> s[k] != x
  {
    if s[0] == x then 0 else 1 + FirstIndex(s[1..], x)
  }

  /** A first occurrence in a prefix is the first occurrence in the whole
      list. */
  lemma FirstIndexSnoc<T>(init: seq<T>, y: T, x: T)
    requires x in init
    ensures FirstIndex(init + [y], x) == FirstIndex(init, x)
  {
    var s := init + [y];
    assert s[FirstIndex(init, x)] == x;
  }

  /** `new Set` keeps first-occurrence order: the elements of the result
      appear in the order in which each first occurs in `s`. Together with
      `NoDup` and the membership clause of `Dedupe` this fixes the result. */
  lemma {:induction false} DedupeOrder<T(!new)>(s: seq<T>)
    ensures forall i, j :: 0 <= i < j < |Dedupe(s)| ==>
      FirstIndex(s, Dedupe(s)[i]) < FirstIndex(s, Dedupe(s)[j])
  {
    if s != [] {
      var init, last := s[..|s| - 1], s[|s| - 1];
      var d := Dedupe(init);
      DedupeOrder(init);
      assert s == init + [last];
      forall i, j | 0 <= i < j < |Dedupe(s)|
        ensures FirstIndex(s, Dedupe(s)[i]) < FirstIndex(s, Dedupe(s)[j])
      {
        assert d[i] in init;
        FirstIndexSnoc(init, last, d[i]);
        if j < |d| {
          assert d[j] in init;
          FirstIndexSnoc(init, last, d[j]);
        } else {
          assert Dedupe(s)[j] == last && last !in init;
          assert FirstIndex(s, last) == |init|;
        }
      }
    }
  }

  /** `s.filter((e) => e !== b)`. */
  function Without<T(==,!new)>(s: seq<T>, b: T): (r: seq<T>)
    ensures forall x :: x in r <==> x in s && x != b
  {
    if s == [] then [] else (if s[0] == b then [] else [s[0]]) + Without(s[1..], b)
  }

  /** The new button list after `toggleProjectButton(b)`. */
  function ToggleButton<T(==,!new)>(buttons: seq<T>, b: T): seq<T> {
    Dedupe(if b in buttons then Without(buttons, b) else buttons + [b])
  }

  /** Toggling flips the membership of `b`, keeps every other button's
      membership, and leaves no duplicates. */
  lemma ToggleButtonMembership<T(!new)>(buttons: seq<T>, b: T)
    ensures b in ToggleButton(buttons, b) <==> b !in buttons
    ensures forall x :: x != b ==> (x in ToggleButton(buttons, b) <==> x in buttons)
    ensures NoDup(ToggleButton(buttons, b))
  {
  }

  lemma {:induction false} DedupeOfNoDup<T(!new)>(s: seq<T>)
    requires NoDup(s)
    ensures Dedupe(s) == s
  {
    if s != [] {
      DedupeOfNoDup(s[..|s| - 1]);
      assert s == s[..|s| - 1] + [s[|s| - 1]];
    }
  }

  lemma {:induction false} WithoutAbsent<T(!new)>(s: seq<T>, b: T)
    requires b !in s
    ensures Without(s, b) == s
  {
    if s != [] {
      WithoutAbsent(s[1..], b);
    }
  }

  lemma {:induction false} WithoutLast<T(!new)>(s: seq<T>, b: T)
    requires b !in s
    ensures Without(s + [b], b) == s
  {
    if s == [] {
    } else {
      assert (s + [b])[1..] == s[1..] + [b];
      WithoutLast(s[1..], b);
    }
  }

  /** On a duplicate-free list the deduplication changes nothing: toggling
      removes the button in place, keeping the others in order, or appends
      it at the end. */
  lemma ToggleButtonOfNoDup<T(!new)>(buttons: seq<T>, b: T)
    requires NoDup(buttons)
    ensures ToggleButton(buttons, b) == if b in buttons then Without(buttons, b) else buttons + [b]
  {
    if b in buttons {
      WithoutNoDup(buttons, b);
      DedupeOfNoDup(Without(buttons, b));
    } else {
      assert NoDup(buttons + [b]);
      DedupeOfNoDup(buttons + [b]);
    }
  }

  lemma {:induction false} WithoutNoDup<T(!new)>(s: seq<T>, b: T)
    requires NoDup(s)
    ensures NoDup(Without(s, b))
  {
    if s != [] {
      WithoutNoDup(s[1..], b);
      var head := if s[0] == b then [] else [s[0]];
      var w := Without(s[1..], b);
      assert s[0] !in s[1..];
      assert Without(s, b) == head + w;
    }
  }

  /** Adding a button and removing it again restores the list exactly. */
  lemma ToggleButtonTwice<T(!new)>(buttons: seq<T>, b: T)
    requires NoDup(buttons) && b !in buttons
    ensures ToggleButton(ToggleButton(buttons, b), b) == buttons
  {
    var added := buttons + [b];
    assert NoDup(added);
    DedupeOfNoDup(added);
    WithoutLast(buttons, b);
    DedupeOfNoDup(buttons);
  }

  // ---------------------------------------------------------------------
  // the live total: logsTime + sumStartedAts(startedAts)

  function LogSlug(l: Log): Slug {
    l.projectSlug
  }

  /** `getProjectLogs(project)`: the logs grouped under the project's slug. */
  function ProjectLogs(logs: seq<Log>, slug: Slug): seq<Log> {
    Group(logs, LogSlug, slug)
  }

  /** The lookup both providers perform: group all logs by slug, then take
      the slug's group or nothing (`logsByProject[slug] ?? []`). */
  method LookupProjectLogs(logs: seq<Log>, slug: Slug) returns (r: seq<Log>)
    ensures r == ProjectLogs(logs, slug)
  {
    var groups := GroupBy(logs, LogSlug);
    r := GroupOrEmpty(groups, slug);
  }

  /** The logs of every project in turn (`projects.flatMap(getProjectLogs)`). */
  function ProjectsLogs(projects: seq<Project>, logs: seq<Log>): seq<Log> {
    if projects == [] then []
    else ProjectLogs(logs, projects[0].slug) + ProjectsLogs(projects[1..], logs)
  }

  function Durations(logs: seq<Log>): (r: seq<int>)
    ensures |r| == |logs|
    ensures forall i :: 0 <= i < |logs| ==> r[i] == Duration(logs[i])
  {
    if logs == [] then [] else [Duration(logs[0])] + Durations(logs[1..])
  }

  /** The `startedAt` of every started project, in roster order. */
  function StartedAts(projects: seq<Project>): (r: seq<int>)
    ensures |r| <= |projects|
  {
    if projects == [] then []
    else (if IsStarted(projects[0]) then [projects[0].startedAt.value] else []) + StartedAts(projects[1..])
  }

  /** `startedAts.map((startedAt) => now - startedAt)`. */
  function Elapsed(startedAts: seq<int>, now: int): (r: seq<int>)
    ensures |r| == |startedAts|
  {
    if startedAts == [] then [] else [now - startedAts[0]] + Elapsed(startedAts[1..], now)
  }

  /** The total `useLiveTotalTime` shows at time `now`: the durations of
      the projects' logs plus the running time of every started project. */
  function LiveTotal(projects: seq<Project>, logs: seq<Log>, now: int): int {
    Sum(Durations(ProjectsLogs(projects, logs))) + Sum(Elapsed(StartedAts(projects), now))
  }

  /** With no project running the total is just the logged durations. */
  lemma LiveTotalStopped(projects: seq<Project>, logs: seq<Log>, now: int)
    requires forall i :: 0 <= i < |projects| ==> !IsStarted(projects[i])
    ensures LiveTotal(projects, logs, now) == Sum(Durations(ProjectsLogs(projects, logs)))
  {
    NoneStarted(projects);
  }

  lemma {:induction false} NoneStarted(projects: seq<Project>)
    requires forall i :: 0 <= i < |projects| ==> !IsStarted(projects[i])
    ensures StartedAts(projects) == []
  {
    if projects != [] {
      NoneStarted(projects[1..]);
    }
  }

  lemma {:induction false} ElapsedGrowth(startedAts: seq<int>, now: int, later: int)
    ensures Sum(Elapsed(startedAts, later)) == Sum(Elapsed(startedAts, now)) + |startedAts| * (later - now)
  {
    if startedAts != [] {
      ElapsedGrowth(startedAts[1..], now, later);
    }
  }

  /** As time passes the total grows by the elapsed time once per started
      project, so it never decreases. */
  lemma LiveTotalGrowth(projects: seq<Project>, logs: seq<Log>, now: int, later: int)
    requires now <= later
    ensures LiveTotal(projects, logs, later)
      == LiveTotal(projects, logs, now) + |StartedAts(projects)| * (later - now)
    ensures LiveTotal(projects, logs, now) <= LiveTotal(projects, logs, later)
  {
    ElapsedGrowth(StartedAts(projects), now, later);
  }

  // ---------------------------------------------------------------------
  // prompting

  /** `askForActivityName`: the answer to the "What are you working on?"
      prompt (`None` when cancelled), with an empty answer turned into
      `undefined` as well. */
  function PromptAnswer(answer: Option<string>): (r: Option<string>)
    ensures r.Some? <==> TruthyText(answer)
    ensures r.Some? ==> r == answer
  {
    if TruthyText(answer) then answer else None
  }

  // ---------------------------------------------------------------------
  // the export total

  /** `Math.ceil(sum(durations) / 1000 / 60)`: the minutes an export line
      reports, rounded up. */
  function TotalMinutes(durations: seq<int>): (r: int)
    ensures (r - 1) * 60000 < Sum(durations) <= r * 60000
  {
    CeilDiv(Sum(durations), 60000)
  }

  /** The figures of one export line: the project's slug and name and its
      total in minutes (the line also carries the date and the minutes as
      hours with two decimals, which are text formatting). */
  datatype ExportRow = ExportRow(slug: Slug, name: string, minutes: int)

  // ---------------------------------------------------------------------
  // merging a batch of projects by slug

  /** `roster.filter((p) => p.slug !== s)`: every member with slug `s`
      dropped. */
  function WithoutSlug<T>(roster: seq<T>, slugOf: T -> Slug, s: Slug): (r: seq<T>)
    ensures |r| <= |roster|
  {
    if roster == [] then []
    else (if slugOf(roster[0]) != s then [roster[0]] else []) + WithoutSlug(roster[1..], slugOf, s)
  }

  /** The filter works member by member: filtering a concatenation is
      concatenating the filtered parts. */
  lemma {:induction false} WithoutSlugAppend<T>(a: seq<T>, b: seq<T>, slugOf: T -> Slug, s: Slug)
    ensures WithoutSlug(a + b, slugOf, s) == WithoutSlug(a, slugOf, s) + WithoutSlug(b, slugOf, s)
  {
    if a == [] {
      assert a + b == b;
    } else {
      WithoutSlugAppend(a[1..], b, slugOf, s);
      assert (a + b)[1..] == a[1..] + b && (a + b)[0] == a[0];
      var head := if slugOf(a[0]) != s then [a[0]] else [];
      ConcatAssoc(head, WithoutSlug(a[1..], slugOf, s), WithoutSlug(b, slugOf, s));
    }
  }

  /** The filter keeps every member without the slug as often as it
      occurs, drops every member with it, and keeps the order: a kept
      member comes right after the members kept before it. */
  lemma WithoutSlugExactly<T>(roster: seq<T>, slugOf: T -> Slug, s: Slug, x: T)
    ensures multiset(WithoutSlug(roster, slugOf, s))[x] == if slugOf(x) == s then 0 else multiset(roster)[x]
    ensures forall i :: 0 <= i < |roster| && slugOf(roster[i]) != s ==>
      |WithoutSlug(roster[..i], slugOf, s)| < |WithoutSlug(roster, slugOf, s)| &&
      WithoutSlug(roster, slugOf, s)[|WithoutSlug(roster[..i], slugOf, s)|] == roster[i]
  {
    WithoutSlugCount(roster, slugOf, s, x);
    forall i | 0 <= i < |roster| && slugOf(roster[i]) != s
      ensures |WithoutSlug(roster[..i], slugOf, s)| < |WithoutSlug(roster, slugOf, s)|
      ensures WithoutSlug(roster, slugOf, s)[|WithoutSlug(roster[..i], slugOf, s)|] == roster[i]
    {
      WithoutSlugAt(roster, slugOf, s, i);
    }
  }

  lemma WithoutSlugAt<T>(roster: seq<T>, slugOf: T -> Slug, s: Slug, i: nat)
    requires i < |roster| && slugOf(roster[i]) != s
    ensures |WithoutSlug(roster[..i], slugOf, s)| < |WithoutSlug(roster, slugOf, s)|
    ensures WithoutSlug(roster, slugOf, s)[|WithoutSlug(roster[..i], slugOf, s)|] == roster[i]
  {
    var rest := roster[i..];
    WithoutSlugAppend(roster[..i], rest, slugOf, s);
    assert roster[..i] + rest == roster;
    assert rest[0] == roster[i];
    assert WithoutSlug(rest, slugOf, s)[0] == roster[i];
  }

  lemma {:induction false} WithoutSlugCount<T>(roster: seq<T>, slugOf: T -> Slug, s: Slug, x: T)
    ensures multiset(WithoutSlug(roster, slugOf, s))[x] == if slugOf(x) == s then 0 else multiset(roster)[x]
  {
    if roster != [] {
      var head := if slugOf(roster[0]) != s then [roster[0]] else [];
      var tail := WithoutSlug(roster[1..], slugOf, s);
      WithoutSlugCount(roster[1..], slugOf, s, x);
      assert roster == [roster[0]] + roster[1..];
      assert multiset(roster) == multiset([roster[0]]) + multiset(roster[1..]);
      assert WithoutSlug(roster, slugOf, s) == head + tail;
      assert multiset(head + tail) == multiset(head) + multiset(tail);
    }
  }

  /** Some member of `roster` carries slug `s`
      (`roster.some((e) => e.slug === s)`). */
  predicate HasSlug<T>(roster: seq<T>, slugOf: T -> Slug, s: Slug) {
    exists i :: 0 <= i < |roster| && slugOf(roster[i]) == s
  }

  /** `incoming.filter((p) => !roster.some((e) => e.slug === p.slug))`. */
  function Unseen<T>(roster: seq<T>, incoming: seq<T>, slugOf: T -> Slug): seq<T> {
    if incoming == [] then []
    else
      var head := if HasSlug(roster, slugOf, slugOf(incoming[0])) then [] else [incoming[0]];
      head + Unseen(roster, incoming[1..], slugOf)
  }

  /** `[...roster, ...unseen]`: the batch merge of `addProjects` and of both
      importers. */
  function AppendUnseen<T>(roster: seq<T>, incoming: seq<T>, slugOf: T -> Slug): seq<T> {
    roster + Unseen(roster, incoming, slugOf)
  }

  /** The appended part holds exactly the incoming members whose slug the
      roster lacks, each as often as it comes in (a count of every value,
      so duplicates within the batch are kept), and in incoming order: a
      kept member comes right after the members kept before it. */
  lemma {:induction false} UnseenExactly<T>(roster: seq<T>, incoming: seq<T>, slugOf: T -> Slug, x: T)
    ensures multiset(Unseen(roster, incoming, slugOf))[x] ==
      if HasSlug(roster, slugOf, slugOf(x)) then 0 else multiset(incoming)[x]
    ensures forall i :: 0 <= i < |Unseen(roster, incoming, slugOf)| ==>
      !HasSlug(roster, slugOf, slugOf(Unseen(roster, incoming, slugOf)[i]))
    ensures forall i :: 0 <= i < |incoming| && !HasSlug(roster, slugOf, slugOf(incoming[i])) ==>
      |Unseen(roster, incoming[..i], slugOf)| < |Unseen(roster, incoming, slugOf)| &&
      Unseen(roster, incoming, slugOf)[|Unseen(roster, incoming[..i], slugOf)|] == incoming[i]
  {
    UnseenCount(roster, incoming, slugOf, x);
    forall i | 0 <= i < |incoming| && !HasSlug(roster, slugOf, slugOf(incoming[i]))
      ensures |Unseen(roster, incoming[..i], slugOf)| < |Unseen(roster, incoming, slugOf)|
      ensures Unseen(roster, incoming, slugOf)[|Unseen(roster, incoming[..i], slugOf)|] == incoming[i]
    {
      UnseenAt(roster, incoming, slugOf, i);
    }
  }

  lemma UnseenAt<T>(roster: seq<T>, incoming: seq<T>, slugOf: T -> Slug, i: nat)
    requires i < |incoming| && !HasSlug(roster, slugOf, slugOf(incoming[i]))
    ensures |Unseen(roster, incoming[..i], slugOf)| < |Unseen(roster, incoming, slugOf)|
    ensures Unseen(roster, incoming, slugOf)[|Unseen(roster, incoming[..i], slugOf)|] == incoming[i]
  {
    var rest := incoming[i..];
    UnseenAppend(roster, incoming[..i], rest, slugOf);
    assert incoming[..i] + rest == incoming;
    assert rest[0] == incoming[i];
    assert Unseen(roster, rest, slugOf)[0] == incoming[i];
  }

  lemma {:induction false} UnseenCount<T>(roster: seq<T>, incoming: seq<T>, slugOf: T -> Slug, x: T)
    ensures multiset(Unseen(roster, incoming, slugOf))[x] ==
      if HasSlug(roster, slugOf, slugOf(x)) then 0 else multiset(incoming)[x]
    ensures forall i :: 0 <= i < |Unseen(roster, incoming, slugOf)| ==>
      !HasSlug(roster, slugOf, slugOf(Unseen(roster, incoming, slugOf)[i]))
  {
    if incoming != [] {
      UnseenCount(roster, incoming[1..], slugOf, x);
      assert incoming == [incoming[0]] + incoming[1..];
    }
  }

  /** The merge filters the batch member by member: filtering two batches
      in a row is filtering their concatenation. */
  lemma {:induction false} UnseenAppend<T>(roster: seq<T>, a: seq<T>, b: seq<T>, slugOf: T -> Slug)
    ensures Unseen(roster, a + b, slugOf) == Unseen(roster, a, slugOf) + Unseen(roster, b, slugOf)
  {
    if a == [] {
      assert a + b == b;
    } else {
      UnseenAppend(roster, a[1..], b, slugOf);
      assert (a + b)[1..] == a[1..] + b && (a + b)[0] == a[0];
      var head := if HasSlug(roster, slugOf, slugOf(a[0])) then [] else [a[0]];
      ConcatAssoc(head, Unseen(roster, a[1..], slugOf), Unseen(roster, b, slugOf));
    }
  }

  lemma {:induction false} UnseenOfSeen<T>(roster: seq<T>, incoming: seq<T>, slugOf: T -> Slug)
    requires forall i :: 0 <= i < |incoming| ==> HasSlug(roster, slugOf, slugOf(incoming[i]))
    ensures Unseen(roster, incoming, slugOf) == []
  {
    if incoming != [] {
      UnseenOfSeen(roster, incoming[1..], slugOf);
    }
  }

  /** Merging the same batch twice adds nothing the second time. */
  lemma AppendUnseenIdempotent<T>(roster: seq<T>, incoming: seq<T>, slugOf: T -> Slug)
    ensures AppendUnseen(AppendUnseen(roster, incoming, slugOf), incoming, slugOf)
      == AppendUnseen(roster, incoming, slugOf)
  {
    var merged := AppendUnseen(roster, incoming, slugOf);
    forall i | 0 <= i < |incoming| ensures HasSlug(merged, slugOf, slugOf(incoming[i])) {
      var x := incoming[i];
      if HasSlug(roster, slugOf, slugOf(x)) {
        var j :| 0 <= j < |roster| && slugOf(roster[j]) == slugOf(x);
        assert merged[j] == roster[j];
      } else {
        UnseenExactly(roster, incoming, slugOf, x);
        assert x in multiset(incoming);
        assert x in Unseen(roster, incoming, slugOf);
        var j :| 0 <= j < |Unseen(roster, incoming, slugOf)| && Unseen(roster, incoming, slugOf)[j] == x;
        assert merged[|roster| + j] == x;
      }
    }
    UnseenOfSeen(merged, incoming, slugOf);
  }
}
