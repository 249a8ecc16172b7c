/** Reassembling flattened dictionary configs, seeding, and the startup sequence as a whole (models/config.py). */
module ConfigRepair {
  import opened Basics
  import opened ConfigPaths
  import opened ConfigStartup

  /** A dictionary config: its key, the prefixes its flattened rows may carry, and whether it maps connections. */
  datatype DictConfig = DictConfig(key: string, prefixes: seq<string>, api: bool)

  function FragmentOf(prefixes: seq<string>, k: string): (r: Option<string>) {
    if prefixes == [] then None
    else if Under(k, prefixes[0]) then Some(Suffix(k, prefixes[0]))
    else FragmentOf(prefixes[1..], k)
  }

  /** The fragment of a key is what follows the first of the prefixes it carries, and a dot. */
  lemma {:induction false} FragmentIs(prefixes: seq<string>, k: string, f: string)
    ensures FragmentOf(prefixes, k) == Some(f) <==>
            exists i :: 0 <= i < |prefixes| && k == prefixes[i] + "." + f
                        && forall j :: 0 <= j < i ==> !(prefixes[j] + "." <= k)
    ensures FragmentOf(prefixes, k) == None <==> forall i :: 0 <= i < |prefixes| ==> !(prefixes[i] + "." <= k)
  {
    if prefixes != [] {
      var p, rest := prefixes[0], prefixes[1..];
      FragmentIs(rest, k, f);
      if Under(k, p) {
        if k == p + "." + f {
          assert prefixes[0] == p && Suffix(k, p) == f;
        }
        if i :| 0 <= i < |prefixes| && k == prefixes[i] + "." + f
                && forall j :: 0 <= j < i ==> !(prefixes[j] + "." <= k) {
          assert i == 0;
        }
      } else {
        if i :| 0 <= i < |rest| && k == rest[i] + "." + f && forall j :: 0 <= j < i ==> !(rest[j] + "." <= k) {
          assert prefixes[i + 1] == rest[i];
          assert forall j :: 0 < j < i + 1 ==> prefixes[j] == rest[j - 1];
        }
        if i :| 0 <= i < |prefixes| && k == prefixes[i] + "." + f
                && forall j :: 0 <= j < i ==> !(prefixes[j] + "." <= k) {
          assert i > 0 && rest[i - 1] == prefixes[i];
          assert forall j :: 0 <= j < i - 1 ==> rest[j] == prefixes[j + 1];
        }
        assert forall i :: 0 < i < |prefixes| ==> prefixes[i] == rest[i - 1];
        assert forall i :: 0 <= i < |rest| ==> rest[i] == prefixes[i + 1];
      }
    }
  }

  function RowsUnder(t: Table, prefixes: seq<string>): (r: seq<string>) {
    if prefixes == [] then [] else KeysUnder(t, prefixes[0]) + RowsUnder(t, prefixes[1..])
  }

  lemma {:induction false} RowsUnderExact(t: Table, prefixes: seq<string>)
    requires t.Valid()
    ensures forall k :: k in RowsUnder(t, prefixes) <==> k in t.at && FragmentOf(prefixes, k).Some?
  {
    if prefixes != [] {
      OnlyUnderExact(t.keys, prefixes[0]);
      RowsUnderExact(t, prefixes[1..]);
    }
  }

  ghost function LastMarkerIn(s: string, n: nat): (m: int)
    ensures -1 <= m < |s|
  {
    if n == 0 then -1 else if MarkerAt(s, n - 1) then n - 1 else LastMarkerIn(s, n - 1)
  }

  lemma {:induction false} LastMarkerInExact(s: string, n: nat)
    ensures var m := LastMarkerIn(s, n);
            (m == -1 || MarkerAt(s, m)) && forall k :: m < k < n ==> !MarkerAt(s, k)
  {
    if n > 0 && !MarkerAt(s, n - 1) {
      LastMarkerInExact(s, n - 1);
    }
  }

  /** The outcome of the fragment split, as a function. */
  ghost function SplitOf(s: string): (r: Option<Fragment>) {
    if IsDigits(First(s)) && |s| > |First(s)| + 1 then Some(Fragment(First(s), Split(s[|First(s)| + 1..])))
    else
      var m := LastMarkerIn(s, |s|);
      if m > 0 then Some(Fragment(s[..m], Split(s[m + 1..]))) else None
  }

  lemma SplitOfExact(s: string)
    ensures Splits(s, SplitOf(s))
  {
    LastMarkerInExact(s, |s|);
    assert LastMarker(s, LastMarkerIn(s, |s|));
  }

  lemma SplitsUnique(s: string, r: Option<Fragment>)
    requires Splits(s, r)
    ensures r == SplitOf(s)
  {
    LastMarkerInExact(s, |s|);
    assert LastMarker(s, LastMarkerIn(s, |s|));
    if m :| LastMarker(s, m) && r == if m > 0 then Some(Fragment(s[..m], Split(s[m + 1..]))) else None {
      LastMarkerUnique(s, m, LastMarkerIn(s, |s|));
    }
  }

  /** `_split_api_config_fragment`, against that function. */
  method SplitExactly(s: string) returns (r: Option<Fragment>)
    ensures r == SplitOf(s)
  {
    r := SplitFragment(s);
    SplitsUnique(s, r);
  }

  /** The path a row is assigned to, or None if the row is skipped: its fragment does not split, or its
      connection key holds something that is not a dictionary. */
  ghost function PathFor(c: DictConfig, at: map<string, Json>, k: string): (r: Option<Path>)
    ensures r.Some? ==> r.value != []
  {
    match FragmentOf(c.prefixes, k)
    case None => None
    case Some(f) =>
      if !c.api then Some(Split(f))
      else match SplitOf(f)
        case None => None
        case Some(s) =>
          if s.connection in at && !at[s.connection].Obj? then None else Some([s.connection] + s.path)
  }

  /** The dictionary after one row was assigned to its path, or skipped. */
  ghost function PlaceRow(c: DictConfig, at: map<string, Json>, k: string, v: Json): (r: map<string, Json>) {
    match PathFor(c, at, k)
    case None => at
    case Some(path) => AssignPath(at, path, v)
  }

  /** The dictionary after the rows were assigned in order. */
  ghost function Placed(c: DictConfig, at: map<string, Json>, rows: map<string, Json>,
                        ks: seq<string>): (r: map<string, Json>)
    requires forall k :: k in ks ==> k in rows
  {
    if ks == [] then at
    else
      var k := ks[|ks| - 1];
      PlaceRow(c, Placed(c, at, rows, ks[..|ks| - 1]), k, rows[k])
  }

  /** The rows used up on the way. */
  ghost function Orphans(c: DictConfig, at: map<string, Json>, rows: map<string, Json>,
                         ks: seq<string>): (r: seq<string>)
    requires forall k :: k in ks ==> k in rows
  {
    if ks == [] then []
    else
      var init, k := ks[..|ks| - 1], ks[|ks| - 1];
      Orphans(c, at, rows, init) + if PathFor(c, Placed(c, at, rows, init), k).Some? then [k] else []
  }

  function StartAt(t: Table, c: DictConfig): (r: map<string, Json>) {
    if c.key in t.at && t.at[c.key].Obj? then t.at[c.key].at else map[]
  }

  ghost function OrphansOf(t: Table, c: DictConfig): (r: seq<string>)
    requires t.Valid()
  {
    RowsUnderExact(t, c.prefixes);
    Orphans(c, StartAt(t, c), t.at, RowsUnder(t, c.prefixes))
  }

  /** One config repaired: its row written if any flattened row was used. */
  ghost function RepairedOne(t: Table, c: DictConfig): (r: Table)
    requires t.Valid()
    ensures r.Valid()
  {
    RowsUnderExact(t, c.prefixes);
    var at := Placed(c, StartAt(t, c), t.at, RowsUnder(t, c.prefixes));
    PutValid(t, c.key, Obj(at));
    if OrphansOf(t, c) == [] then t else t.Put(c.key, Obj(at))
  }

  /** The `j`th of the tables `ts` with the `j`th config repaired is the next of them. */
  ghost predicate RepairStep(ts: seq<Table>, cs: seq<DictConfig>, j: nat)
    requires j < |cs| && j + 1 < |ts|
  {
    ts[j].Valid() && ts[j + 1] == RepairedOne(ts[j], cs[j])
  }

  /** `ts` are the tables before and after each of the first `n` repairs. */
  ghost predicate Stages(t: Table, ts: seq<Table>, cs: seq<DictConfig>, n: nat) {
    && n <= |cs| && |ts| == n + 1 && ts[0] == t && ts[n].Valid()
    && forall j: nat :: j < n ==> RepairStep(ts, cs, j)
  }

  ghost predicate Used(ts: seq<Table>, cs: seq<DictConfig>, j: nat, k: string)
    requires j < |cs| && j + 1 < |ts|
  {
    RepairStep(ts, cs, j) && k in OrphansOf(ts[j], cs[j])
  }

  ghost predicate AllUsedBy(ts: seq<Table>, cs: seq<DictConfig>, n: nat, gone: set<string>)
    requires n <= |cs| && |ts| == n + 1
  {
    forall k :: k in gone <==> exists j: nat :: j < n && Used(ts, cs, j, k)
  }

  ghost predicate RepairsVia(t: Table, ts: seq<Table>, cs: seq<DictConfig>, gone: set<string>, r: Table) {
    Stages(t, ts, cs, |cs|) && AllUsedBy(ts, cs, |cs|, gone) && r == ts[|cs|].Pop(gone)
  }

  /** `repair_flattened_dict_configs`: the configs are repaired in order, then every used row is deleted. */
  ghost predicate RepairsTo(t: Table, cs: seq<DictConfig>, r: Table) {
    exists ts, gone :: RepairsVia(t, ts, cs, gone, r)
  }

  /** One more row: what it does to the dictionary and whether it is used up. */
  lemma PlacedNext(c: DictConfig, at: map<string, Json>, rows: map<string, Json>, ks: seq<string>, n: nat)
    requires n < |ks| && forall k :: k in ks ==> k in rows
    ensures var prev := Placed(c, at, rows, ks[..n]);
            && Placed(c, at, rows, ks[..n + 1]) == PlaceRow(c, prev, ks[n], rows[ks[n]])
            && Orphans(c, at, rows, ks[..n + 1]) ==
               Orphans(c, at, rows, ks[..n]) + if PathFor(c, prev, ks[n]).Some? then [ks[n]] else []
  {
    assert ks[..n + 1][..n] == ks[..n] && ks[..n + 1][n] == ks[n];
  }

  /** The body of the row loop: find the row's path and assign its value there. */
  method AssignRow(c: DictConfig, at: map<string, Json>, k: string, v: Json)
    returns (next: map<string, Json>, used: bool)
    requires FragmentOf(c.prefixes, k).Some?
    ensures used == PathFor(c, at, k).Some? && next == PlaceRow(c, at, k, v)
  {
    var fragment := FragmentOf(c.prefixes, k).value;
    if !c.api {
      return AssignPath(at, Split(fragment), v), true;
    }
    var split := SplitExactly(fragment);
    if split.None? {
      return at, false;
    }
    var target := split.value.connection;
    if target in at && !at[target].Obj? {
      return at, false;
    }
    return AssignPath(at, [target] + split.value.path, v), true;
  }

  /** The row loop of one config. */
  method PlaceRows(c: DictConfig, start: map<string, Json>, rows: map<string, Json>, ks: seq<string>)
    returns (at: map<string, Json>, orphans: seq<string>)
    requires forall k :: k in ks ==> k in rows && FragmentOf(c.prefixes, k).Some?
    ensures at == Placed(c, start, rows, ks) && orphans == Orphans(c, start, rows, ks)
  {
    at, orphans := start, [];
    var n := 0;
    while n < |ks|
      invariant 0 <= n <= |ks|
      invariant at == Placed(c, start, rows, ks[..n])
      invariant orphans == Orphans(c, start, rows, ks[..n])
    {
      assert ks[n] in ks;
      PlacedNext(c, start, rows, ks, n);
      var next, used := AssignRow(c, at, ks[n], rows[ks[n]]);
      at := next;
      if used {
        orphans := orphans + [ks[n]];
      }
      n := n + 1;
    }
    assert ks[..n] == ks;
  }

  method RepairOne(t: Table, c: DictConfig) returns (r: Table, orphans: seq<string>)
    requires t.Valid()
    ensures r == RepairedOne(t, c) && orphans == OrphansOf(t, c)
  {
    RowsUnderExact(t, c.prefixes);
    var at, used := PlaceRows(c, StartAt(t, c), t.at, RowsUnder(t, c.prefixes));
    orphans := used;
    r := if orphans == [] then t else t.Put(c.key, Obj(at));
  }

  lemma OneMoreStage(t: Table, ts: seq<Table>, cs: seq<DictConfig>, n: nat, gone: set<string>)
    requires n < |cs| && Stages(t, ts, cs, n) && AllUsedBy(ts, cs, n, gone)
    ensures var next := ts + [RepairedOne(ts[n], cs[n])];
            Stages(t, next, cs, n + 1) && AllUsedBy(next, cs, n + 1, gone + Elems(OrphansOf(ts[n], cs[n])))
  {
    var next := ts + [RepairedOne(ts[n], cs[n])];
    forall j: nat | j < n ensures RepairStep(next, cs, j) {
      assert RepairStep(ts, cs, j);
    }
    forall j: nat, k | j < n ensures Used(next, cs, j, k) <==> Used(ts, cs, j, k) {
    }
    assert RepairStep(next, cs, n);
    forall k ensures k in gone + Elems(OrphansOf(ts[n], cs[n])) <==>
        exists j: nat :: j < n + 1 && Used(next, cs, j, k) {
      if j: nat :| j < n && Used(ts, cs, j, k) {
        assert Used(next, cs, j, k);
      }
      assert k in OrphansOf(ts[n], cs[n]) <==> Used(next, cs, n, k);
    }
  }

  method Repair(t: Table, cs: seq<DictConfig>) returns (r: Table)
    requires t.Valid()
    ensures RepairsTo(t, cs, r)
  {
    r := t;
    var orphans := {};
    var n := 0;
    ghost var ts := [t];
    while n < |cs|
      invariant 0 <= n <= |cs|
      invariant Stages(t, ts, cs, n) && r == ts[n] && AllUsedBy(ts, cs, n, orphans)
    {
      OneMoreStage(t, ts, cs, n, orphans);
      var next, mine := RepairOne(r, cs[n]);
      r, orphans := next, orphans + Elems(mine);
      ts := ts + [next];
      n := n + 1;
    }
    r := r.Pop(orphans);
    assert RepairsVia(t, ts, cs, orphans, r);
  }

  // ----- skipped rows stay skipped -----

  lemma SkippedStays(c: DictConfig, at: map<string, Json>, k: string, j: string, v: Json)
    requires PathFor(c, at, k).None? && PathFor(c, at, j).Some?
    ensures PathFor(c, AssignPath(at, PathFor(c, at, j).value, v), k).None?
  {
  }

  /** A row that was not used up is skipped for good. */
  lemma {:induction false} UnusedIsSkipped(c: DictConfig, at: map<string, Json>, rows: map<string, Json>,
                                           ks: seq<string>, k: string)
    requires (forall x :: x in ks ==> x in rows) && k in ks && k !in Orphans(c, at, rows, ks)
    ensures PathFor(c, Placed(c, at, rows, ks), k).None?
  {
    var init, j := ks[..|ks| - 1], ks[|ks| - 1];
    var prev := Placed(c, at, rows, init);
    assert ks == init + [j];
    if k in init && PathFor(c, prev, k).Some? {
      UnusedIsSkipped(c, at, rows, init, k);
    }
    if PathFor(c, prev, j).Some? {
      if k in init {
        UnusedIsSkipped(c, at, rows, init, k);
        SkippedStays(c, prev, k, j, rows[j]);
      }
    }
  }

  lemma {:induction false} AllSkipped(c: DictConfig, at: map<string, Json>, rows: map<string, Json>, ks: seq<string>)
    requires forall x :: x in ks ==> x in rows && PathFor(c, at, x).None?
    ensures Placed(c, at, rows, ks) == at && Orphans(c, at, rows, ks) == []
  {
    if ks != [] {
      assert ks[|ks| - 1] in ks;
      AllSkipped(c, at, rows, ks[..|ks| - 1]);
    }
  }

  lemma {:induction false} OrphansAmong(c: DictConfig, at: map<string, Json>, rows: map<string, Json>, ks: seq<string>)
    requires forall x :: x in ks ==> x in rows
    ensures forall k :: k in Orphans(c, at, rows, ks) ==> k in ks
    ensures Orphans(c, at, rows, ks) == [] ==> Placed(c, at, rows, ks) == at
  {
    if ks != [] {
      OrphansAmong(c, at, rows, ks[..|ks| - 1]);
    }
  }

  /** No flattened row of the config could be used. */
  ghost predicate Settled(t: Table, c: DictConfig) {
    forall k :: k in t.at && FragmentOf(c.prefixes, k).Some? ==> PathFor(c, StartAt(t, c), k).None?
  }

  lemma SettledUnchanged(t: Table, c: DictConfig)
    requires t.Valid() && Settled(t, c)
    ensures RepairedOne(t, c) == t && OrphansOf(t, c) == []
  {
    RowsUnderExact(t, c.prefixes);
    AllSkipped(c, StartAt(t, c), t.at, RowsUnder(t, c.prefixes));
  }

  lemma {:induction false} AllSettledFirst(t: Table, ts: seq<Table>, cs: seq<DictConfig>, n: nat)
    requires Stages(t, ts, cs, |cs|) && n <= |cs| && forall c :: c in cs ==> Settled(t, c)
    ensures ts[n] == t
    ensures forall j: nat, k :: j < n ==> !Used(ts, cs, j, k)
  {
    if n > 0 {
      var m: nat := n - 1;
      AllSettledFirst(t, ts, cs, m);
      assert RepairStep(ts, cs, m) && cs[m] in cs;
      SettledUnchanged(t, cs[m]);
    }
  }

  lemma AllSettled(t: Table, cs: seq<DictConfig>, r: Table)
    requires RepairsTo(t, cs, r) && forall c :: c in cs ==> Settled(t, c)
    ensures r == t
  {
    var ts, gone :| RepairsVia(t, ts, cs, gone, r);
    AllSettledFirst(t, ts, cs, |cs|);
    assert gone == {};
    PopNothing(t);
  }

  // ----- after a repair every config is settled -----

  /** No config key carries a prefix of another, and keys are distinct. */
  ghost predicate Separated(cs: seq<DictConfig>) {
    && (forall i, j :: 0 <= i < |cs| && 0 <= j < |cs| ==> FragmentOf(cs[j].prefixes, cs[i].key).None?)
    && (forall i, j :: 0 <= i < j < |cs| ==> cs[i].key != cs[j].key)
  }

  lemma OtherKeysKept(t: Table, c: DictConfig, k: string)
    requires t.Valid() && c.key != k
    ensures Find(RepairedOne(t, c).at, k) == Find(t.at, k)
  {
  }

  lemma NextKeepsKey(ts: seq<Table>, cs: seq<DictConfig>, j: nat, k: string)
    requires j < |cs| && j + 1 < |ts| && RepairStep(ts, cs, j) && cs[j].key != k
    ensures Find(ts[j + 1].at, k) == Find(ts[j].at, k)
  {
    OtherKeysKept(ts[j], cs[j], k);
  }

  /** Between two stages only the keys of the configs repaired there change. */
  lemma {:induction false} LaterRepairs(t: Table, ts: seq<Table>, cs: seq<DictConfig>, i: nat, n: nat, k: string)
    requires Stages(t, ts, cs, |cs|) && i <= n <= |cs| && forall j :: i <= j < n ==> cs[j].key != k
    ensures Find(ts[n].at, k) == Find(ts[i].at, k)
    decreases n
  {
    if i < n {
      var m: nat := n - 1;
      LaterRepairs(t, ts, cs, i, m, k);
      assert RepairStep(ts, cs, m);
      NextKeepsKey(ts, cs, m, k);
    }
  }

  lemma OrphanHasFragment(d: Table, c: DictConfig, k: string)
    requires d.Valid() && k in OrphansOf(d, c)
    ensures FragmentOf(c.prefixes, k).Some?
  {
    RowsUnderExact(d, c.prefixes);
    OrphansAmong(c, StartAt(d, c), d.at, RowsUnder(d, c.prefixes));
  }

  /** A connection that holds something other than a dictionary keeps it, and no row for it is used. */
  lemma {:induction false} BlockedConnection(c: DictConfig, at: map<string, Json>, rows: map<string, Json>,
                                             ks: seq<string>, connection: string)
    requires c.api && connection in at && at[connection].Leaf? && forall x :: x in ks ==> x in rows
    ensures var r := Placed(c, at, rows, ks); connection in r && r[connection] == at[connection]
    ensures forall k :: k in Orphans(c, at, rows, ks) ==> ConnectionOf(c, k) != Some(connection)
  {
    if ks != [] {
      BlockedConnection(c, at, rows, ks[..|ks| - 1], connection);
    }
  }

  /** The connection a row of an API config names, if its fragment splits. */
  ghost function ConnectionOf(c: DictConfig, k: string): (r: Option<string>) {
    match FragmentOf(c.prefixes, k)
    case None => None
    case Some(f) => match SplitOf(f) case None => None case Some(s) => Some(s.connection)
  }

  /** The dictionary a config ends up with, and what it leaves unused. */
  lemma OneRepaired(d: Table, c: DictConfig, k: string)
    requires d.Valid()
    ensures k in d.at && FragmentOf(c.prefixes, k).Some? && k !in OrphansOf(d, c) ==>
              PathFor(c, StartAt(RepairedOne(d, c), c), k).None?
  {
    RowsUnderExact(d, c.prefixes);
    var start, ks := StartAt(d, c), RowsUnder(d, c.prefixes);
    OrphansAmong(c, start, d.at, ks);
    assert StartAt(RepairedOne(d, c), c) == Placed(c, start, d.at, ks);
    if k in d.at && FragmentOf(c.prefixes, k).Some? && k !in OrphansOf(d, c) {
      UnusedIsSkipped(c, start, d.at, ks, k);
    }
  }

  lemma KeyIsNoOrphan(ts: seq<Table>, cs: seq<DictConfig>, i: nat, j: nat)
    requires Separated(cs) && i < |cs| && j < |cs| && j + 1 < |ts|
    ensures !Used(ts, cs, j, cs[i].key)
  {
    if Used(ts, cs, j, cs[i].key) {
      OrphanHasFragment(ts[j], cs[j], cs[i].key);
    }
  }

  lemma PopKeeps(t: Table, gone: set<string>, k: string)
    requires k !in gone
    ensures Find(t.Pop(gone).at, k) == Find(t.at, k)
  {
  }

  lemma StartSame(a: Table, b: Table, c: DictConfig)
    requires Find(a.at, c.key) == Find(b.at, c.key)
    ensures StartAt(a, c) == StartAt(b, c)
  {
  }

  /** The config row is final once it was repaired. */
  lemma KeyIsFinal(t: Table, ts: seq<Table>, cs: seq<DictConfig>, gone: set<string>, r: Table, i: nat)
    requires RepairsVia(t, ts, cs, gone, r) && Separated(cs) && i < |cs|
    ensures Find(r.at, cs[i].key) == Find(ts[i + 1].at, cs[i].key)
    ensures StartAt(r, cs[i]) == StartAt(ts[i + 1], cs[i])
  {
    var k := cs[i].key;
    LaterRepairs(t, ts, cs, i + 1, |cs|, k);
    forall j: nat | j < |cs| ensures !Used(ts, cs, j, k) {
      KeyIsNoOrphan(ts, cs, i, j);
    }
    PopKeeps(ts[|cs|], gone, k);
    StartSame(r, ts[i + 1], cs[i]);
  }

  lemma LeftoverWasThere(t: Table, ts: seq<Table>, cs: seq<DictConfig>, gone: set<string>, r: Table, i: nat, k: string)
    requires RepairsVia(t, ts, cs, gone, r) && Separated(cs) && i < |cs|
    requires k in r.at && FragmentOf(cs[i].prefixes, k).Some?
    ensures RepairStep(ts, cs, i) && k in ts[i].at && k !in OrphansOf(ts[i], cs[i])
  {
    LaterRepairs(t, ts, cs, i, |cs|, k);
    assert RepairStep(ts, cs, i) && !Used(ts, cs, i, k);
  }

  lemma RepairSettles(t: Table, cs: seq<DictConfig>, r: Table, i: nat)
    requires RepairsTo(t, cs, r) && Separated(cs) && i < |cs|
    ensures Settled(r, cs[i])
  {
    var ts, gone :| RepairsVia(t, ts, cs, gone, r);
    KeyIsFinal(t, ts, cs, gone, r, i);
    forall k | k in r.at && FragmentOf(cs[i].prefixes, k).Some? ensures PathFor(cs[i], StartAt(r, cs[i]), k).None? {
      LeftoverWasThere(t, ts, cs, gone, r, i, k);
      OneRepaired(ts[i], cs[i], k);
    }
  }

  /** A repair leaves alone every row but those of the configs and those under their prefixes. */
  lemma RepairTouchesNothingElse(t: Table, cs: seq<DictConfig>, r: Table, k: string)
    requires RepairsTo(t, cs, r) && forall c :: c in cs ==> c.key != k && FragmentOf(c.prefixes, k).None?
    ensures Find(r.at, k) == Find(t.at, k)
  {
    var ts, gone :| RepairsVia(t, ts, cs, gone, r);
    assert forall j :: 0 <= j < |cs| ==> cs[j] in cs;
    LaterRepairs(t, ts, cs, 0, |cs|, k);
    forall j: nat | j < |cs| ensures !Used(ts, cs, j, k) {
      if Used(ts, cs, j, k) {
        OrphanHasFragment(ts[j], cs[j], k);
      }
    }
    PopKeeps(ts[|cs|], gone, k);
  }

  // ----- seeding -----

  /** `seed_defaults`: stored values win, missing keys are appended in the order of the defaults. */
  function Seeded(t: Table, defaults: Table): (r: Table) {
    Dict(t.keys + Without(defaults.keys, t.at.Keys), defaults.at + t.at)
  }

  /** The stored rows and the defaults among `ks`; stored rows win. */
  function WithDefaults(at: map<string, Json>, defaults: map<string, Json>, ks: seq<string>): (r: map<string, Json>) {
    (map k | k in ks && k in defaults :: defaults[k]) + at
  }

  lemma OneMoreDefault(at: map<string, Json>, defaults: map<string, Json>, ks: seq<string>, k: string)
    requires k in defaults
    ensures var r := WithDefaults(at, defaults, ks);
            WithDefaults(at, defaults, ks + [k]) == if k in r then r else r[k := defaults[k]]
  {
  }

  lemma OneMoreKey(keys: seq<string>, at: map<string, Json>, ks: seq<string>, k: string)
    ensures keys + Without(ks + [k], at.Keys) ==
            if k in at then keys + Without(ks, at.Keys) else keys + Without(ks, at.Keys) + [k]
  {
    WithoutConcat(ks, [k], at.Keys);
  }

  method SeedDefaults(t: Table, defaults: Table) returns (r: Table)
    requires t.Valid() && defaults.Valid()
    ensures r == Seeded(t, defaults)
  {
    var keys, at, existing := t.keys, t.at, t.at.Keys;
    var n := 0;
    assert defaults.keys[..0] == [] && WithDefaults(t.at, defaults.at, []) == t.at;
    while n < |defaults.keys|
      invariant 0 <= n <= |defaults.keys|
      invariant at == WithDefaults(t.at, defaults.at, defaults.keys[..n]) && existing == at.Keys
      invariant keys == t.keys + Without(defaults.keys[..n], t.at.Keys)
    {
      var k := defaults.keys[n];
      NextDefault(t, defaults, n);
      assert k in existing <==> k in t.at;
      if k !in existing {
        keys := keys + [k];
        at := at[k := defaults.at[k]];
        existing := existing + {k};
      }
      n := n + 1;
    }
    assert defaults.keys[..n] == defaults.keys;
    AllDefaults(t.at, defaults);
    r := Dict(keys, at);
  }

  lemma NextDefault(t: Table, defaults: Table, n: nat)
    requires defaults.Valid() && n < |defaults.keys|
    ensures var k, ks := defaults.keys[n], defaults.keys[..n];
            && k in defaults.at && (k in WithDefaults(t.at, defaults.at, ks) <==> k in t.at)
            && WithDefaults(t.at, defaults.at, defaults.keys[..n + 1]) ==
               (if k in t.at then WithDefaults(t.at, defaults.at, ks)
                   else WithDefaults(t.at, defaults.at, ks)[k := defaults.at[k]])
            && t.keys + Without(defaults.keys[..n + 1], t.at.Keys) ==
               (if k in t.at then t.keys + Without(ks, t.at.Keys) else t.keys + Without(ks, t.at.Keys) + [k])
  {
    var k, ks := defaults.keys[n], defaults.keys[..n];
    assert k in defaults.keys && k !in ks;
    assert defaults.keys[..n + 1] == ks + [k];
    OneMoreDefault(t.at, defaults.at, ks, k);
    OneMoreKey(t.keys, t.at, ks, k);
  }

  lemma AllDefaults(at: map<string, Json>, defaults: Table)
    requires defaults.Valid()
    ensures WithDefaults(at, defaults.at, defaults.keys) == defaults.at + at
  {
  }

  lemma SeededValid(t: Table, defaults: Table)
    requires t.Valid() && defaults.Valid()
    ensures Seeded(t, defaults).Valid() && defaults.at.Keys <= Seeded(t, defaults).at.Keys
  {
    WithoutNoDup(defaults.keys, t.at.Keys);
    ConcatNoDup(t.keys, Without(defaults.keys, t.at.Keys));
  }

  lemma SeedNothing(t: Table, defaults: Table)
    requires defaults.Valid() && defaults.at.Keys <= t.at.Keys
    ensures Seeded(t, defaults) == t
  {
    assert forall k :: k in defaults.keys ==> k in t.at.Keys;
    WithoutAll(defaults.keys, t.at.Keys);
    assert defaults.at + t.at == t.at;
  }

  lemma SeedKeepsSettled(t: Table, defaults: Table, c: DictConfig)
    requires Settled(t, c) && forall k :: k in defaults.at ==> FragmentOf(c.prefixes, k).None?
    ensures Settled(Seeded(t, defaults), c)
  {
  }

  // ----- the startup sequence -----

  ghost predicate RenamedTo(t: Table, from: string, to: string, r: Table) {
    && r.Valid()
    && (KeysUnder(t, from) == [] ==> r == t)
    && (forall k :: Find(r.at, k) == RenamedAt(t.at, from, to, k))
  }

  /** What is fixed at startup: the prefix to rename, the dictionary configs, the defaults, and whether config
      persists. */
  datatype Startup = Startup(from: string, to: string, configs: seq<DictConfig>, defaults: Table, persistent: bool)

  ghost predicate Normalizes(u: Startup, t: Table, r: Table) {
    exists mid, fixed :: NormalizesVia(u, t, mid, fixed, r)
  }

  /** `mid` is the table after the renaming, `fixed` after the repair. */
  ghost predicate NormalizesVia(u: Startup, t: Table, mid: Table, fixed: Table, r: Table) {
    && (if u.persistent then RenamedTo(t, u.from, u.to, mid) && RepairsTo(mid, u.configs, fixed)
        else mid == t && fixed == t)
    && r == Seeded(fixed, u.defaults)
  }

  /** No default key and no config key lies under a prefix that startup rewrites. */
  ghost predicate WellConfigured(u: Startup) {
    && NotNested(u.from, u.to) && Separated(u.configs) && u.defaults.Valid()
    && (forall c :: c in u.configs ==> !Under(c.key, u.from))
    && (forall k :: k in u.defaults.at ==> !Under(k, u.from))
    && (forall c, k :: c in u.configs && k in u.defaults.at ==> FragmentOf(c.prefixes, k).None?)
  }

  method SeedRegisteredDefaults(table: ConfigTable, u: Startup)
    requires table.Valid() && u.defaults.Valid() && NotNested(u.from, u.to)
    modifies table
    ensures Normalizes(u, old(table.table), table.table)
  {
    ghost var was := table.table;
    if u.persistent {
      table.RenamePrefix(u.from, u.to);
      ghost var mid := table.table;
      var fixed := Repair(table.table, u.configs);
      RepairedValid(mid, u.configs, fixed);
      table.table := SeedDefaults(fixed, u.defaults);
      assert NormalizesVia(u, was, mid, fixed, table.table);
    } else {
      table.table := SeedDefaults(table.table, u.defaults);
      assert NormalizesVia(u, was, was, was, table.table);
    }
  }

  lemma RepairedValid(t: Table, cs: seq<DictConfig>, r: Table)
    requires RepairsTo(t, cs, r)
    ensures r.Valid()
  {
    var ts, gone :| RepairsVia(t, ts, cs, gone, r);
    PopValid(ts[|cs|], gone);
  }

  /** Repair brings back nothing under a prefix no config key carries. */
  lemma RepairAddsNoneUnder(t: Table, cs: seq<DictConfig>, r: Table, prefix: string)
    requires RepairsTo(t, cs, r) && (forall k :: k in t.at ==> !Under(k, prefix)) && forall c :: c in cs ==>
              !Under(c.key, prefix)
    ensures forall k :: k in r.at ==> !Under(k, prefix)
  {
    var ts, gone :| RepairsVia(t, ts, cs, gone, r);
    forall k | k in r.at ensures !Under(k, prefix) {
      if forall j :: 0 <= j < |cs| ==> cs[j].key != k {
        LaterRepairs(t, ts, cs, 0, |cs|, k);
        assert Find(t.at, k).Some?;
      } else {
        var j :| 0 <= j < |cs| && cs[j].key == k;
        assert cs[j] in cs;
      }
    }
  }

  lemma NormalizedIsClean(u: Startup, t: Table, mid: Table, fixed: Table, r: Table)
    requires t.Valid() && WellConfigured(u) && u.persistent && NormalizesVia(u, t, mid, fixed, r)
    ensures r.Valid() && u.defaults.at.Keys <= r.at.Keys
    ensures KeysUnder(r, u.from) == []
    ensures forall c :: c in u.configs ==> Settled(r, c)
  {
    RepairedValid(mid, u.configs, fixed);
    SeededValid(fixed, u.defaults);
    forall k | k in mid.at ensures !Under(k, u.from) {
      assert Find(mid.at, k).Some?;
    }
    RepairAddsNoneUnder(mid, u.configs, fixed, u.from);
    NothingUnder(r, u.from);
    forall c | c in u.configs ensures Settled(r, c) {
      var i :| 0 <= i < |u.configs| && u.configs[i] == c;
      RepairSettles(mid, u.configs, fixed, i);
      SeedKeepsSettled(fixed, u.defaults, c);
    }
  }

  /** With nothing left under the old prefix and every config settled, startup only seeds. */
  lemma CleanStays(u: Startup, t: Table, mid: Table, fixed: Table, r: Table)
    requires u.persistent && NormalizesVia(u, t, mid, fixed, r)
    requires KeysUnder(t, u.from) == [] && forall c :: c in u.configs ==> Settled(t, c)
    ensures r == Seeded(t, u.defaults)
  {
    AllSettled(t, u.configs, fixed);
  }

  /** Startup normalization is idempotent on any stored config. */
  lemma NormalizeIdempotent(u: Startup, t: Table, r: Table, again: Table)
    requires t.Valid() && WellConfigured(u)
    requires Normalizes(u, t, r) && Normalizes(u, r, again)
    ensures again == r
  {
    var mid, fixed :| NormalizesVia(u, t, mid, fixed, r);
    var mid2, fixed2 :| NormalizesVia(u, r, mid2, fixed2, again);
    if u.persistent {
      NormalizedIsClean(u, t, mid, fixed, r);
      CleanStays(u, r, mid2, fixed2, again);
    } else {
      SeededValid(t, u.defaults);
    }
    SeedNothing(r, u.defaults);
  }

  // ----- flattened rows come back as the dictionary they were -----

  /** The path of a flattened row is read back from its key; a connection key lies above at least one field. */
  ghost predicate Recovered(c: DictConfig, k: string, path: Path) {
    match FragmentOf(c.prefixes, k)
    case None => false
    case Some(f) =>
      if !c.api then Split(f) == path
      else |path| >= 2 && SplitOf(f) == Some(Fragment(path[0], path[1..]))
  }

  /** The rows `ks` hold the entries, one each. */
  ghost predicate RowsHold(c: DictConfig, rows: map<string, Json>, ks: seq<string>, entries: seq<Entry>) {
    && |ks| == |entries|
    && forall i :: 0 <= i < |ks| ==>
         ks[i] in rows && rows[ks[i]] == Leaf(entries[i].v) && entries[i].path != [] &&
             Recovered(c, ks[i], entries[i].path)
  }

  ghost predicate AllDicts(at: map<string, Json>) {
    forall k :: k in at ==> at[k].Obj?
  }

  lemma PathForRecovered(c: DictConfig, at: map<string, Json>, k: string, path: Path)
    requires path != [] && Recovered(c, k, path) && (c.api ==> AllDicts(at))
    ensures PathFor(c, at, k) == Some(path)
    ensures forall v :: c.api ==> AllDicts(AssignPath(at, path, v))
  {
    assert c.api ==> [path[0]] + path[1..] == path;
  }

  lemma {:induction false} PlacedIsAssigned(c: DictConfig, at: map<string, Json>, rows: map<string, Json>,
                                            ks: seq<string>, entries: seq<Entry>)
    requires RowsHold(c, rows, ks, entries) && (c.api ==> AllDicts(at))
    requires (forall k :: k in ks ==> k in rows) && (forall e :: e in entries ==> e.path != [])
    ensures Placed(c, at, rows, ks) == AssignAll(at, entries)
    ensures Orphans(c, at, rows, ks) == ks
    ensures c.api ==> AllDicts(Placed(c, at, rows, ks))
    decreases |ks|
  {
    if ks != [] {
      var n := |ks| - 1;
      var k, e := ks[n], entries[n];
      assert ks == ks[..n] + [k];
      PlacedIsAssigned(c, at, rows, ks[..n], entries[..n]);
      assert k in ks && e in entries && Recovered(c, k, e.path);
      PathForRecovered(c, Placed(c, at, rows, ks[..n]), k, e.path);
    }
  }

  lemma RowsHoldIn(c: DictConfig, rows: map<string, Json>, ks: seq<string>, entries: seq<Entry>)
    requires RowsHold(c, rows, ks, entries)
    ensures (forall k :: k in ks ==> k in rows) && (forall e :: e in entries ==> e.path != [])
  {
  }

  lemma AllUsed(t: Table, c: DictConfig, entries: seq<Entry>)
    requires t.Valid() && (c.api ==> AllDicts(StartAt(t, c)))
    requires RowsHold(c, t.at, RowsUnder(t, c.prefixes), entries) && entries != []
    ensures forall e :: e in entries ==> e.path != []
    ensures OrphansOf(t, c) == RowsUnder(t, c.prefixes)
    ensures RepairedOne(t, c) == t.Put(c.key, Obj(AssignAll(StartAt(t, c), entries)))
  {
    var ks := RowsUnder(t, c.prefixes);
    RowsHoldIn(c, t.at, ks, entries);
    PlacedIsAssigned(c, StartAt(t, c), t.at, ks, entries);
  }

  /** A config with no dictionary stored gets back exactly the dictionary its flattened rows came from, whatever
      order they are read in, and uses them all up. */
  lemma FlattenedComesBack(t: Table, c: DictConfig, d: map<string, Json>, entries: seq<Entry>)
    requires t.Valid() && StartAt(t, c) == map[] && NoEmptyInside(d) && d != map[]
    requires Flattens(d, entries) && RowsHold(c, t.at, RowsUnder(t, c.prefixes), entries)
    ensures Find(RepairedOne(t, c).at, c.key) == Some(Obj(d))
    ensures OrphansOf(t, c) == RowsUnder(t, c.prefixes)
  {
    var p := HasLeaf(Obj(d));
    assert Entry(p, LeafAt(d, p).value) in entries;
    AllUsed(t, c, entries);
    Reassembles(d, entries);
  }

  /** Over a dictionary already stored, the flattened leaves win: each is there with its value, a stored leaf on the
      way to or through one of them is replaced, and every other stored leaf stays. */
  lemma FlattenedOverStored(t: Table, c: DictConfig, d: map<string, Json>, entries: seq<Entry>, q: Path)
    requires t.Valid() && (c.api ==> AllDicts(StartAt(t, c))) && entries != []
    requires Flattens(d, entries) && RowsHold(c, t.at, RowsUnder(t, c.prefixes), entries)
    ensures var r := Find(RepairedOne(t, c).at, c.key);
            && r.Some? && r.value.Obj?
            && LeafAt(r.value.at, q) ==
               if LeafAt(d, q).Some? then LeafAt(d, q)
               else if Touches(entries, q) || c.key !in t.at || t.at[c.key].Leaf? then None
               else LeafAt(t.at[c.key].at, q)
  {
    AllUsed(t, c, entries);
    AssignOver(StartAt(t, c), d, entries, q);
    if LeafAt(d, q).Some? {
      assert Entry(q, LeafAt(d, q).value) in entries;
    }
  }

  lemma PutKeepsKeysUnder(t: Table, k: string, v: Json, p: string)
    requires !Under(k, p)
    ensures KeysUnder(t.Put(k, v), p) == KeysUnder(t, p)
  {
    OnlyUnderAppended(t.keys, k, p);
  }

  lemma {:induction false} PutKeepsRows(t: Table, k: string, v: Json, prefixes: seq<string>)
    requires FragmentOf(prefixes, k).None?
    ensures RowsUnder(t.Put(k, v), prefixes) == RowsUnder(t, prefixes)
  {
    if prefixes != [] {
      PutKeepsKeysUnder(t, k, v, prefixes[0]);
      PutKeepsRows(t, k, v, prefixes[1..]);
    }
  }

  /** Repairing other configs first leaves a config's flattened rows as they were. */
  lemma {:induction false} FirstKeepsRows(t: Table, ts: seq<Table>, cs: seq<DictConfig>, n: nat, i: nat)
    requires Stages(t, ts, cs, |cs|) && Separated(cs) && n <= i < |cs|
    ensures RowsUnder(ts[n], cs[i].prefixes) == RowsUnder(t, cs[i].prefixes)
  {
    if n > 0 {
      var m: nat := n - 1;
      FirstKeepsRows(t, ts, cs, m, i);
      assert RepairStep(ts, cs, m) && FragmentOf(cs[i].prefixes, cs[m].key).None?;
      OneKeepsRows(ts[m], cs[m], cs[i].prefixes);
    }
  }

  lemma OneKeepsRows(d: Table, c: DictConfig, prefixes: seq<string>)
    requires d.Valid() && FragmentOf(prefixes, c.key).None?
    ensures RowsUnder(RepairedOne(d, c), prefixes) == RowsUnder(d, prefixes)
  {
    RowsUnderExact(d, c.prefixes);
    PutKeepsRows(d, c.key, Obj(Placed(c, StartAt(d, c), d.at, RowsUnder(d, c.prefixes))), prefixes);
  }

  lemma RowsHoldLater(t: Table, ts: seq<Table>, cs: seq<DictConfig>, i: nat, entries: seq<Entry>)
    requires t.Valid() && Stages(t, ts, cs, |cs|) && Separated(cs) && i < |cs|
    requires RowsHold(cs[i], t.at, RowsUnder(t, cs[i].prefixes), entries)
    ensures RowsHold(cs[i], ts[i].at, RowsUnder(ts[i], cs[i].prefixes), entries)
    ensures StartAt(ts[i], cs[i]) == StartAt(t, cs[i])
  {
    FirstKeepsRows(t, ts, cs, i, i);
    RowsUnderExact(t, cs[i].prefixes);
    var ks := RowsUnder(t, cs[i].prefixes);
    forall n | 0 <= n < |ks| ensures Find(ts[i].at, ks[n]) == Find(t.at, ks[n]) {
      assert ks[n] in ks;
      LaterRepairs(t, ts, cs, 0, i, ks[n]);
    }
    LaterRepairs(t, ts, cs, 0, i, cs[i].key);
    StartSame(ts[i], t, cs[i]);
  }

  /** The repair of all configs undoes the flattening of each: its row holds the dictionary again, and no
      flattened row of it is left. */
  lemma RepairBringsBack(t: Table, cs: seq<DictConfig>, r: Table, i: nat, d: map<string, Json>, entries: seq<Entry>)
    requires t.Valid() && RepairsTo(t, cs, r) && Separated(cs) && i < |cs|
    requires StartAt(t, cs[i]) == map[] && NoEmptyInside(d) && d != map[]
    requires Flattens(d, entries) && RowsHold(cs[i], t.at, RowsUnder(t, cs[i].prefixes), entries)
    ensures Find(r.at, cs[i].key) == Some(Obj(d))
    ensures forall k :: k in r.at ==> FragmentOf(cs[i].prefixes, k).None?
  {
    var ts, gone :| RepairsVia(t, ts, cs, gone, r);
    assert RepairStep(ts, cs, i);
    RowsHoldLater(t, ts, cs, i, entries);
    FlattenedComesBack(ts[i], cs[i], d, entries);
    KeyIsFinal(t, ts, cs, gone, r, i);
    forall k | k in r.at ensures FragmentOf(cs[i].prefixes, k).None? {
      if FragmentOf(cs[i].prefixes, k).Some? {
        LeftoverWasThere(t, ts, cs, gone, r, i, k);
        RowsUnderExact(ts[i], cs[i].prefixes);
      }
    }
  }

  // ----- from the dictionary alone -----

  /** The row `k` holds the leaf of `d` at `path`, under its dotted key. */
  ghost predicate RowOf(t: Table, c: DictConfig, d: map<string, Json>, k: string, path: Path) {
    && k in t.at && path != [] && FragmentOf(c.prefixes, k) == Some(Join(path))
    && LeafAt(d, path).Some? && t.at[k] == Leaf(LeafAt(d, path).value)
  }

  /** The rows under the prefixes are those of the leaves of `d`, one each. */
  ghost predicate Flattened(t: Table, c: DictConfig, d: map<string, Json>) {
    && (forall k {:trigger HoldsLeaf(t, c, d, k)} :: k in t.at && FragmentOf(c.prefixes, k).Some? ==>
        HoldsLeaf(t, c, d, k))
    && (forall path {:trigger HasRow(t, c, d, path)} :: LeafAt(d, path).Some? ==> HasRow(t, c, d, path))
  }

  ghost predicate HoldsLeaf(t: Table, c: DictConfig, d: map<string, Json>, k: string) {
    exists path :: RowOf(t, c, d, k, path)
  }

  ghost predicate HasRow(t: Table, c: DictConfig, d: map<string, Json>, path: Path) {
    exists k :: RowOf(t, c, d, k, path)
  }

  /** Dot-free keys; for an API config, a connection key made of digits, or one that is not led by digits and holds
      listed fields only. */
  ghost predicate Readable(c: DictConfig, path: Path) {
    if !c.api then forall p :: p in path ==> DotFree(p)
    else
      && |path| >= 2 && (forall p :: p in path[1..] ==> DotFree(p)) && Join(path[1..]) != ""
      && (IsDigits(path[0]) || (|path| == 2 && path[0] != "" && !IsDigits(First(path[0])) && path[1] in FIELDS))
  }

  lemma RowRecovered(t: Table, c: DictConfig, d: map<string, Json>, k: string, path: Path)
    requires RowOf(t, c, d, k, path) && Readable(c, path)
    ensures Recovered(c, k, path)
  {
    RecoveredPaths(c, k, path);
  }

  lemma RecoveredOnce(c: DictConfig, k: string, p: Path, q: Path)
    requires Recovered(c, k, p) && Recovered(c, k, q)
    ensures p == q
  {
    if c.api {
      assert p == [p[0]] + p[1..] && q == [q[0]] + q[1..];
    }
  }

  /** The `i`th entry is the leaf the `i`th row holds. */
  ghost predicate HeldBy(t: Table, c: DictConfig, d: map<string, Json>, k: string, e: Entry) {
    RowOf(t, c, d, k, e.path) && LeafAt(d, e.path) == Some(e.v)
  }

  ghost predicate EntriesFor(t: Table, c: DictConfig, d: map<string, Json>, ks: seq<string>, entries: seq<Entry>) {
    |entries| == |ks| && forall i {:trigger entries[i]} :: 0 <= i < |ks| ==> HeldBy(t, c, d, ks[i], entries[i])
  }

  /** The leaves held by some rows, in their order. */
  lemma {:induction false} EntriesOf(t: Table, c: DictConfig, d: map<string, Json>, ks: seq<string>)
    returns (entries: seq<Entry>)
    requires forall k :: k in ks ==> HoldsLeaf(t, c, d, k)
    ensures EntriesFor(t, c, d, ks, entries)
  {
    if ks == [] {
      entries := [];
    } else {
      var n := |ks| - 1;
      assert ks[n] in ks && forall k :: k in ks[..n] ==> k in ks;
      var init := EntriesOf(t, c, d, ks[..n]);
      var path :| RowOf(t, c, d, ks[n], path);
      entries := init + [Entry(path, LeafAt(d, path).value)];
    }
  }

  lemma EntryHolds(t: Table, c: DictConfig, d: map<string, Json>, k: string, e: Entry)
    requires HeldBy(t, c, d, k, e) && Readable(c, e.path)
    ensures k in t.at && t.at[k] == Leaf(e.v) && e.path != [] && Recovered(c, k, e.path)
  {
    RowRecovered(t, c, d, k, e.path);
  }

  lemma EntriesHold(t: Table, c: DictConfig, d: map<string, Json>, ks: seq<string>, entries: seq<Entry>)
    requires EntriesFor(t, c, d, ks, entries) && forall path :: LeafAt(d, path).Some? ==> Readable(c, path)
    ensures RowsHold(c, t.at, ks, entries)
  {
    forall i | 0 <= i < |ks|
      ensures ks[i] in t.at && t.at[ks[i]] == Leaf(entries[i].v)
      ensures entries[i].path != [] && Recovered(c, ks[i], entries[i].path)
    {
      EntryHolds(t, c, d, ks[i], entries[i]);
    }
  }

  /** Two entries that one row holds are the same. */
  lemma HeldOnce(t: Table, c: DictConfig, d: map<string, Json>, k: string, e: Entry, f: Entry)
    requires HeldBy(t, c, d, k, e) && HeldBy(t, c, d, k, f) && Readable(c, e.path) && Readable(c, f.path)
    ensures e == f
  {
    EntryHolds(t, c, d, k, e);
    EntryHolds(t, c, d, k, f);
    RecoveredOnce(c, k, e.path, f.path);
  }

  lemma EntriesFlatten(t: Table, c: DictConfig, d: map<string, Json>, ks: seq<string>, entries: seq<Entry>)
    requires EntriesFor(t, c, d, ks, entries) && forall path :: LeafAt(d, path).Some? ==> Readable(c, path)
    requires Flattened(t, c, d) && forall k :: k in ks <==> k in t.at && FragmentOf(c.prefixes, k).Some?
    ensures Flattens(d, entries)
  {
    forall e ensures e in entries <==> LeafAt(d, e.path) == Some(e.v) {
      if e in entries {
        var i :| 0 <= i < |entries| && entries[i] == e;
        assert HeldBy(t, c, d, ks[i], e);
      }
      if LeafAt(d, e.path) == Some(e.v) {
        assert HasRow(t, c, d, e.path);
        var k :| RowOf(t, c, d, k, e.path);
        var i :| 0 <= i < |ks| && ks[i] == k;
        assert HeldBy(t, c, d, ks[i], entries[i]) && HeldBy(t, c, d, k, e);
        HeldOnce(t, c, d, k, e, entries[i]);
      }
    }
  }

  /** A dictionary with readable keys, flattened into rows, comes back whole from the repair of all configs. */
  lemma FlatteningUndone(t: Table, cs: seq<DictConfig>, r: Table, i: nat, d: map<string, Json>)
    requires t.Valid() && RepairsTo(t, cs, r) && Separated(cs) && i < |cs|
    requires StartAt(t, cs[i]) == map[] && NoEmptyInside(d) && d != map[] && Flattened(t, cs[i], d)
    requires forall path :: LeafAt(d, path).Some? ==> Readable(cs[i], path)
    ensures Find(r.at, cs[i].key) == Some(Obj(d))
    ensures forall k :: k in r.at ==> FragmentOf(cs[i].prefixes, k).None?
  {
    var c, ks := cs[i], RowsUnder(t, cs[i].prefixes);
    RowsUnderExact(t, c.prefixes);
    forall k | k in ks ensures HoldsLeaf(t, c, d, k) {
    }
    var entries := EntriesOf(t, c, d, ks);
    EntriesHold(t, c, d, ks, entries);
    EntriesFlatten(t, c, d, ks, entries);
    RepairBringsBack(t, cs, r, i, d, entries);
  }

  /** Dotted paths of dot-free keys are always recovered; of API configs, those whose connection key is made of
      digits, or is not led by digits and is followed by one listed field. */
  lemma RecoveredPaths(c: DictConfig, k: string, path: Path)
    requires path != [] && FragmentOf(c.prefixes, k).Some?
    ensures !c.api && (forall p :: p in path ==> DotFree(p)) && FragmentOf(c.prefixes, k).value == Join(path) ==>
              Recovered(c, k, path)
    ensures c.api && |path| >= 2 && (forall p :: p in path[1..] ==> DotFree(p)) && Join(path[1..]) != ""
            && FragmentOf(c.prefixes, k).value == path[0] + "." + Join(path[1..])
            && (IsDigits(path[0]) ||
                (|path| == 2 && path[0] != "" && !IsDigits(First(path[0])) && path[1] in FIELDS)) ==>
              Recovered(c, k, path)
  {
    var f := FragmentOf(c.prefixes, k).value;
    if !c.api {
      if forall p :: p in path ==> DotFree(p) {
        SplitJoin(path);
      }
    } else if |path| >= 2 && (forall p :: p in path[1..] ==> DotFree(p)) && Join(path[1..]) != ""
              && f == path[0] + "." + Join(path[1..]) {
      if IsDigits(path[0]) {
        SplitOfExact(f);
        DigitKeyRecovered(path[0], path[1..], SplitOf(f));
      } else if |path| == 2 && path[0] != "" && !IsDigits(First(path[0])) && path[1] in FIELDS {
        assert path[1..] == [path[1]] && path[1] in path[1..];
        SplitOfExact(f);
        NamedKeyWithOneField(path[0], path[1], SplitOf(f));
      }
    }
  }
}
