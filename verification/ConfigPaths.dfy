/** Nested dictionaries behind dotted config keys (`_assign_path` and `_split_api_config_fragment` in
    models/config.py). */
module ConfigPaths {
  import opened Basics

  /** A stored value: a dictionary, or anything else. */
  datatype Json = Leaf(v: string) | Obj(at: map<string, Json>)

  type Path = seq<string>

  function SubDict(at: map<string, Json>, k: string): (r: map<string, Json>) {
    if k in at && at[k].Obj? then at[k].at else map[]
  }

  /** `_assign_path`: anything in the way that is not a dictionary is replaced by one. */
  function AssignPath(at: map<string, Json>, path: Path, v: Json): (r: map<string, Json>)
    requires path != []
    decreases path
  {
    if |path| == 1 then at[path[0] := v]
    else at[path[0] := Obj(AssignPath(SubDict(at, path[0]), path[1..], v))]
  }

  /** The value of the leaf at a path. */
  function LeafAt(at: map<string, Json>, path: Path): (r: Option<string>)
    decreases path
  {
    if path == [] || path[0] !in at then None
    else match at[path[0]]
      case Leaf(v) => if |path| == 1 then Some(v) else None
      case Obj(sub) => LeafAt(sub, path[1..])
  }

  ghost predicate NoEmptyBelow(j: Json) {
    j.Obj? ==> forall k :: k in j.at ==> (j.at[k].Obj? ==> j.at[k].at != map[]) && NoEmptyBelow(j.at[k])
  }

  /** No dictionary inside is empty. */
  ghost predicate NoEmptyInside(at: map<string, Json>) {
    NoEmptyBelow(Obj(at))
  }

  /** A value that is not an empty dictionary anywhere has a leaf below it. */
  lemma {:induction false} HasLeaf(j: Json) returns (path: Path)
    requires j.Obj? && j.at != map[] && NoEmptyBelow(j)
    ensures LeafAt(j.at, path).Some?
    decreases j
  {
    var k :| k in j.at;
    if j.at[k].Leaf? {
      path := [k];
    } else {
      var rest := HasLeaf(j.at[k]);
      path := [k] + rest;
      assert path[1..] == rest;
    }
  }

  /** Leaves do not lie below leaves. */
  lemma {:induction false} LeavesApart(at: map<string, Json>, p: Path, q: Path)
    requires LeafAt(at, p).Some? && LeafAt(at, q).Some? && p <= q
    ensures p == q
    decreases p
  {
    assert p[0] == q[0];
    if at[p[0]].Obj? {
      assert p[1..] <= q[1..] by { assert q[..|p|] == p; assert q[1..][..|p| - 1] == p[1..]; }
      LeavesApart(at[p[0]].at, p[1..], q[1..]);
      assert p == [p[0]] + p[1..] && q == [q[0]] + q[1..];
    }
  }

  ghost predicate SameLeaves(a: map<string, Json>, b: map<string, Json>) {
    forall p :: LeafAt(a, p) == LeafAt(b, p)
  }

  /** A dictionary without empty inner dictionaries is fixed by its leaves. */
  lemma {:induction false} SameLeavesSame(a: Json, b: Json)
    requires a.Obj? && b.Obj? && NoEmptyBelow(a) && NoEmptyBelow(b) && SameLeaves(a.at, b.at)
    ensures a == b
    decreases a
  {
    forall k ensures k in a.at <==> k in b.at {
      KeyFromLeaf(a, b, k);
      KeyFromLeaf(b, a, k);
    }
    forall k | k in a.at ensures a.at[k] == b.at[k] {
      assert LeafAt(a.at, [k]) == LeafAt(b.at, [k]);
      KeyKind(a, b, k);
      KeyKind(b, a, k);
      if a.at[k].Obj? {
        forall p ensures LeafAt(a.at[k].at, p) == LeafAt(b.at[k].at, p) {
          assert LeafAt(a.at, [k] + p) == LeafAt(b.at, [k] + p);
          assert ([k] + p)[1..] == p;
        }
        SameLeavesSame(a.at[k], b.at[k]);
      }
    }
    assert a.at == b.at;
  }

  lemma KeyFromLeaf(a: Json, b: Json, k: string)
    requires a.Obj? && b.Obj? && NoEmptyBelow(a) && SameLeaves(a.at, b.at)
    ensures k in a.at ==> k in b.at
  {
    if k in a.at {
      if a.at[k].Leaf? {
        assert LeafAt(a.at, [k]) == LeafAt(b.at, [k]);
      } else {
        var p := HasLeaf(a.at[k]);
        assert ([k] + p)[1..] == p;
        assert LeafAt(a.at, [k] + p) == LeafAt(b.at, [k] + p);
      }
    }
  }

  lemma KeyKind(a: Json, b: Json, k: string)
    requires a.Obj? && b.Obj? && NoEmptyBelow(a) && SameLeaves(a.at, b.at) && k in a.at && k in b.at
    ensures a.at[k].Obj? ==> b.at[k].Obj?
  {
    if a.at[k].Obj? {
      var p := HasLeaf(a.at[k]);
      assert ([k] + p)[1..] == p && p != [];
      assert LeafAt(a.at, [k] + p) == LeafAt(b.at, [k] + p);
    }
  }

  /** No leaf lies on the way to the path or below it. */
  ghost predicate Clear(at: map<string, Json>, path: Path) {
    forall q :: LeafAt(at, q).Some? && (q <= path || path <= q) ==> q == path
  }

  /** One path leads to or through the other. */
  ghost predicate OnTheWay(p: Path, q: Path) {
    p <= q || q <= p
  }

  lemma OnTheWayBelow(k: string, p: Path, q: Path)
    ensures OnTheWay([k] + p, [k] + q) <==> OnTheWay(p, q)
  {
    if [k] + p <= [k] + q {
      assert ([k] + q)[..|p| + 1] == [k] + p;
      assert q[..|p|] == ([k] + q)[1..|p| + 1] == p;
    }
    if [k] + q <= [k] + p {
      assert ([k] + p)[..|q| + 1] == [k] + q;
      assert p[..|q|] == ([k] + p)[1..|q| + 1] == q;
    }
  }

  lemma DifferentHeads(p: Path, q: Path)
    requires p != [] && q != [] && p[0] != q[0]
    ensures !OnTheWay(p, q)
  {
  }

  /** Wherever it goes, assigning a leaf puts it at its path, replaces whatever leaf was on the way, and changes no
      other. */
  lemma {:induction false} AssignAnywhere(at: map<string, Json>, path: Path, v: string, q: Path)
    requires path != []
    ensures LeafAt(AssignPath(at, path, Leaf(v)), q) ==
            if q == path then Some(v) else if OnTheWay(q, path) then None else LeafAt(at, q)
    decreases path
  {
    var k := path[0];
    if q == [] {
    } else if q[0] != k {
      DifferentHeads(q, path);
    } else {
      assert q == [k] + q[1..] && path == [k] + path[1..];
      OnTheWayBelow(k, q[1..], path[1..]);
      if |path| > 1 {
        AssignAnywhere(SubDict(at, k), path[1..], v, q[1..]);
      }
    }
  }

  /** On a clear path assigning a leaf adds that leaf and changes no other. */
  lemma AssignLeaf(at: map<string, Json>, path: Path, v: string, q: Path)
    requires path != [] && Clear(at, path)
    ensures LeafAt(AssignPath(at, path, Leaf(v)), q) == if q == path then Some(v) else LeafAt(at, q)
  {
    AssignAnywhere(at, path, v, q);
  }

  lemma {:induction false} AssignKeepsNoEmpty(at: map<string, Json>, path: Path, v: string)
    requires path != [] && NoEmptyInside(at)
    ensures NoEmptyInside(AssignPath(at, path, Leaf(v))) && AssignPath(at, path, Leaf(v)) != map[]
    decreases path
  {
    if |path| > 1 {
      AssignKeepsNoEmpty(SubDict(at, path[0]), path[1..], v);
    }
    assert path[0] in AssignPath(at, path, Leaf(v));
  }

  datatype Entry = Entry(path: Path, v: string)

  /** Assigning entries one after the other. */
  function AssignAll(at: map<string, Json>, entries: seq<Entry>): (r: map<string, Json>)
    requires forall e :: e in entries ==> e.path != []
  {
    if entries == [] then at
    else
      var e := entries[|entries| - 1];
      AssignPath(AssignAll(at, entries[..|entries| - 1]), e.path, Leaf(e.v))
  }

  /** The entries are exactly the leaves of `d`, in some order. */
  ghost predicate Flattens(d: map<string, Json>, entries: seq<Entry>) {
    forall e :: e in entries <==> LeafAt(d, e.path) == Some(e.v)
  }

  ghost predicate PartlyBuilt(d: map<string, Json>, entries: seq<Entry>, at: map<string, Json>) {
    && NoEmptyInside(at)
    && (forall p, v :: LeafAt(at, p) == Some(v) <==> Entry(p, v) in entries)
  }

  lemma {:induction false} AssignSome(d: map<string, Json>, entries: seq<Entry>)
    requires forall e :: e in entries ==> e.path != [] && LeafAt(d, e.path) == Some(e.v)
    ensures PartlyBuilt(d, entries, AssignAll(map[], entries))
  {
    if entries != [] {
      var init, e := entries[..|entries| - 1], entries[|entries| - 1];
      assert entries == init + [e] && e in entries;
      AssignSome(d, init);
      var at := AssignAll(map[], init);
      AssignKeepsNoEmpty(at, e.path, e.v);
      forall q | LeafAt(at, q).Some? && (q <= e.path || e.path <= q) ensures q == e.path {
        assert Entry(q, LeafAt(at, q).value) in init;
        LeavesApartEither(d, q, e.path);
      }
      forall p, v ensures LeafAt(AssignPath(at, e.path, Leaf(e.v)), p) == Some(v) <==> Entry(p, v) in entries {
        AssignLeaf(at, e.path, e.v, p);
        if LeafAt(at, p) == Some(v) && p == e.path {
          assert Entry(p, v) in init;
        }
      }
    }
  }

  lemma LeavesApartEither(d: map<string, Json>, p: Path, q: Path)
    requires LeafAt(d, p).Some? && LeafAt(d, q).Some? && (p <= q || q <= p)
    ensures p == q
  {
    if p <= q {
      LeavesApart(d, p, q);
    } else {
      LeavesApart(d, q, p);
    }
  }

  /** Some entry's path leads to or through `q`, or is led through by it. */
  ghost predicate Touches(entries: seq<Entry>, q: Path) {
    exists e :: e in entries && OnTheWay(q, e.path)
  }

  /** Assigning leaves of one dictionary onto another puts them all there, replaces what is on their ways, and keeps
      the rest. */
  lemma {:induction false} AssignOver(at: map<string, Json>, d: map<string, Json>, entries: seq<Entry>, q: Path)
    requires forall e :: e in entries ==> e.path != [] && LeafAt(d, e.path) == Some(e.v)
    ensures var r := LeafAt(AssignAll(at, entries), q);
            && (forall e :: e in entries && e.path == q ==> r == Some(e.v))
            && ((forall e :: e in entries ==> e.path != q) ==>
                  r == if Touches(entries, q) then None else LeafAt(at, q))
  {
    if entries != [] {
      var init, last := entries[..|entries| - 1], entries[|entries| - 1];
      assert entries == init + [last] && last in entries;
      AssignOver(at, d, init, q);
      AssignAnywhere(AssignAll(at, init), last.path, last.v, q);
      assert Touches(entries, q) <==> Touches(init, q) || OnTheWay(q, last.path);
      forall e | e in entries && e.path == q ensures LeafAt(AssignAll(at, entries), q) == Some(e.v) {
        if OnTheWay(q, last.path) {
          LeavesApartEither(d, q, last.path);
        } else {
          assert e in init;
        }
      }
    }
  }

  /** Flattened leaves reassemble in any order: assigning them one by one onto {} rebuilds the dictionary. */
  lemma Reassembles(d: map<string, Json>, entries: seq<Entry>)
    requires NoEmptyInside(d) && Flattens(d, entries)
    ensures (forall e :: e in entries ==> e.path != []) && AssignAll(map[], entries) == d
  {
    AssignSome(d, entries);
    var at := AssignAll(map[], entries);
    forall p ensures LeafAt(at, p) == LeafAt(d, p) {
      if LeafAt(d, p).Some? {
        assert Entry(p, LeafAt(d, p).value) in entries;
      }
      if LeafAt(at, p).Some? {
        assert Entry(p, LeafAt(at, p).value) in entries;
      }
    }
    SameLeavesSame(Obj(at), Obj(d));
  }

  /** Every nested dictionary has such a list: walk it key by key. */
  lemma {:induction false} FlattenExists(j: Json) returns (entries: seq<Entry>)
    requires j.Obj?
    ensures Flattens(j.at, entries)
    decreases j, |j.at|, 1
  {
    entries := FlattenKeys(j, j.at.Keys);
  }

  lemma {:induction false} FlattenKeys(j: Json, keys: set<string>) returns (entries: seq<Entry>)
    requires j.Obj? && keys <= j.at.Keys
    ensures forall e :: e in entries <==> LeafAt(j.at, e.path) == Some(e.v) && e.path[0] in keys
    decreases j, |keys|, 0
  {
    if keys == {} {
      entries := [];
    } else {
      var k :| k in keys;
      var rest := FlattenKeys(j, keys - {k});
      var mine := FlattenKey(j, k);
      entries := rest + mine;
    }
  }

  lemma {:induction false} FlattenKey(j: Json, k: string) returns (entries: seq<Entry>)
    requires j.Obj? && k in j.at
    ensures forall e :: e in entries <==> LeafAt(j.at, e.path) == Some(e.v) && e.path[0] == k
    decreases j, 0, 2
  {
    match j.at[k]
    case Leaf(v) =>
      entries := [Entry([k], v)];
      forall e: Entry | LeafAt(j.at, e.path) == Some(e.v) && e.path[0] == k ensures e in entries {
        assert e.path == [k];
      }
    case Obj(sub) =>
      var below := FlattenExists(j.at[k]);
      entries := seq(|below|, i requires 0 <= i < |below| => Entry([k] + below[i].path, below[i].v));
      forall e ensures e in entries <==> LeafAt(j.at, e.path) == Some(e.v) && e.path[0] == k {
        if e in entries {
          var i :| 0 <= i < |below| && e == Entry([k] + below[i].path, below[i].v);
          assert below[i] in below && e.path[1..] == below[i].path;
        }
        if LeafAt(j.at, e.path) == Some(e.v) && e.path[0] == k {
          assert Entry(e.path[1..], e.v) in below;
          var i :| 0 <= i < |below| && below[i] == Entry(e.path[1..], e.v);
          assert entries[i] == Entry([k] + e.path[1..], e.v) && e.path == [k] + e.path[1..];
        }
      }
  }

  // ----- dotted keys -----

  predicate DotFree(s: string) {
    '.' !in s
  }

  /** `s.split('.')`. */
  function Split(s: string): (r: Path)
    ensures r != []
  {
    if s == [] then [[]]
    else if s[0] == '.' then [[]] + Split(s[1..])
    else var rest := Split(s[1..]); [[s[0]] + rest[0]] + rest[1..]
  }

  function Join(path: Path): (r: string)
    requires path != []
  {
    if |path| == 1 then path[0] else path[0] + "." + Join(path[1..])
  }

  lemma {:induction false} SplitDot(part: string, rest: string)
    requires DotFree(part)
    ensures Split(part + "." + rest) == [part] + Split(rest)
  {
    if part == [] {
      assert part + "." + rest == "." + rest && ("." + rest)[1..] == rest;
    } else {
      var s := part + "." + rest;
      assert s[0] == part[0] && part[0] in part;
      assert s[1..] == part[1..] + "." + rest;
      assert forall c :: c in part[1..] ==> c in part;
      SplitDot(part[1..], rest);
      assert [part[0]] + part[1..] == part;
    }
  }

  lemma {:induction false} SplitPlain(part: string)
    requires DotFree(part)
    ensures Split(part) == [part]
  {
    if part != [] {
      assert part[0] in part && forall c :: c in part[1..] ==> c in part;
      SplitPlain(part[1..]);
      assert [part[0]] + part[1..] == part;
    }
  }

  /** Splitting a joined path of dot-free keys gives the path back. */
  lemma {:induction false} SplitJoin(path: Path)
    requires path != [] && forall k :: k in path ==> DotFree(k)
    ensures Split(Join(path)) == path
  {
    if |path| == 1 {
      assert path[0] in path;
      SplitPlain(path[0]);
    } else {
      assert path[0] in path && forall k :: k in path[1..] ==> k in path;
      SplitJoin(path[1..]);
      SplitDot(path[0], Join(path[1..]));
      assert [path[0]] + path[1..] == path;
    }
  }

  // ----- fragments of API configs: a connection key, then fields -----

  const FIELDS: seq<string> := [
    "enable", "key", "prefix_id", "tags", "model_ids", "connection_type", "provider", "auth_type",
    "headers", "azure", "api_version", "extra_params", "anthropic_version", "max_tokens"]

  predicate IsDigits(s: string) {
    s != [] && forall c :: c in s ==> '0' <= c <= '9'
  }

  /** The text before the first dot. */
  function First(s: string): (r: string) {
    Split(s)[0]
  }

  /** A listed field starts right after a dot at `i`. */
  predicate FieldAt(s: string, f: string, i: int) {
    0 <= i && i + 1 + |f| <= |s| && s[i] == '.' && s[i + 1..i + 1 + |f|] == f
  }

  predicate MarkerAt(s: string, i: int) {
    exists f :: f in FIELDS && FieldAt(s, f, i)
  }

  /** `s.rfind('.' + f)`. */
  method FindLast(s: string, f: string) returns (i: int)
    ensures i == -1 || FieldAt(s, f, i)
    ensures forall k :: k > i ==> !FieldAt(s, f, k)
  {
    i := |s|;
    while i >= 0
      invariant -1 <= i <= |s|
      invariant forall k :: k > i ==> !FieldAt(s, f, k)
    {
      if i + 1 + |f| <= |s| && s[i] == '.' && s[i + 1..i + 1 + |f|] == f {
        return;
      }
      i := i - 1;
    }
  }

  /** Where the last marker of any listed field begins, or -1. */
  ghost predicate LastMarker(s: string, m: int) {
    (m == -1 || MarkerAt(s, m)) && forall k :: k > m ==> !MarkerAt(s, k)
  }

  datatype Fragment = Fragment(connection: string, path: Path)

  /** The outcome of `_split_api_config_fragment`. */
  ghost predicate Splits(s: string, r: Option<Fragment>) {
    if IsDigits(First(s)) && |s| > |First(s)| + 1 then
      r == Some(Fragment(First(s), Split(s[|First(s)| + 1..])))
    else exists m :: LastMarker(s, m) && r == if m > 0 then Some(Fragment(s[..m], Split(s[m + 1..]))) else None
  }

  lemma {:induction false} FirstExact(s: string)
    ensures First(s) <= s && DotFree(First(s)) && (|First(s)| < |s| ==> s[|First(s)|] == '.')
  {
    if s != [] && s[0] != '.' {
      FirstExact(s[1..]);
      assert s == [s[0]] + s[1..];
    }
  }

  /** The loop over the listed fields: the last marker of any of those tried so far. */
  method FindLastMarker(s: string) returns (best: int)
    ensures LastMarker(s, best)
  {
    best := -1;
    var n := 0;
    while n < |FIELDS|
      invariant 0 <= n <= |FIELDS|
      invariant best == -1 || MarkerAt(s, best)
      invariant forall f, k :: f in FIELDS[..n] && k > best ==> !FieldAt(s, f, k)
    {
      var i := FindLast(s, FIELDS[n]);
      assert FIELDS[..n + 1] == FIELDS[..n] + [FIELDS[n]] && FIELDS[n] in FIELDS;
      if i > best {
        best := i;
      }
      n := n + 1;
    }
    assert FIELDS[..n] == FIELDS;
  }

  method SplitFragment(s: string) returns (r: Option<Fragment>)
    ensures Splits(s, r)
  {
    FirstExact(s);
    var first := First(s);
    if IsDigits(first) && |s| > |first| + 1 {
      return Some(Fragment(first, Split(s[|first| + 1..])));
    }
    var best := FindLastMarker(s);
    r := if best > 0 then Some(Fragment(s[..best], Split(s[best + 1..]))) else None;
  }

  lemma LastMarkerUnique(s: string, a: int, b: int)
    requires LastMarker(s, a) && LastMarker(s, b)
    ensures a == b
  {
  }

  lemma {:induction false} SplitConcat(a: string, b: string)
    ensures Split(a + "." + b) == Split(a) + Split(b)
  {
    var s := a + "." + b;
    if a == [] {
      assert s[0] == '.' && s[1..] == b;
    } else {
      assert s[0] == a[0] && s[1..] == a[1..] + "." + b;
      SplitConcat(a[1..], b);
    }
  }

  lemma JoinHead(path: Path)
    requires path != []
    ensures path[0] <= Join(path)
  {
  }

  /** A connection key made of digits is recovered with whatever path follows. */
  lemma DigitKeyRecovered(key: string, path: Path, r: Option<Fragment>)
    requires IsDigits(key) && path != [] && Join(path) != "" && forall k :: k in path ==> DotFree(k)
    requires Splits(key + "." + Join(path), r)
    ensures r == Some(Fragment(key, path))
  {
    var s := key + "." + Join(path);
    assert DotFree(key);
    SplitPlain(key);
    SplitConcat(key, Join(path));
    assert First(s) == key && s[|key| + 1..] == Join(path);
    SplitJoin(path);
  }

  /** A key led by digits but not made of them is cut at its first dot. */
  lemma DigitLedKeyCut(key: string, rest: string, r: Option<Fragment>)
    requires IsDigits(First(key)) && !IsDigits(key) && rest != ""
    requires Splits(key + "." + rest, r)
    ensures r.Some? && r.value.connection == First(key) && First(key) != key
  {
    SplitConcat(key, rest);
    FirstExact(key);
  }

  lemma FieldAfterKey(key: string, path: Path)
    requires path != [] && path[0] in FIELDS
    ensures MarkerAt(key + "." + Join(path), |key|)
  {
    var s := key + "." + Join(path);
    JoinHead(path);
    assert s[|key|] == '.' && s[|key| + 1..] == Join(path);
    assert s[|key| + 1..][..|path[0]|] == path[0];
    assert FieldAt(s, path[0], |key|);
  }

  lemma PlainKeyRecoveredIff(key: string, path: Path, m: int, r: Option<Fragment>)
    requires key != "" && path != [] && path[0] in FIELDS && forall k :: k in path ==> DotFree(k)
    requires LastMarker(key + "." + Join(path), m)
    requires var s := key + "." + Join(path); r == if m > 0 then Some(Fragment(s[..m], Split(s[m + 1..]))) else None
    ensures r == Some(Fragment(key, path)) <==> m == |key|
    ensures m == |key| <==> forall i :: i > |key| ==> !MarkerAt(key + "." + Join(path), i)
  {
    var s := key + "." + Join(path);
    FieldAfterKey(key, path);
    if m == |key| {
      assert s[..m] == key && s[m + 1..] == Join(path);
      SplitJoin(path);
    }
  }

  /** Otherwise, with a listed field first on the path: a key led by digits is cut at its first dot, and any
      later dot before a listed field is mistaken for the end of the key. In all other cases it is recovered. */
  lemma NamedKeyRecoveredIff(key: string, path: Path, r: Option<Fragment>)
    requires key != "" && !IsDigits(key)
    requires path != [] && path[0] in FIELDS && path[0] != "" && forall k :: k in path ==> DotFree(k)
    requires Splits(key + "." + Join(path), r)
    ensures r == Some(Fragment(key, path)) <==>
            !IsDigits(First(key)) && forall i :: i > |key| ==> !MarkerAt(key + "." + Join(path), i)
  {
    var s := key + "." + Join(path);
    JoinHead(path);
    if IsDigits(First(key)) {
      DigitLedKeyCut(key, Join(path), r);
    } else {
      SplitConcat(key, Join(path));
      var m :| LastMarker(s, m) && r == if m > 0 then Some(Fragment(s[..m], Split(s[m + 1..]))) else None;
      PlainKeyRecoveredIff(key, path, m, r);
    }
  }

  lemma NoLaterMarker(key: string, f: string, i: int)
    requires DotFree(f) && i > |key|
    ensures !MarkerAt(key + "." + f, i)
  {
    var s := key + "." + f;
    if i < |s| {
      assert s[i] == f[i - |key| - 1] && s[i] in f;
    }
  }

  /** A key not led by digits, followed by one listed field, is always recovered. */
  lemma NamedKeyWithOneField(key: string, f: string, r: Option<Fragment>)
    requires key != "" && !IsDigits(First(key)) && f in FIELDS && f != "" && DotFree(f)
    requires Splits(key + "." + f, r)
    ensures r == Some(Fragment(key, [f]))
  {
    if IsDigits(key) {
      SplitPlain(key);
    }
    forall i | i > |key| ensures !MarkerAt(key + "." + f, i) {
      NoLaterMarker(key, f, i);
    }
    assert Join([f]) == f;
    NamedKeyRecoveredIff(key, [f], r);
  }

  /** Two listed fields after a key: the first of them is taken for part of the key. */
  lemma TwoFieldsMisread(key: string, f: string, g: string, r: Option<Fragment>)
    requires key != "" && !IsDigits(First(key)) && g in FIELDS && g != "" && DotFree(g)
    requires Splits(key + "." + f + "." + g, r)
    ensures r == Some(Fragment(key + "." + f, [g])) && r.value.connection != key
  {
    SplitConcat(key, f);
    NamedKeyWithOneField(key + "." + f, g, r);
    assert |key + "." + f| > |key|;
  }

  /** For example, the maximum of tokens among the extra parameters of the connection `c`. */
  lemma ExtraParamMisread(r: Option<Fragment>)
    requires Splits("c" + "." + "extra_params" + "." + "max_tokens", r)
    ensures r == Some(Fragment("c" + "." + "extra_params", ["max_tokens"]))
  {
    assert FIELDS[13] == "max_tokens" && FIELDS[13] in FIELDS;
    SplitPlain("c");
    assert "c"[0] in "c" && !IsDigits("c");
    assert DotFree("max_tokens");
    TwoFieldsMisread("c", "extra_params", "max_tokens", r);
  }

  /** A host address is led by digits: its key is cut short, whatever field follows. */
  lemma AddressKeyCut(rest: string, f: string, r: Option<Fragment>)
    requires Splits("10" + "." + rest + "." + f, r)
    requires rest != ""
    ensures r.Some? && r.value.connection == "10"
  {
    var s := "10" + "." + rest + "." + f;
    assert First(s) == "10" by {
      assert s == "10" + "." + (rest + "." + f);
      SplitConcat("10", rest + "." + f);
      SplitPlain("10");
    }
    assert IsDigits("10") && |s| > |First(s)| + 1;
  }
}
