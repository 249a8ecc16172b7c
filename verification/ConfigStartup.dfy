/** Startup normalization of the config table: rename a prefix, reassemble flattened dictionaries, seed
    defaults (`seed_registered_defaults` in config.py over models/config.py). */
module ConfigStartup {
  import opened Basics
  import opened ConfigPaths

  /** The config table, rows in the order the database returns them. */
  type Table = Dict<string, Json>

  /** `key LIKE prefix.%`. */
  predicate Under(k: string, prefix: string) {
    prefix + "." <= k
  }

  function Suffix(k: string, prefix: string): (r: string)
    requires Under(k, prefix)
    ensures k == prefix + "." + r
  {
    k[|prefix| + 1..]
  }

  /** The keys under a prefix, in order. */
  function OnlyUnder(keys: seq<string>, prefix: string): (r: seq<string>) {
    if keys == [] then []
    else (if Under(keys[0], prefix) then [keys[0]] else []) + OnlyUnder(keys[1..], prefix)
  }

  function KeysUnder(t: Table, prefix: string): (r: seq<string>) {
    OnlyUnder(t.keys, prefix)
  }

  lemma {:induction false} OnlyUnderExact(keys: seq<string>, prefix: string)
    ensures forall k :: k in OnlyUnder(keys, prefix) <==> k in keys && Under(k, prefix)
    ensures NoDup(keys) ==> NoDup(OnlyUnder(keys, prefix))
  {
    if keys != [] {
      OnlyUnderExact(keys[1..], prefix);
      assert keys == [keys[0]] + keys[1..];
    }
  }

  lemma {:induction false} OnlyUnderAppended(keys: seq<string>, k: string, prefix: string)
    requires !Under(k, prefix)
    ensures OnlyUnder(keys + [k], prefix) == OnlyUnder(keys, prefix)
  {
    if keys != [] {
      assert (keys + [k])[1..] == keys[1..] + [k];
      OnlyUnderAppended(keys[1..], k, prefix);
    }
  }

  // ----- rename_prefix -----

  /** Neither dotted prefix begins the other. */
  predicate NotNested(a: string, b: string) {
    !(a + "." <= b + ".") && !(b + "." <= a + ".")
  }

  lemma NotUnderBoth(k: string, a: string, b: string)
    requires NotNested(a, b) && Under(k, a)
    ensures !Under(k, b)
  {
  }

  /** The value a key has after renaming: under the new prefix its own value wins over the moved one. */
  function RenamedAt(at: map<string, Json>, from: string, to: string, k: string): (r: Option<Json>) {
    if Under(k, from) then None
    else if k in at then Some(at[k])
    else if Under(k, to) && from + "." + Suffix(k, to) in at then Some(at[from + "." + Suffix(k, to)])
    else None
  }

  /** Part of the way: the rows in `moved` have been dealt with. */
  ghost predicate PartlyRenamed(was: Table, t: Table, from: string, to: string, moved: set<string>) {
    && t.Valid()
    && (forall k :: k in moved ==> k !in t.at)
    && (forall k :: k in was.at && k !in moved ==> k in t.at && t.at[k] == was.at[k])
    && MovedHaveNew(was, t, from, to, moved)
    && NewAreMoved(was, t, from, to, moved)
  }

  ghost predicate MovedHaveNew(was: Table, t: Table, from: string, to: string, moved: set<string>) {
    forall k :: k in moved ==> Under(k, from) && k in was.at && NewKey(k, from, to) in t.at
  }

  ghost predicate NewAreMoved(was: Table, t: Table, from: string, to: string, moved: set<string>) {
    forall k :: k in t.at && k !in was.at ==>
      Under(k, to) && from + "." + Suffix(k, to) in moved
      && from + "." + Suffix(k, to) in was.at && t.at[k] == was.at[from + "." + Suffix(k, to)]
  }

  /** One row moved, or dropped where the new key is taken. */
  function MovedOne(t: Table, from: string, to: string, row: string): (r: Table)
    requires row in t.at && Under(row, from)
  {
    var newKey := NewKey(row, from, to);
    (if newKey in t.at then t else t.Put(newKey, t.at[row])).Pop({row})
  }

  class ConfigTable {
    var table: Table

    ghost predicate Valid()
      reads this
    {
      table.Valid()
    }

    method RenamePrefix(from: string, to: string)
      requires Valid() && NotNested(from, to)
      modifies this
      ensures Valid()
      ensures KeysUnder(old(table), from) == [] ==> table == old(table)
      ensures forall k :: Find(table.at, k) == RenamedAt(old(table.at), from, to, k)
    {
      var rows := KeysUnder(table, from);
      if rows == [] {
        NothingUnder(table, from);
        NothingToRename(table, from, to);
        return;
      }
      ghost var was := table;
      OnlyUnderExact(table.keys, from);
      MoveRows(rows, from, to);
      AllRenamed(was, table, from, to, Elems(rows));
    }

    method MoveRows(rows: seq<string>, from: string, to: string)
      requires Valid() && NotNested(from, to) && rows == KeysUnder(table, from)
      modifies this
      ensures PartlyRenamed(old(table), table, from, to, Elems(rows))
    {
      ghost var was := table;
      OnlyUnderExact(table.keys, from);
      var n := 0;
      while n < |rows|
        invariant 0 <= n <= |rows|
        invariant PartlyRenamed(was, table, from, to, Elems(rows[..n]))
      {
        ghost var moved := Elems(rows[..n]);
        NextRow(was, rows, from, n);
        RenameOne(was, table, from, to, moved, rows[n]);
        var newKey := NewKey(rows[n], from, to);
        if newKey !in table.at {
          table := table.Put(newKey, table.at[rows[n]]);
        }
        table := table.Pop({rows[n]});
        n := n + 1;
      }
      assert rows[..n] == rows;
    }
  }

  lemma NextRow(was: Table, rows: seq<string>, from: string, n: nat)
    requires was.Valid() && rows == KeysUnder(was, from) && NoDup(rows) && n < |rows|
    ensures rows[n] in was.at && Under(rows[n], from) && rows[n] !in Elems(rows[..n])
    ensures Elems(rows[..n + 1]) == Elems(rows[..n]) + {rows[n]}
  {
    OnlyUnderExact(was.keys, from);
    assert rows[n] in rows;
    assert rows[..n + 1] == rows[..n] + [rows[n]];
  }

  lemma NothingUnder(t: Table, prefix: string)
    requires t.Valid()
    ensures KeysUnder(t, prefix) == [] <==> forall k :: k in t.at ==> !Under(k, prefix)
  {
    OnlyUnderExact(t.keys, prefix);
    if KeysUnder(t, prefix) == [] {
      forall k | k in t.at ensures !Under(k, prefix) {
        assert k in t.keys && k !in KeysUnder(t, prefix);
      }
    } else {
      assert KeysUnder(t, prefix)[0] in KeysUnder(t, prefix);
    }
  }

  lemma NothingToRename(t: Table, from: string, to: string)
    requires forall k :: k in t.at ==> !Under(k, from)
    ensures forall k :: Find(t.at, k) == RenamedAt(t.at, from, to, k)
  {
  }

  function NewKey(row: string, from: string, to: string): (r: string)
    requires Under(row, from)
  {
    to + "." + Suffix(row, from)
  }

  lemma NewKeyExact(row: string, from: string, to: string)
    requires NotNested(from, to) && Under(row, from)
    ensures var k := NewKey(row, from, to); Under(k, to) && !Under(k, from) && from + "." + Suffix(k, to) == row
  {
    var k := NewKey(row, from, to);
    assert Under(k, to) && Suffix(k, to) == Suffix(row, from);
    NotUnderBoth(k, to, from);
  }

  lemma RenameOne(was: Table, t: Table, from: string, to: string, moved: set<string>, row: string)
    requires PartlyRenamed(was, t, from, to, moved) && NotNested(from, to)
    requires row in was.at && Under(row, from) && row !in moved
    ensures row in t.at && PartlyRenamed(was, MovedOne(t, from, to, row), from, to, moved + {row})
  {
    NewKeyExact(row, from, to);
    MovedOneValid(t, from, to, row);
    RenameOneMoves(was, t, from, to, moved, row);
    RenameOneNew(was, t, from, to, moved, row);
  }

  lemma RenameOneMoves(was: Table, t: Table, from: string, to: string, moved: set<string>, row: string)
    requires MovedHaveNew(was, t, from, to, moved) && NotNested(from, to)
    requires row in was.at && row in t.at && Under(row, from)
    ensures MovedHaveNew(was, MovedOne(t, from, to, row), from, to, moved + {row})
  {
    forall k | k in moved + {row} ensures NewKey(k, from, to) in MovedOne(t, from, to, row).at {
      NewKeyExact(k, from, to);
    }
  }

  lemma RenameOneNew(was: Table, t: Table, from: string, to: string, moved: set<string>, row: string)
    requires NewAreMoved(was, t, from, to, moved) && NotNested(from, to)
    requires row in was.at && row in t.at && t.at[row] == was.at[row] && Under(row, from)
    ensures NewAreMoved(was, MovedOne(t, from, to, row), from, to, moved + {row})
  {
    NewKeyExact(row, from, to);
  }

  lemma MovedOneValid(t: Table, from: string, to: string, row: string)
    requires t.Valid() && row in t.at && Under(row, from)
    ensures MovedOne(t, from, to, row).Valid()
  {
    var newKey := NewKey(row, from, to);
    PutValid(t, newKey, t.at[row]);
    PopValid(t, {row});
    PopValid(t.Put(newKey, t.at[row]), {row});
  }

  lemma AllRenamed(was: Table, t: Table, from: string, to: string, moved: set<string>)
    requires PartlyRenamed(was, t, from, to, moved) && NotNested(from, to)
    requires forall k :: k in moved <==> k in was.at && Under(k, from)
    ensures forall k :: Find(t.at, k) == RenamedAt(was.at, from, to, k)
  {
    forall k ensures Find(t.at, k) == RenamedAt(was.at, from, to, k) {
      if Under(k, to) {
        var o := from + "." + Suffix(k, to);
        assert Under(o, from) && Suffix(o, from) == Suffix(k, to);
        if o in was.at {
          assert o in moved;
          assert NewKey(o, from, to) == k;
        }
      }
    }
  }

  /** Every other row stays as it was. */
  lemma RenameTouchesNothingElse(at: map<string, Json>, from: string, to: string, k: string)
    requires !(from + "." <= k) && !(to + "." <= k)
    ensures RenamedAt(at, from, to, k) == if k in at then Some(at[k]) else None
  {
  }

  /** Renaming loses no suffix: each is there under the new prefix, with the value that was there first. */
  lemma RenameKeepsSuffixes(at: map<string, Json>, from: string, to: string, suffix: string)
    requires NotNested(from, to)
    ensures RenamedAt(at, from, to, from + "." + suffix) == None
    ensures RenamedAt(at, from, to, to + "." + suffix) ==
            if to + "." + suffix in at then Some(at[to + "." + suffix])
            else if from + "." + suffix in at then Some(at[from + "." + suffix]) else None
  {
    var k := to + "." + suffix;
    assert Under(k, to) && Suffix(k, to) == suffix;
    NotUnderBoth(k, to, from);
    assert Under(from + "." + suffix, from);
  }
}
