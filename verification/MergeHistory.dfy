/** Merging two chat histories (`merge_history` in models/chats.py). */
module MergeHistory {
  import opened Basics
  import opened Forest
  import opened History

  /** An entry of an unchecked `messages` dictionary; only dictionaries count as messages. */
  datatype Entry = Junk | Object(m: Message)

  type Entries = Dict<Id, Entry>

  /** A history as it arrives. A missing history, `messages` or `currentId` is the empty one. */
  datatype RawHistory = RawHistory(messages: Entries, currentId: Option<Id>, other: map<string, string>) {
    ghost predicate Valid() { messages.Valid() }
  }

  /** The messages among the entries, their child lists emptied. */
  function BareOf(at: map<Id, Entry>): (r: map<Id, Message>) {
    map k | k in at && at[k].Object? :: at[k].m.(childrenIds := [])
  }

  /** The messages among the entries, as they are. */
  function MessagesOf(at: map<Id, Entry>): (r: map<Id, Message>) {
    map k | k in at && at[k].Object? :: at[k].m
  }

  function ChildSet(at: map<Id, Message>, p: Id): (r: set<Id>) {
    set c | c in at && at[c].parentId == Some(p)
  }

  /** The messages, each listing those of `keys` that name it as parent. */
  function Listed(bare: map<Id, Message>, keys: seq<Id>): (r: map<Id, Message>) {
    map k | k in bare :: bare[k].(childrenIds := Within(keys, ChildSet(bare, k)))
  }

  function Objects(at: map<Id, Message>): (r: map<Id, Entry>) {
    map k | k in at :: Object(at[k])
  }

  function PickCursor(keys: set<Id>, existing: Option<Id>, incoming: Option<Id>): (r: Option<Id>) {
    if incoming.Some? && incoming.value in keys then incoming
    else if existing.Some? && existing.value in keys then existing
    else None
  }

  /** Entries that are all messages and whose child lists are rebuilt from their parents. */
  function Rebuilt(keys: seq<Id>, bare: map<Id, Message>): (r: Entries) {
    Dict(Within(keys, bare.Keys), Objects(Listed(bare, Within(keys, bare.Keys))))
  }

  function Merged(e: RawHistory, i: RawHistory): (r: RawHistory) {
    var u := Merge(e.messages, i.messages);
    var bare := BareOf(u.at);
    RawHistory(Rebuilt(u.keys, bare), PickCursor(bare.Keys, e.currentId, i.currentId), e.other + i.other)
  }

  lemma ListOneMore(bare: map<Id, Message>, keys: seq<Id>, id: Id, k: Id)
    requires id in bare && k in bare
    ensures Within(keys + [id], ChildSet(bare, k)) ==
            Within(keys, ChildSet(bare, k)) + if bare[id].parentId == Some(k) then [id] else []
  {
    WithinConcat(keys, [id], ChildSet(bare, k));
  }

  lemma LinkOne(bare: map<Id, Message>, keys: seq<Id>, id: Id)
    requires id in bare
    ensures var at, parent := Listed(bare, keys), bare[id].parentId;
            Listed(bare, keys + [id]) ==
            if parent.Some? && parent.value in at
            then at[parent.value := at[parent.value].(childrenIds := at[parent.value].childrenIds + [id])]
            else at
  {
    var at, next := Listed(bare, keys), Listed(bare, keys + [id]);
    forall k | k in bare
      ensures next[k] == if bare[id].parentId == Some(k) then at[k].(childrenIds := at[k].childrenIds + [id]) else at[k]
    {
      ListOneMore(bare, keys, id, k);
    }
  }

  /** The second loop of the merge: append each message to its parent's child list, in key order. */
  method Relink(keys: seq<Id>, bare: map<Id, Message>) returns (at: map<Id, Message>)
    requires forall k :: k in keys ==> k in bare
    requires forall k :: k in bare ==> bare[k].childrenIds == []
    ensures at == Listed(bare, keys)
  {
    at := bare;
    var n := 0;
    assert keys[..0] == [] && at == Listed(bare, []);
    while n < |keys|
      invariant 0 <= n <= |keys|
      invariant at == Listed(bare, keys[..n])
    {
      var id := keys[n];
      assert id in keys && keys[..n + 1] == keys[..n] + [id];
      LinkOne(bare, keys[..n], id);
      var parent := at[id].parentId;
      if parent.Some? && parent.value in at {
        var p := at[parent.value];
        at := at[parent.value := p.(childrenIds := p.childrenIds + [id])];
      }
      n := n + 1;
    }
    assert keys[..n] == keys;
  }

  method MergeHistories(e: RawHistory, i: RawHistory) returns (r: RawHistory)
    ensures r == Merged(e, i)
  {
    var u := Merge(e.messages, i.messages);
    var bare := BareOf(u.at);
    var keys := Within(u.keys, bare.Keys);
    var at := Relink(keys, bare);
    r := RawHistory(Dict(keys, Objects(at)), PickCursor(at.Keys, e.currentId, i.currentId), e.other + i.other);
  }

  lemma ListedLinks(bare: map<Id, Message>, keys: seq<Id>)
    requires NoDup(keys) && (forall k :: k in keys <==> k in bare)
    ensures Linked(Listed(bare, keys))
    ensures forall k :: k in bare ==> Listed(bare, keys)[k].childrenIds == Within(keys, ChildSet(Listed(bare, keys), k))
  {
    forall k | k in bare ensures NoDup(Listed(bare, keys)[k].childrenIds) {
      WithinNoDup(keys, ChildSet(bare, k));
    }
    forall k ensures ChildSet(bare, k) == ChildSet(Listed(bare, keys), k) {
    }
  }

  lemma ObjectsValid(keys: seq<Id>, at: map<Id, Message>)
    requires NoDup(keys) && (forall k :: k in keys <==> k in at)
    ensures Dict(keys, Objects(at)).Valid()
  {
  }

  /** Whatever child lists came in, the merged ones list exactly the messages naming that parent, in key
      order, and the cursor is a message or None. */
  lemma MergeLinks(e: RawHistory, i: RawHistory) returns (at: map<Id, Message>)
    requires e.Valid() && i.Valid()
    ensures Merged(e, i).messages.at == Objects(at) && Merged(e, i).Valid() && Linked(at)
    ensures forall k :: k in at ==> at[k].childrenIds == Within(Merged(e, i).messages.keys, ChildSet(at, k))
    ensures Merged(e, i).currentId.Some? ==> Merged(e, i).currentId.value in at
  {
    var u := Merge(e.messages, i.messages);
    var bare := BareOf(u.at);
    var keys := Within(u.keys, bare.Keys);
    MergedKeysExact(e.messages, i.messages);
    at := Listed(bare, keys);
    ObjectsValid(keys, at);
    ListedLinks(bare, keys);
  }

  lemma MergedKeysExact(e: Entries, i: Entries)
    requires e.Valid() && i.Valid()
    ensures var u := Merge(e, i); var keys := Within(u.keys, BareOf(u.at).Keys);
            NoDup(keys) && forall k :: k in keys <==> k in BareOf(u.at)
  {
    var u := Merge(e, i);
    MergeValid(e, i);
    WithinNoDup(u.keys, BareOf(u.at).Keys);
    assert forall k :: k in BareOf(u.at) ==> k in u.keys;
  }

  lemma BareOfUnion(d: map<Id, Entry>, e: map<Id, Entry>)
    ensures BareOf(d + e) == (BareOf(d) - e.Keys) + BareOf(e)
  {
  }

  lemma BareOfRebuilt(keys: seq<Id>, at: map<Id, Entry>)
    ensures BareOf(Rebuilt(keys, BareOf(at)).at) == BareOf(at)
    ensures Rebuilt(keys, BareOf(at)).at.Keys == BareOf(at).Keys
  {
  }

  /** Keys already merged are not added again, and keys that are no messages are dropped again. */
  lemma KeysAgain(e: seq<Id>, i: seq<Id>, ke: set<Id>, live: set<Id>)
    requires forall k :: k in e ==> k in ke
    ensures var m := Within(e + Without(i, ke), live);
            live <= ke + Elems(i) ==> Within(m + Without(i, live), live) == m
  {
    var m := Within(e + Without(i, ke), live);
    WithinConcat(m, Without(i, live), live);
    WithinAll(m, live);
    WithinNone(Without(i, live), live);
  }

  lemma RebuiltSame(k1: seq<Id>, b1: map<Id, Message>, k2: seq<Id>, b2: map<Id, Message>)
    requires b1 == b2 && Within(k1, b1.Keys) == Within(k2, b1.Keys)
    ensures Rebuilt(k1, b1) == Rebuilt(k2, b2)
  {
  }

  lemma BareAgain(bare: map<Id, Message>, e: map<Id, Message>, i: map<Id, Message>, ki: set<Id>)
    requires bare == (e - ki) + i && i.Keys <= ki
    ensures (bare - ki) + i == bare
  {
  }

  lemma RebuiltAgain(e: Entries, i: Entries)
    requires e.Valid() && i.Valid()
    ensures var u := Merge(e, i); var d := Rebuilt(u.keys, BareOf(u.at)); var v := Merge(d, i);
            BareOf(v.at) == BareOf(u.at) && Rebuilt(v.keys, BareOf(v.at)) == d
  {
    var u := Merge(e, i);
    var bare := BareOf(u.at);
    var d := Rebuilt(u.keys, bare);
    var v := Merge(d, i);
    BareOfUnion(e.at, i.at);
    BareOfUnion(d.at, i.at);
    BareOfRebuilt(u.keys, u.at);
    BareAgain(bare, BareOf(e.at), BareOf(i.at), i.at.Keys);
    assert bare.Keys <= e.at.Keys + Elems(i.keys);
    KeysAgain(e.keys, i.keys, e.at.Keys, bare.Keys);
    RebuiltSame(v.keys, BareOf(v.at), u.keys, bare);
  }

  /** What a merge keeps, entry by entry: the incoming one where there is one, and only if it is a message. Such a
      message keeps all but its child list. */
  lemma MergedMessage(e: RawHistory, i: RawHistory, k: Id)
    requires e.Valid() && i.Valid()
    ensures var r := Merged(e, i).messages.at;
            && (k in r <==> if k in i.messages.at then i.messages.at[k].Object?
                            else k in e.messages.at && e.messages.at[k].Object?)
            && (k in r ==>
                  && r[k].Object?
                  && var from := if k in i.messages.at then i.messages.at[k] else e.messages.at[k];
                     r[k].m.(childrenIds := []) == from.m.(childrenIds := []))
  {
  }

  /** The cursor is the incoming one if that is a merged message, else the existing one if that is, else null; other
      keys are the incoming ones where present. */
  lemma MergedCursorIs(e: RawHistory, i: RawHistory)
    ensures var r := Merged(e, i);
            && (i.currentId.Some? && i.currentId.value in r.messages.at ==> r.currentId == i.currentId)
            && (!(i.currentId.Some? && i.currentId.value in r.messages.at) ==>
                  && (e.currentId.Some? && e.currentId.value in r.messages.at ==> r.currentId == e.currentId)
                  && (!(e.currentId.Some? && e.currentId.value in r.messages.at) ==> r.currentId == None))
    ensures forall f :: f in Merged(e, i).other <==> f in e.other || f in i.other
    ensures forall f :: f in Merged(e, i).other ==>
              Merged(e, i).other[f] == if f in i.other then i.other[f] else e.other[f]
  {
  }

  /** Existing messages come first in their order, then the new ones in theirs. */
  lemma MergedKeyOrder(e: RawHistory, i: RawHistory, a: Id, b: Id)
    requires e.Valid() && i.Valid()
    ensures var r := Merged(e, i).messages;
            Before(r.keys, a, b) <==>
            && a in r.at && b in r.at
            && if a in e.messages.at then (b in e.messages.at ==> Before(e.messages.keys, a, b))
               else b !in e.messages.at && Before(i.messages.keys, a, b)
  {
    var u := Merge(e.messages, i.messages);
    MergeBefore(e.messages, i.messages, a, b);
    WithinBefore(u.keys, BareOf(u.at).Keys, a, b);
    BeforeMeansIn(e.messages.keys, a, b);
    MergedMessage(e, i, a);
    MergedMessage(e, i, b);
  }

  /** Each merged message lists exactly the messages that name it, in key order. */
  lemma MergedChildOrder(e: RawHistory, i: RawHistory, p: Id, a: Id, b: Id)
    requires e.Valid() && i.Valid() && p in Merged(e, i).messages.at
    ensures var r := Merged(e, i).messages;
            && (a in r.at[p].m.childrenIds <==> a in r.at && r.at[a].m.parentId == Some(p))
            && (Before(r.at[p].m.childrenIds, a, b) <==>
                  && a in r.at[p].m.childrenIds && b in r.at[p].m.childrenIds && Before(r.keys, a, b))
  {
    var at := MergeLinks(e, i);
    var r := Merged(e, i).messages;
    WithinBefore(r.keys, ChildSet(at, p), a, b);
    assert r.at[p].m == at[p] && (a in r.at ==> r.at[a].m == at[a]) && (b in r.at ==> r.at[b].m == at[b]);
  }

  /** Merging the same incoming history again changes nothing. */
  lemma MergeIdempotent(e: RawHistory, i: RawHistory)
    requires e.Valid() && i.Valid()
    ensures Merged(Merged(e, i), i) == Merged(e, i)
  {
    assert e.other + i.other + i.other == e.other + i.other;
    RebuiltAgain(e.messages, i.messages);
  }

  ghost predicate AllObjects(h: RawHistory) {
    BareOf(h.messages.at).Keys == h.messages.at.Keys
  }

  lemma UnionKeysAssociative(a: seq<Id>, b: seq<Id>, c: seq<Id>, ka: set<Id>, kb: set<Id>)
    ensures (a + Without(b, ka)) + Without(c, ka + kb) == a + Without(b + Without(c, kb), ka)
  {
    WithoutConcat(b, Without(c, kb), ka);
    WithoutTwice(c, kb, ka);
    assert kb + ka == ka + kb;
  }

  lemma DropThenOverride(x: map<Id, Message>, y: map<Id, Message>, ky: set<Id>)
    requires y.Keys == ky
    ensures (x - ky) + y == x + y
  {
  }

  /** A merge of entries that are all messages keeps every key, and the incoming message wins. */
  lemma MergedOfObjects(a: RawHistory, b: RawHistory)
    requires a.Valid() && b.Valid() && AllObjects(a) && AllObjects(b)
    ensures Merged(a, b).messages.keys == a.messages.keys + Without(b.messages.keys, a.messages.at.Keys)
    ensures AllObjects(Merged(a, b)) && Merged(a, b).messages.at.Keys == a.messages.at.Keys + b.messages.at.Keys
    ensures BareOf(Merged(a, b).messages.at) == BareOf(a.messages.at) + BareOf(b.messages.at)
  {
    var u := Merge(a.messages, b.messages);
    BareOfUnion(a.messages.at, b.messages.at);
    DropThenOverride(BareOf(a.messages.at), BareOf(b.messages.at), b.messages.at.Keys);
    BareOfRebuilt(u.keys, u.at);
    assert forall k :: k in u.keys ==> k in BareOf(u.at).Keys;
    WithinAll(u.keys, BareOf(u.at).Keys);
  }

  lemma MergedOfObjectsValid(a: RawHistory, b: RawHistory)
    requires a.Valid() && b.Valid() && AllObjects(a) && AllObjects(b)
    ensures Merged(a, b).Valid()
  {
    MergeValid(a.messages, b.messages);
    MergedOfObjects(a, b);
  }

  /** Such a merge is fixed by its key order and its bare messages. */
  lemma MergedOfObjectsFixed(a: RawHistory, b: RawHistory)
    requires a.Valid() && b.Valid() && AllObjects(a) && AllObjects(b)
    ensures Merged(a, b).messages == Rebuilt(a.messages.keys + Without(b.messages.keys, a.messages.at.Keys),
                                             BareOf(a.messages.at) + BareOf(b.messages.at))
  {
    BareOfUnion(a.messages.at, b.messages.at);
    DropThenOverride(BareOf(a.messages.at), BareOf(b.messages.at), b.messages.at.Keys);
  }

  lemma UnionAssociative(x: map<Id, Message>, y: map<Id, Message>, z: map<Id, Message>)
    ensures (x + y) + z == x + (y + z)
  {
  }

  /** When every entry is a message, merging is associative: same messages, parents, key order and child order. */
  lemma MergeAssociative(a: RawHistory, b: RawHistory, c: RawHistory)
    requires a.Valid() && b.Valid() && c.Valid()
    requires AllObjects(a) && AllObjects(b) && AllObjects(c)
    ensures Merged(Merged(a, b), c).messages == Merged(a, Merged(b, c)).messages
  {
    MergedOfObjects(a, b);
    MergedOfObjects(b, c);
    MergedOfObjectsValid(a, b);
    MergedOfObjectsValid(b, c);
    MergedOfObjectsFixed(Merged(a, b), c);
    MergedOfObjectsFixed(a, Merged(b, c));
    UnionKeysAssociative(a.messages.keys, b.messages.keys, c.messages.keys, a.messages.at.Keys, b.messages.at.Keys);
    UnionAssociative(BareOf(a.messages.at), BareOf(b.messages.at), BareOf(c.messages.at));
  }

  /** Entry `k` of the middle or last history is not a message although it overrides one of the first. */
  ghost predicate Shadowed(a: RawHistory, b: RawHistory, c: RawHistory, k: Id) {
    && k in a.messages.at && a.messages.at[k].Object?
    && (if k in c.messages.at then c.messages.at[k].Junk? else k in b.messages.at && b.messages.at[k].Junk?)
  }

  lemma MergedBare(e: RawHistory, i: RawHistory)
    ensures Merged(e, i).messages.at.Keys == BareOf(Merged(e, i).messages.at).Keys
    ensures BareOf(Merged(e, i).messages.at) ==
            (BareOf(e.messages.at) - i.messages.at.Keys) + BareOf(i.messages.at)
  {
    var u := Merge(e.messages, i.messages);
    BareOfUnion(e.messages.at, i.messages.at);
    BareOfRebuilt(u.keys, u.at);
  }

  /** The two groupings over the messages alone; `ky` and `kz` also hold the keys of other entries. */
  lemma BareGroupings(x: map<Id, Message>, y: map<Id, Message>, z: map<Id, Message>, ky: set<Id>, kz: set<Id>)
    requires y.Keys <= ky && z.Keys <= kz
    requires !exists k :: k in x && (if k in kz then k !in z else k in ky && k !in y)
    ensures var yz := (y - kz) + z; (((x - ky) + y) - kz) + z == (x - yz.Keys) + yz
  {
  }

  lemma LeftBare(a: RawHistory, b: RawHistory, c: RawHistory)
    ensures BareOf(Merged(Merged(a, b), c).messages.at) ==
            (((BareOf(a.messages.at) - b.messages.at.Keys) + BareOf(b.messages.at)) - c.messages.at.Keys)
            + BareOf(c.messages.at)
  {
    MergedBare(Merged(a, b), c);
    MergedBare(a, b);
  }

  lemma RightBare(a: RawHistory, b: RawHistory, c: RawHistory)
    ensures var yz := (BareOf(b.messages.at) - c.messages.at.Keys) + BareOf(c.messages.at);
            BareOf(Merged(a, Merged(b, c)).messages.at) == (BareOf(a.messages.at) - yz.Keys) + yz
  {
    MergedBare(a, Merged(b, c));
    MergedBare(b, c);
  }

  lemma ShadowedDiffers(a: RawHistory, b: RawHistory, c: RawHistory, k: Id)
    requires Shadowed(a, b, c, k)
    ensures k in BareOf(Merged(a, Merged(b, c)).messages.at) && k !in BareOf(Merged(Merged(a, b), c).messages.at)
  {
  }

  lemma UnshadowedSame(a: RawHistory, b: RawHistory, c: RawHistory)
    requires !exists k :: Shadowed(a, b, c, k)
    ensures BareOf(Merged(Merged(a, b), c).messages.at) == BareOf(Merged(a, Merged(b, c)).messages.at)
  {
    LeftBare(a, b, c);
    RightBare(a, b, c);
    ShadowedBare(a, b, c);
    BareGroupings(BareOf(a.messages.at), BareOf(b.messages.at), BareOf(c.messages.at),
                  b.messages.at.Keys, c.messages.at.Keys);
  }

  /** With unchecked entries, which messages survive (and with what parents) is associative exactly when no
      message of the first history is overridden by an entry that is not one. */
  lemma MergeAssociativeIff(a: RawHistory, b: RawHistory, c: RawHistory)
    ensures BareOf(Merged(Merged(a, b), c).messages.at) == BareOf(Merged(a, Merged(b, c)).messages.at)
            <==> !exists k :: Shadowed(a, b, c, k)
  {
    if k :| Shadowed(a, b, c, k) {
      ShadowedDiffers(a, b, c, k);
    } else {
      UnshadowedSame(a, b, c);
    }
  }

  lemma ShadowedBare(a: RawHistory, b: RawHistory, c: RawHistory)
    ensures var x, y, z := BareOf(a.messages.at), BareOf(b.messages.at), BareOf(c.messages.at);
            forall k :: Shadowed(a, b, c, k) <==>
              k in x && (if k in c.messages.at.Keys then k !in z else k in b.messages.at.Keys && k !in y)
  {
  }

  /** The cursors and keys for which both groupings pick the same cursor. */
  ghost predicate CursorsAgree(ka: set<Id>, kb: set<Id>, kc: set<Id>, x: Option<Id>, y: Option<Id>, z: Option<Id>) {
    if z.Some? && z.value in kb + kc then true
    else if z.Some? && z.value in ka then x == z && (y.None? || y.value !in kb + kc)
    else if y.None? || y.value !in ka + kb + kc then x.None? || x.value in ka + kb || x.value !in kc
    else y.value in kb || (y.value in ka && (y.value in kc || x == y))
  }

  lemma MergeCursorAssociativeIff(a: RawHistory, b: RawHistory, c: RawHistory)
    requires a.Valid() && b.Valid() && c.Valid()
    requires AllObjects(a) && AllObjects(b) && AllObjects(c)
    ensures Merged(Merged(a, b), c).currentId == Merged(a, Merged(b, c)).currentId <==>
            CursorsAgree(a.messages.at.Keys, b.messages.at.Keys, c.messages.at.Keys,
                         a.currentId, b.currentId, c.currentId)
  {
    MergedOfObjects(a, b);
    MergedOfObjects(b, c);
    MergedCursor(a, b);
    MergedCursor(b, c);
    MergedCursor(Merged(a, b), c);
    MergedCursor(a, Merged(b, c));
    CursorGroupings(a.messages.at.Keys, b.messages.at.Keys, c.messages.at.Keys,
                    a.currentId, b.currentId, c.currentId);
  }

  lemma CursorGroupings(ka: set<Id>, kb: set<Id>, kc: set<Id>, x: Option<Id>, y: Option<Id>, z: Option<Id>)
    ensures PickCursor((ka + kb) + kc, PickCursor(ka + kb, x, y), z) ==
              PickCursor(ka + (kb + kc), x, PickCursor(kb + kc, y, z))
            <==> CursorsAgree(ka, kb, kc, x, y, z)
  {
  }

  lemma MergedCursor(a: RawHistory, b: RawHistory)
    requires AllObjects(a) && AllObjects(b)
    ensures Merged(a, b).currentId == PickCursor(a.messages.at.Keys + b.messages.at.Keys, a.currentId, b.currentId)
  {
  }

  /** The parent links of the existing messages that the incoming history leaves in place. */
  ghost function KeptParents(e: RawHistory, i: RawHistory): (r: Parents) {
    ParentsOf(BareOf(e.messages.at)) - i.messages.at.Keys
  }

  /** From each incoming message to the first incoming message above it, over the links left in place. */
  ghost function MergeJumps(e: RawHistory, i: RawHistory): (r: Parents)
    requires Acyclic(KeptParents(e, i))
  {
    Jumps(KeptParents(e, i), ParentsOf(BareOf(i.messages.at)))
  }

  /** When a merge is acyclic: the links left in place are, and so are the jumps among the incoming messages. */
  lemma MergeAcyclicIff(e: RawHistory, i: RawHistory)
    ensures Acyclic(ParentsOf(BareOf(Merged(e, i).messages.at))) <==>
            Acyclic(KeptParents(e, i)) && Acyclic(MergeJumps(e, i))
  {
    var pe, pi := KeptParents(e, i), ParentsOf(BareOf(i.messages.at));
    ParentsOfMerge(e, i);
    if Acyclic(pe + pi) {
      PartAcyclic(pe, pe + pi);
    }
    if Acyclic(pe) {
      OverlayAcyclicIff(pe, pi);
    }
  }

  lemma MessagesOfObjects(at: map<Id, Message>)
    ensures MessagesOf(Objects(at)) == at
  {
  }

  /** Since a merge always rebuilds exact links, that is when it gives a tree. */
  lemma MergeTreeIff(e: RawHistory, i: RawHistory)
    requires e.Valid() && i.Valid()
    ensures Tree(MessagesOf(Merged(e, i).messages.at)) <==> Acyclic(KeptParents(e, i)) && Acyclic(MergeJumps(e, i))
  {
    var at := MergeLinks(e, i);
    MessagesOfObjects(at);
    ParentsOfObjects(at);
    MergeAcyclicIff(e, i);
  }

  /** In particular two acyclic histories merge into a tree if the incoming messages name parents only among
      themselves. */
  lemma MergeKeepsTree(e: RawHistory, i: RawHistory)
    requires e.Valid() && i.Valid()
    requires Acyclic(ParentsOf(BareOf(e.messages.at))) && Acyclic(ParentsOf(BareOf(i.messages.at)))
    requires Closed(BareOf(i.messages.at))
    ensures Tree(MessagesOf(Merged(e, i).messages.at))
  {
    RemovalAcyclic(ParentsOf(BareOf(e.messages.at)), i.messages.at.Keys);
    JumpsOfClosed(KeptParents(e, i), ParentsOf(BareOf(i.messages.at)));
    MergeTreeIff(e, i);
  }

  /** So do they if no message left in place names an incoming one: the ordinary merge of new messages below
      old ones. */
  lemma MergeBelowKeepsTree(e: RawHistory, i: RawHistory)
    requires e.Valid() && i.Valid()
    requires Acyclic(ParentsOf(BareOf(e.messages.at))) && Acyclic(ParentsOf(BareOf(i.messages.at)))
    requires var p := KeptParents(e, i); forall c :: c in p && p[c].Some? ==> p[c].value !in i.messages.at
    ensures Tree(MessagesOf(Merged(e, i).messages.at))
  {
    RemovalAcyclic(ParentsOf(BareOf(e.messages.at)), i.messages.at.Keys);
    JumpsInside(KeptParents(e, i), ParentsOf(BareOf(i.messages.at)));
    MergeTreeIff(e, i);
  }

  lemma JumpsOfClosed(e: Parents, i: Parents)
    requires Acyclic(e) && forall c :: c in i && i[c].Some? ==> i[c].value in i
    ensures Jumps(e, i) == i
  {
  }

  lemma JumpsInside(e: Parents, i: Parents)
    requires Acyclic(e) && Acyclic(i) && e.Keys !! i.Keys && forall c :: c in e && e[c].Some? ==> e[c].value !in i
    ensures Acyclic(Jumps(e, i))
  {
    var h := HeightsDrop(i);
    forall c | Up1(Jumps(e, i), c).Some? ensures h[Up1(Jumps(e, i), c).value] > h[c] {
      LandsInside(e, i, i[c].value);
      assert Up1(i, c) == i[c];
    }
    DropsAcyclic(Jumps(e, i), h);
  }

  lemma {:induction false} LandsInside(e: Parents, i: Parents, x: Id)
    requires Acyclic(e) && e.Keys !! i.Keys && forall c :: c in e && e[c].Some? ==> e[c].value !in i
    ensures Landing(e, i, x) == if x in i then Some(x) else None
    decreases Climb(e, x)
  {
    if x !in i && x in e && e[x].Some? {
      ClimbDrops(e, x);
      LandsInside(e, i, e[x].value);
    }
  }

  lemma ParentsOfObjects(at: map<Id, Message>)
    ensures ParentsOf(BareOf(Objects(at))) == ParentsOf(at)
  {
  }

  lemma ParentsOfOverlay(x: map<Id, Message>, gone: set<Id>, y: map<Id, Message>)
    ensures ParentsOf((x - gone) + y) == (ParentsOf(x) - gone) + ParentsOf(y)
  {
  }

  lemma ParentsOfMerge(e: RawHistory, i: RawHistory)
    ensures ParentsOf(BareOf(Merged(e, i).messages.at)) ==
            (ParentsOf(BareOf(e.messages.at)) - i.messages.at.Keys) + ParentsOf(BareOf(i.messages.at))
  {
    MergedBare(e, i);
    ParentsOfOverlay(BareOf(e.messages.at), i.messages.at.Keys, BareOf(i.messages.at));
  }

  /** A history over the given messages, in any key order. */
  lemma HistoryOf(keys: seq<Id>, at: map<Id, Message>, h: map<Id, nat>) returns (r: RawHistory)
    requires |keys| <= 2 && (|keys| == 2 ==> keys[0] != keys[1])
    requires at.Keys == Elems(keys) && Drops(ParentsOf(at), h)
    ensures r.Valid() && r.messages.at == Objects(at) && Acyclic(ParentsOf(BareOf(r.messages.at)))
  {
    r := RawHistory(Dict(keys, Objects(at)), None, map[]);
    ParentsOfObjects(at);
    DropsAcyclic(ParentsOf(at), h);
  }

  /** A history in which `y` answers `x`, the only other message. */
  lemma ReplyHistory(x: Id, y: Id) returns (r: RawHistory)
    requires x != y
    ensures r.Valid() && Acyclic(ParentsOf(BareOf(r.messages.at)))
    ensures y in BareOf(r.messages.at) && r.messages.at[y].m.parentId == Some(x)
  {
    var m := Message(None, [], "", "", 0, "", map[]);
    var at := map[x := m, y := m.(parentId := Some(x))];
    r := HistoryOf([x, y], at, map[x := 1, y := 0]);
    assert r.messages.at[y] == Object(at[y]);
  }

  /** A history of one message, which names an absent parent. */
  lemma LoneHistory(x: Id, y: Id) returns (r: RawHistory)
    requires x != y
    ensures r.Valid() && Acyclic(ParentsOf(BareOf(r.messages.at))) && y !in r.messages.at
    ensures x in BareOf(r.messages.at) && r.messages.at[x].m.parentId == Some(y)
  {
    var at := map[x := Message(Some(y), [], "", "", 0, "", map[])];
    r := HistoryOf([x], at, map[x := 0]);
    assert r.messages.at[x] == Object(at[x]);
  }

  /** Without that condition it need not: an incoming link up to an existing descendant closes a cycle. */
  lemma MergeCanCloseACycle(x: Id, y: Id) returns (e: RawHistory, i: RawHistory)
    requires x != y
    ensures e.Valid() && i.Valid()
    ensures Acyclic(ParentsOf(BareOf(e.messages.at))) && Acyclic(ParentsOf(BareOf(i.messages.at)))
    ensures !Acyclic(ParentsOf(BareOf(Merged(e, i).messages.at)))
  {
    e := ReplyHistory(x, y);
    i := LoneHistory(x, y);
    MergedCycle(e, i, x, y);
  }

  /** An incoming message that names an untouched child of its own id as parent makes a cycle. */
  lemma MergedCycle(e: RawHistory, i: RawHistory, x: Id, y: Id)
    requires y in BareOf(e.messages.at) && e.messages.at[y].m.parentId == Some(x) && y !in i.messages.at
    requires x in BareOf(i.messages.at) && i.messages.at[x].m.parentId == Some(y)
    ensures !Acyclic(ParentsOf(BareOf(Merged(e, i).messages.at)))
  {
    ParentsOfMerge(e, i);
    TwoCycle(ParentsOf(BareOf(Merged(e, i).messages.at)), x, y);
  }

  // ----- inputs on which the grouping matters -----

  function Solo(x: Id, entry: Entry, cur: Option<Id>): (r: RawHistory) {
    RawHistory(Dict([x], map[x := entry]), cur, map[])
  }

  const BLANK: Message := Message(None, [], "", "", 0, "", map[])

  lemma SoloIs(x: Id, entry: Entry, cur: Option<Id>)
    ensures Solo(x, entry, cur).Valid() && Solo(x, entry, cur).messages.at.Keys == {x}
    ensures entry.Object? ==> AllObjects(Solo(x, entry, cur)) && BareOf(Solo(x, entry, cur).messages.at).Keys == {x}
    ensures entry.Junk? ==> BareOf(Solo(x, entry, cur).messages.at) == map[]
  {
  }

  /** An entry that is not a message, merged in first, takes the message with it; merged in last-but-one, it does not.
      */
  lemma GroupingLosesAMessage(x: Id, y: Id) returns (a: RawHistory, b: RawHistory, c: RawHistory)
    requires x != y
    ensures a.Valid() && b.Valid() && c.Valid()
    ensures BareOf(Merged(Merged(a, b), c).messages.at) != BareOf(Merged(a, Merged(b, c)).messages.at)
  {
    a, b, c := Solo(x, Object(BLANK), None), Solo(x, Junk, None), Solo(y, Object(BLANK), None);
    SoloIs(x, Object(BLANK), None);
    SoloIs(x, Junk, None);
    SoloIs(y, Object(BLANK), None);
    assert Shadowed(a, b, c, x);
    MergeAssociativeIff(a, b, c);
  }

  /** Three histories of one message each; only the last has a cursor, and it points into the first. */
  lemma GroupingLosesTheCursor(x: Id, y: Id, z: Id) returns (a: RawHistory, b: RawHistory, c: RawHistory)
    requires x != y && x != z
    ensures a.Valid() && b.Valid() && c.Valid() && AllObjects(a) && AllObjects(b) && AllObjects(c)
    ensures Merged(Merged(a, b), c).currentId == Some(x) && Merged(a, Merged(b, c)).currentId == None
  {
    a, b, c := Solo(x, Object(BLANK), None), Solo(y, Object(BLANK), None), Solo(z, Object(BLANK), Some(x));
    SoloIs(x, Object(BLANK), None);
    SoloIs(y, Object(BLANK), None);
    SoloIs(z, Object(BLANK), Some(x));
    MergedOfObjects(a, b);
    MergedOfObjects(b, c);
    MergedCursor(Merged(a, b), c);
    MergedCursor(b, c);
    MergedCursor(a, b);
    MergedCursor(a, Merged(b, c));
  }
}
