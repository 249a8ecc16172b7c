/** Repeated reads of a chat fill the gaps of its rows from the blob (get_messages_map_by_chat_id). */
module Healing {
  import opened Basics
  import opened Forest
  import opened History
  import opened ChatMessages
  import opened Chats

  // ----- the parent links of the rows, and what a read does to them -----

  /** Named by some row as its parent, without a row of its own. */
  ghost predicate Unresolved(p: Parents, q: Id) {
    q != "" && q !in p && exists id :: id in p && p[id] == Some(q)
  }

  /** The blob messages a read writes to rows: all of them if there are none, else the unresolved parents. */
  ghost function Fetched(p: Parents, blob: map<Id, Message>): (r: set<Id>) {
    set q | q in blob && blob[q].role != "" && q !in p && (p == map[] || Unresolved(p, q))
  }

  ghost function ReadOnce(p: Parents, blob: map<Id, Message>): (r: Parents) {
    p + map q | q in Fetched(p, blob) :: blob[q].parentId
  }

  ghost function ReadTimes(p: Parents, blob: map<Id, Message>, n: nat): (r: Parents) {
    if n == 0 then p else ReadOnce(ReadTimes(p, blob, n - 1), blob)
  }

  /** How many blob messages with a role still lack a row. */
  ghost function Gap(p: Parents, blob: map<Id, Message>): (r: nat) {
    |set id | id in blob && blob[id].role != "" && id !in p|
  }

  /** Nothing more to fetch: every unresolved parent is absent from the blob or lacks a role. */
  ghost predicate Healed(p: Parents, blob: map<Id, Message>) {
    forall q :: Unresolved(p, q) && q in blob ==> blob[q].role == ""
  }

  /** `r` keeps the links of `p` and adds only those of blob messages with a role. */
  ghost predicate GrownFromBlob(p: Parents, r: Parents, blob: map<Id, Message>) {
    && (forall id :: id in p ==> id in r && r[id] == p[id])
    && (forall id :: id in r && id !in p ==> id in blob && blob[id].role != "" && r[id] == blob[id].parentId)
  }

  /** Each read that fetches anything closes part of the gap; one that fetches nothing changes nothing. */
  lemma ReadProgress(p: Parents, blob: map<Id, Message>)
    ensures ReadOnce(p, blob) == p <==> Fetched(p, blob) == {}
    ensures Fetched(p, blob) != {} ==> Gap(ReadOnce(p, blob), blob) < Gap(p, blob)
    ensures Fetched(p, blob) == {} ==> Healed(p, blob)
  {
    var r := ReadOnce(p, blob);
    if id :| id in Fetched(p, blob) {
      assert id in r && id !in p;
      var before := set i | i in blob && blob[i].role != "" && i !in p;
      var after := set i | i in blob && blob[i].role != "" && i !in r;
      SubsetSize(after, before - {id});
    } else {
      forall q | Unresolved(p, q) && q in blob ensures blob[q].role == "" {
        assert q !in Fetched(p, blob);
      }
    }
  }

  /** A missing parent whose blob message has no role, or that the blob does not hold, is never found. */
  lemma RolelessStays(p: Parents, r: Parents, blob: map<Id, Message>, q: Id)
    requires GrownFromBlob(p, r, blob) && Unresolved(p, q) && (q !in blob || blob[q].role == "")
    ensures Unresolved(r, q)
  {
    var id :| id in p && p[id] == Some(q);
    assert id in r && r[id] == Some(q);
  }

  /** A row whose parent is a blob message without a role: no number of reads finds that parent. */
  lemma RolelessParent(a: Id, q: Id) returns (p: Parents, blob: map<Id, Message>)
    requires q != "" && a != q
    ensures q in blob && forall n: nat :: Unresolved(ReadTimes(p, blob, n), q)
  {
    p, blob := map[a := Some(q)], map[q := Message(None, [], "", q, 1, "", map[])];
    assert a in p && p[a] == Some(q);
    forall n: nat ensures Unresolved(ReadTimes(p, blob, n), q) {
      ReadsGrow(p, blob, n);
      RolelessStays(p, ReadTimes(p, blob, n), blob, q);
    }
  }

  lemma {:induction false} ReadsGrow(p: Parents, blob: map<Id, Message>, n: nat)
    ensures GrownFromBlob(p, ReadTimes(p, blob, n), blob)
  {
    if n > 0 {
      ReadsGrow(p, blob, n - 1);
    }
  }

  /** Either nothing is left to fetch or at most `left` messages still lack rows. */
  ghost predicate NearlyHealed(p: Parents, blob: map<Id, Message>, left: int) {
    Fetched(p, blob) == {} || Gap(p, blob) <= left
  }

  lemma ReadCloses(p: Parents, blob: map<Id, Message>, left: int)
    requires NearlyHealed(p, blob, left)
    ensures NearlyHealed(ReadOnce(p, blob), blob, left - 1)
  {
    ReadProgress(p, blob);
  }

  lemma {:induction false} ReadsClose(p: Parents, blob: map<Id, Message>, n: nat)
    ensures NearlyHealed(ReadTimes(p, blob, n), blob, Gap(p, blob) - n)
  {
    if n > 0 {
      ReadsClose(p, blob, n - 1);
      ReadCloses(ReadTimes(p, blob, n - 1), blob, Gap(p, blob) - (n - 1));
    }
  }

  /** As many reads as the gap reach a fixpoint at which nothing in the blob could resolve a missing parent. */
  lemma ReadsReachFixpoint(p: Parents, blob: map<Id, Message>, n: nat)
    requires n >= Gap(p, blob)
    ensures var r := ReadTimes(p, blob, n); Healed(r, blob) && ReadOnce(r, blob) == r
  {
    ReadsClose(p, blob, n);
    ReadProgress(ReadTimes(p, blob, n), blob);
  }

  // ----- the table refines those links -----

  /** Rows of the chat without its key prefix, or with the prefix but of another chat. */
  ghost function Misfiled(rows: Rows, chat: Id): (r: set<string>) {
    set k | k in rows && (rows[k].chatId == chat) != HasPrefix(k, chat)
  }

  ghost function RowIds(rows: Rows, chat: Id): (r: set<Id>) {
    set k | k in RowsOf(rows, chat) :: Strip(chat, k)
  }

  ghost function RowParents(rows: Rows, chat: Id): (r: Parents) {
    map id | id in RowIds(rows, chat) && Key(chat, id) in rows :: rows[Key(chat, id)].parentId
  }

  lemma RowIdsExact(rows: Rows, chat: Id, id: Id)
    requires Misfiled(rows, chat) == {}
    ensures id in RowParents(rows, chat) <==> Key(chat, id) in rows
  {
    assert HasPrefix(Key(chat, id), chat) && Strip(chat, Key(chat, id)) == id;
    if Key(chat, id) in rows {
      assert Key(chat, id) !in Misfiled(rows, chat);
      assert Key(chat, id) in RowsOf(rows, chat);
    }
  }

  lemma RowMapParents(rows: Rows, chat: Id, order: seq<string>)
    requires Misfiled(rows, chat) == {} && Listing(rows, chat, order)
    ensures ParentsOf(RowMap(chat, order, rows).at) == RowParents(rows, chat)
  {
    forall k | k in order ensures k in rows && HasPrefix(k, chat) {
      assert k in RowsOf(rows, chat) && k !in Misfiled(rows, chat);
    }
    RowDictMirrors(chat, order, rows);
    var at := RowMap(chat, order, rows).at;
    forall id ensures id in at <==> id in RowParents(rows, chat) {
      RowIdsExact(rows, chat, id);
      if Key(chat, id) in rows {
        assert HasPrefix(Key(chat, id), chat) && Key(chat, id) !in Misfiled(rows, chat);
      }
    }
    forall id | id in at ensures at[id].parentId == RowParents(rows, chat)[id] {
    }
  }

  lemma UnresolvedSame(at: map<Id, Message>)
    ensures forall q :: q in UnresolvedParents(at) <==> Unresolved(ParentsOf(at), q)
  {
    forall q | Unresolved(ParentsOf(at), q) ensures q in UnresolvedParents(at) {
      var id :| id in ParentsOf(at) && ParentsOf(at)[id] == Some(q);
      assert at[id].parentId == Some(q);
    }
    forall q | q in UnresolvedParents(at) ensures Unresolved(ParentsOf(at), q) {
      var id :| id in at && at[id].parentId == Some(q);
      assert ParentsOf(at)[id] == Some(q);
    }
  }

  /** What a read looks up and can write does not depend on the order the database lists the rows in. */
  lemma WantedIsFetched(rows: Rows, chat: Id, order: seq<string>, blob: map<Id, Message>)
    requires Misfiled(rows, chat) == {} && Listing(rows, chat, order)
    ensures Roled(Wanted(rows, chat, order, blob), blob) == Fetched(RowParents(rows, chat), blob)
  {
    RowMapParents(rows, chat, order);
    var p := RowParents(rows, chat);
    if order == [] {
      assert p == map[];
    } else {
      assert order[0] in RowsOf(rows, chat);
      assert order[0] !in Misfiled(rows, chat);
      assert Strip(chat, order[0]) in p;
      UnresolvedSame(RowMap(chat, order, rows).at);
    }
  }

  /** Rows written for messages that had none: the old rows stay, the new ones hold the blob's links. */
  lemma BackfillNew(rows: Rows, chat: Id, ids: set<Id>, blob: map<Id, Message>)
    requires Misfiled(rows, chat) == {}
    requires forall id :: id in Roled(ids, blob) ==> id !in RowParents(rows, chat)
    ensures var r := Backfilled(rows, chat, ids, blob);
            && (forall k :: k in rows ==> k in r && r[k] == rows[k])
            && (forall k :: k in r && k !in rows ==> HasPrefix(k, chat) && r[k].chatId == chat)
            && (forall k :: k in r && k !in rows ==> Strip(chat, k) in Roled(ids, blob))
            && (forall k :: k in r && k !in rows ==> r[k].parentId == blob[Strip(chat, k)].parentId)
            && (forall id :: id in Roled(ids, blob) ==> Key(chat, id) in r && Key(chat, id) !in rows)
  {
    var r := Backfilled(rows, chat, ids, blob);
    forall id | id in Roled(ids, blob)
      ensures Key(chat, id) in r && Key(chat, id) !in rows
      ensures HasPrefix(Key(chat, id), chat) && Strip(chat, Key(chat, id)) == id
    {
      RowIdsExact(rows, chat, id);
      assert HasPrefix(Key(chat, id), chat) && Strip(chat, Key(chat, id)) == id;
    }
    forall k | k in rows && HasPrefix(k, chat) ensures Strip(chat, k) !in Roled(ids, blob) {
      assert k == Key(chat, Strip(chat, k));
    }
  }

  lemma BackfillKeepsFiling(rows: Rows, chat: Id, ids: set<Id>, blob: map<Id, Message>)
    requires Misfiled(rows, chat) == {}
    requires forall id :: id in Roled(ids, blob) ==> id !in RowParents(rows, chat)
    ensures Misfiled(Backfilled(rows, chat, ids, blob), chat) == {}
  {
  }

  lemma BackfillNewLink(rows: Rows, chat: Id, ids: set<Id>, blob: map<Id, Message>, id: Id)
    requires Misfiled(rows, chat) == {}
    requires forall i :: i in Roled(ids, blob) ==> i !in RowParents(rows, chat)
    ensures var r := RowParents(Backfilled(rows, chat, ids, blob), chat);
            && (id in r <==> id in RowParents(rows, chat) || id in Roled(ids, blob))
            && (id in r ==> r[id] == if id in Roled(ids, blob) then blob[id].parentId else RowParents(rows, chat)[id])
  {
    BackfillNew(rows, chat, ids, blob);
    BackfillKeepsFiling(rows, chat, ids, blob);
    RowIdsExact(Backfilled(rows, chat, ids, blob), chat, id);
    RowIdsExact(rows, chat, id);
    assert Strip(chat, Key(chat, id)) == id;
  }

  lemma BackfillNewLinks(rows: Rows, chat: Id, ids: set<Id>, blob: map<Id, Message>)
    requires Misfiled(rows, chat) == {}
    requires forall id :: id in Roled(ids, blob) ==> id !in RowParents(rows, chat)
    ensures RowParents(Backfilled(rows, chat, ids, blob), chat) ==
            RowParents(rows, chat) + map q | q in Roled(ids, blob) :: blob[q].parentId
  {
    var r := RowParents(Backfilled(rows, chat, ids, blob), chat);
    var t := RowParents(rows, chat) + map q | q in Roled(ids, blob) :: blob[q].parentId;
    forall id ensures (id in r <==> id in t) && (id in r ==> r[id] == t[id]) {
      BackfillNewLink(rows, chat, ids, blob, id);
    }
  }

  /** A read of the table does to the rows' links exactly what ReadOnce says, and keeps every row. */
  lemma ReadRefines(rows: Rows, chat: Id, order: seq<string>, blob: map<Id, Message>)
    requires Misfiled(rows, chat) == {} && Listing(rows, chat, order)
    ensures var r := RowsAfterRead(rows, chat, order, blob);
            && Misfiled(r, chat) == {}
            && RowParents(r, chat) == ReadOnce(RowParents(rows, chat), blob)
            && forall k :: k in rows ==> k in r && r[k] == rows[k]
  {
    WantedIsFetched(rows, chat, order, blob);
    BackfillNew(rows, chat, Wanted(rows, chat, order, blob), blob);
    BackfillKeepsFiling(rows, chat, Wanted(rows, chat, order, blob), blob);
    BackfillNewLinks(rows, chat, Wanted(rows, chat, order, blob), blob);
  }

  ghost predicate ReadStep(rows: Rows, chat: Id, blob: map<Id, Message>, next: Rows) {
    exists order :: Listing(rows, chat, order) && next == RowsAfterRead(rows, chat, order, blob)
  }

  /** The table after each of several reads of the chat. */
  ghost predicate ReadRun(states: seq<Rows>, chat: Id, blob: map<Id, Message>) {
    states != [] && forall i :: 0 <= i < |states| - 1 ==> ReadStep(states[i], chat, blob, states[i + 1])
  }

  lemma {:induction false} RunRefines(states: seq<Rows>, chat: Id, blob: map<Id, Message>, n: nat)
    requires ReadRun(states, chat, blob) && n < |states| && Misfiled(states[0], chat) == {}
    ensures Misfiled(states[n], chat) == {}
    ensures RowParents(states[n], chat) == ReadTimes(RowParents(states[0], chat), blob, n)
  {
    if n > 0 {
      RunRefines(states, chat, blob, n - 1);
      assert ReadStep(states[n - 1], chat, blob, states[n - 1 + 1]);
      ReadStepRefines(states[n - 1], chat, blob, states[n]);
    }
  }

  lemma ReadStepRefines(rows: Rows, chat: Id, blob: map<Id, Message>, next: Rows)
    requires Misfiled(rows, chat) == {} && ReadStep(rows, chat, blob, next)
    ensures Misfiled(next, chat) == {} && RowParents(next, chat) == ReadOnce(RowParents(rows, chat), blob)
  {
    var order :| Listing(rows, chat, order) && next == RowsAfterRead(rows, chat, order, blob);
    ReadRefines(rows, chat, order, blob);
  }

  /** Reads self-heal: over any run of reads the rows only grow, by messages of the blob with a role alone. Within as
      many reads as the gap every unresolved parent is absent from the blob or lacks a role, and such a parent
      stays unresolved for good. */
  lemma ReadsHeal(states: seq<Rows>, chat: Id, blob: map<Id, Message>, n: nat)
    requires ReadRun(states, chat, blob) && n < |states| && Misfiled(states[0], chat) == {}
    ensures GrownFromBlob(RowParents(states[0], chat), RowParents(states[n], chat), blob)
    ensures n >= Gap(RowParents(states[0], chat), blob) ==> Healed(RowParents(states[n], chat), blob)
    ensures forall q :: Unresolved(RowParents(states[0], chat), q) && (q !in blob || blob[q].role == "") ==>
              Unresolved(RowParents(states[n], chat), q)
  {
    RunRefines(states, chat, blob, n);
    ReadsGrow(RowParents(states[0], chat), blob, n);
    if n >= Gap(RowParents(states[0], chat), blob) {
      ReadsReachFixpoint(RowParents(states[0], chat), blob, n);
    }
    forall q | Unresolved(RowParents(states[0], chat), q) && (q !in blob || blob[q].role == "")
      ensures Unresolved(RowParents(states[n], chat), q)
    {
      RolelessStays(RowParents(states[0], chat), RowParents(states[n], chat), blob, q);
    }
  }
}
