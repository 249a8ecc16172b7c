/** A stored chat (models/chats.py): the history blob and its mirror in `chat_message`. */
module Chats {
  import opened Basics
  import opened Forest
  import opened History
  import opened ChatMessages

  datatype Store = Store(messages: Messages, currentId: Option<Id>, rows: Rows)

  /** `get_chat_by_id`: loading a chat repairs its cursor and saves it. */
  function Loaded(s: Store): (r: Store) {
    s.(currentId := RepairedCursor(s.messages, s.currentId))
  }

  /** `upsert_message_to_chat_by_id_and_message_id`: the history, then the row of the written message. */
  function UpsertMessage(s: Store, chat: Id, id: Id, patch: Patch, now: int): (r: Store) {
    var m := Upserted(s.messages, id, patch, now);
    Store(m, Some(id), RowUpserted(s.rows, chat, id, m.at[id]))
  }

  /** The messages among `ids` that carry a role. */
  function Roled(ids: set<Id>, at: map<Id, Message>): (r: set<Id>) {
    set id | id in ids && id in at && at[id].role != ""
  }

  /** `backfill_messages_by_chat_id`: every listed message with a role is written to its row. */
  function Backfilled(rows: Rows, chat: Id, ids: set<Id>, at: map<Id, Message>): (r: Rows) {
    map k | k in rows.Keys + (set id | id in Roled(ids, at) :: Key(chat, id)) ::
      if HasPrefix(k, chat) && Strip(chat, k) in Roled(ids, at)
      then RowAfter(rows, chat, Strip(chat, k), at[Strip(chat, k)])
      else rows[k]
  }

  lemma BackfillOne(rows: Rows, chat: Id, ids: set<Id>, at: map<Id, Message>, id: Id)
    requires id in at && id !in ids
    ensures Backfilled(rows, chat, ids + {id}, at) ==
            if at[id].role == "" then Backfilled(rows, chat, ids, at)
            else RowUpserted(Backfilled(rows, chat, ids, at), chat, id, at[id])
  {
    var b, c := Backfilled(rows, chat, ids, at), Backfilled(rows, chat, ids + {id}, at);
    if at[id].role == "" {
      assert Roled(ids + {id}, at) == Roled(ids, at);
    } else {
      assert Roled(ids + {id}, at) == Roled(ids, at) + {id};
      assert HasPrefix(Key(chat, id), chat) && Strip(chat, Key(chat, id)) == id;
      assert Key(chat, id) in b <==> Key(chat, id) in rows by {
        forall i | i in Roled(ids, at) ensures Key(chat, i) != Key(chat, id) {
          if Key(chat, i) == Key(chat, id) { KeyInjective(chat, i, id); }
        }
      }
      forall k ensures k in c <==> k in RowUpserted(b, chat, id, at[id]) {
      }
      assert c == RowUpserted(b, chat, id, at[id]);
    }
  }

  /** `delete_message_from_chat_by_id_and_message_id`. The cursor is settled by the walk, or, for an unknown id,
      left as loading repaired it. */
  ghost predicate Deletes(s: Store, chat: Id, id: Id, t: Store) {
    if id !in s.messages.at then t == Loaded(s)
    else
      && t.messages == SpliceDict(s.messages, id)
      && CursorAfter(t.messages, s.messages.at[id].parentId, t.currentId)
      && t.rows == RowsWithout(Backfilled(s.rows, chat, t.messages.at.Keys, t.messages.at),
                               chat, Doomed(s.messages.at, id))
  }

  ghost predicate AllRoles(at: map<Id, Message>) {
    forall id :: id in at ==> at[id].role != ""
  }

  /** What every chat turn and every deletion keeps. */
  ghost predicate Sound(s: Store, chat: Id) {
    && s.messages.Valid() && Tree(s.messages.at) && Closed(s.messages.at)
    && AllRoles(s.messages.at) && "" !in s.messages.at
    && Mirrors(s.rows, chat, s.messages.at) && NoForeign(s.rows, chat)
  }

  lemma BackfillRow(rows: Rows, chat: Id, ids: set<Id>, at: map<Id, Message>, id: Id)
    requires id in Roled(ids, at)
    ensures Key(chat, id) in Backfilled(rows, chat, ids, at)
    ensures Backfilled(rows, chat, ids, at)[Key(chat, id)] == RowAfter(rows, chat, id, at[id])
  {
  }

  lemma BackfilledShows(rows: Rows, chat: Id, at: map<Id, Message>, id: Id)
    requires NoForeign(rows, chat) && AllRoles(at) && id in at
    ensures var b := Backfilled(rows, chat, at.Keys, at);
            Key(chat, id) in b && Shows(b[Key(chat, id)], at[id]) && b[Key(chat, id)].chatId == chat
  {
    BackfillRow(rows, chat, at.Keys, at, id);
    RowAfterShows(rows, chat, id, at[id]);
  }

  /** Backfilling brings in no row of the chat but those of its messages. */
  lemma BackfilledOnly(rows: Rows, chat: Id, at: map<Id, Message>, k: string)
    requires k in Backfilled(rows, chat, at.Keys, at) && Backfilled(rows, chat, at.Keys, at)[k].chatId == chat
    ensures k in RowsOf(rows, chat) || (HasPrefix(k, chat) && Strip(chat, k) in at)
  {
    if k !in rows {
      var id :| id in Roled(at.Keys, at) && k == Key(chat, id);
    }
  }

  lemma NothingForeignIn(rows: Rows, chat: Id, at: map<Id, Message>)
    requires NoForeign(rows, chat)
    ensures NoForeign(Backfilled(rows, chat, at.Keys, at), chat)
  {
  }

  lemma DeleteKeepsRows(rows: Rows, chat: Id, at: map<Id, Message>, next: map<Id, Message>, doomed: set<Id>)
    requires Mirrors(rows, chat, at) && NoForeign(rows, chat) && AllRoles(next)
    requires next.Keys == at.Keys - doomed
    ensures var t := RowsWithout(Backfilled(rows, chat, next.Keys, next), chat, doomed);
            Mirrors(t, chat, next) && NoForeign(t, chat)
  {
    var b := Backfilled(rows, chat, next.Keys, next);
    var t := RowsWithout(b, chat, doomed);
    NothingForeignIn(rows, chat, next);
    forall id | id in next ensures Key(chat, id) in RowsOf(t, chat) && Shows(t[Key(chat, id)], next[id]) {
      BackfilledShows(rows, chat, next, id);
      forall i | i in doomed ensures Key(chat, i) != Key(chat, id) {
        if Key(chat, i) == Key(chat, id) { KeyInjective(chat, i, id); }
      }
    }
    forall k | k in RowsOf(t, chat) ensures HasPrefix(k, chat) && Strip(chat, k) in next {
      BackfilledOnly(rows, chat, next, k);
      assert HasPrefix(k, chat) ==> k == Key(chat, Strip(chat, k));
    }
  }

  lemma DeleteKeepsSound(s: Store, chat: Id, id: Id, t: Store)
    requires Sound(s, chat) && Deletes(s, chat, id, t)
    ensures Sound(t, chat)
  {
    if id in s.messages.at {
      DeleteKeepsTree(s.messages.at, id);
      SpliceDictValid(s.messages, id);
      assert AllRoles(t.messages.at) by {
        forall k | k in t.messages.at ensures t.messages.at[k].role == s.messages.at[k].role {
          assert t.messages.at[k].(parentId := None, childrenIds := []).role
              == s.messages.at[k].(parentId := None, childrenIds := []).role;
        }
      }
      DeleteKeepsRows(s.rows, chat, s.messages.at, t.messages.at, Doomed(s.messages.at, id));
    }
  }

  /** Writing the rows of a grown history keeps the mirror. */
  lemma BackfillKeepsMirror(rows: Rows, chat: Id, at: map<Id, Message>, next: map<Id, Message>)
    requires Mirrors(rows, chat, at) && NoForeign(rows, chat) && AllRoles(next) && at.Keys <= next.Keys
    ensures var b := Backfilled(rows, chat, next.Keys, next); Mirrors(b, chat, next) && NoForeign(b, chat)
  {
    var b := Backfilled(rows, chat, next.Keys, next);
    NothingForeignIn(rows, chat, next);
    forall id | id in next ensures Key(chat, id) in RowsOf(b, chat) && Shows(b[Key(chat, id)], next[id]) {
      BackfilledShows(rows, chat, next, id);
    }
    forall k | k in RowsOf(b, chat) ensures HasPrefix(k, chat) && Strip(chat, k) in next {
      BackfilledOnly(rows, chat, next, k);
    }
  }

  /** Every message has an id and a timestamp, as those written by a turn do. */
  ghost predicate Stamped(at: map<Id, Message>) {
    forall k :: k in at ==> at[k].id != "" && at[k].timestamp != 0
  }

  /** Loading leaves the cursor alone exactly when it is good, or the latest leaf is missing, unnamed or the cursor
      itself. */
  lemma LoadStaysByLeaf(s: Store, leaf: Option<Id>)
    requires s.messages.Valid() && LatestLeaf(s.messages, |s.messages.keys|, leaf)
    ensures Loaded(s) == s <==>
            GoodCursor(s.messages, s.currentId) || leaf.None? || leaf == Some("") || leaf == s.currentId
  {
    LatestLeafInExact(s.messages, |s.messages.keys|);
    LatestLeafUnique(s.messages, |s.messages.keys|, leaf, LatestLeafIn(s.messages, |s.messages.keys|));
  }

  /** A tree with a stamped message has a latest leaf. */
  lemma LatestLeafExists(m: Messages, x: Id)
    requires m.Valid() && Tree(m.at) && AllRoles(m.at) && x in m.at && forall k :: k in m.at ==> m.at[k].timestamp > -1
    ensures LatestLeafIn(m, |m.keys|).Some?
  {
    LatestLeafInExact(m, |m.keys|);
    var leaf := LeafBelow(m.at, x);
    assert leaf in m.keys;
    var n: nat :| n < |m.keys| && m.keys[n] == leaf;
    assert Candidate(m, n);
  }

  /** For a tree of stamped messages with roles, loading leaves the cursor alone exactly when it is on a message or
      there is none. */
  lemma LoadStaysIff(s: Store)
    requires s.messages.Valid() && Tree(s.messages.at) && AllRoles(s.messages.at) && "" !in s.messages.at
    requires Stamped(s.messages.at) && forall k :: k in s.messages.at ==> s.messages.at[k].timestamp > -1
    ensures Loaded(s) == s <==>
            s.messages.at == map[] || (s.currentId.Some? && s.currentId.value in s.messages.at)
  {
    var m := s.messages;
    assert m.keys != [] ==> m.keys[0] in m.at;
    if x :| x in m.at {
      LatestLeafExists(m, x);
    }
  }

  /** A chat of one message whose cursor is null: loading it moves the cursor to that message. So does deleting an
      unknown id. */
  lemma LoadMoves(id: Id, chat: Id) returns (s: Store)
    requires id != ""
    ensures s.messages.Valid() && Tree(s.messages.at) && Closed(s.messages.at) && s.currentId == None
    ensures Loaded(s).currentId == Some(id)
    ensures forall x, t :: x != id && Deletes(s, chat, x, t) ==> t.currentId == Some(id)
  {
    var at := map[id := Message(None, [], "user", id, 1, "", map[])];
    s := Store(Dict([id], at), None, map[]);
    DropsAcyclic(ParentsOf(at), map[id := 0]);
    LoadStaysIff(s);
    var leaf := LatestLeafIn(s.messages, 1);
    assert leaf.Some? ==> leaf.value in s.messages.at;
  }

  /** The next load leaves the cursor where a deletion put it, if the remaining messages have ids and timestamps. */
  lemma DeletedCursorStays(s: Store, chat: Id, id: Id, t: Store)
    requires Sound(s, chat) && id in s.messages.at && Deletes(s, chat, id, t) && Stamped(t.messages.at)
    ensures Loaded(t) == t
  {
    DeleteKeepsSound(s, chat, id, t);
    CursorIsLeaf(t.messages, s.messages.at[id].parentId, t.currentId);
    CursorNoneWhenEmpty(s.messages, id, t.currentId);
    assert t.messages.keys != [] ==> t.messages.keys[0] in t.messages.at;
  }

  lemma UpsertKeepsRows(s: Store, chat: Id, id: Id, patch: Patch, now: int)
    requires Mirrors(s.rows, chat, s.messages.at) && NoForeign(s.rows, chat)
    ensures var t := UpsertMessage(s, chat, id, patch, now);
            Mirrors(t.rows, chat, t.messages.at) && NoForeign(t.rows, chat)
  {
    UpsertKeepsMirror(s.rows, chat, s.messages.at, id, Upserted(s.messages, id, patch, now).at[id]);
  }

  /** The loop that writes messages to the table, in any order of the ids. */
  method Backfill(table: ChatMessageTable, chat: Id, ids: set<Id>, at: map<Id, Message>)
    requires ids <= at.Keys
    modifies table
    ensures table.rows == Backfilled(old(table.rows), chat, ids, at)
  {
    var todo := ids;
    assert Backfilled(table.rows, chat, ids - todo, at) == table.rows by {
      assert Roled(ids - todo, at) == {};
    }
    while todo != {}
      invariant todo <= ids
      invariant table.rows == Backfilled(old(table.rows), chat, ids - todo, at)
    {
      var id :| id in todo;
      BackfillOne(old(table.rows), chat, ids - todo, at, id);
      assert ids - (todo - {id}) == (ids - todo) + {id};
      if at[id].role != "" {
        table.UpsertMessage(chat, id, at[id], true, true);
      }
      todo := todo - {id};
    }
    assert ids - {} == ids;
  }

  // ----- get_messages_map_by_chat_id -----

  /** `get_unresolved_parent_ids`. */
  function UnresolvedParents(at: map<Id, Message>): (r: set<Id>) {
    set id | id in at && at[id].parentId.Some? && at[id].parentId.value != "" && at[id].parentId.value !in at
           :: at[id].parentId.value
  }

  class ChatStore {
    const chatId: Id
    const history: ChatHistory
    const table: ChatMessageTable

    constructor (chatId: Id, history: ChatHistory, table: ChatMessageTable)
      ensures this.chatId == chatId && this.history == history && this.table == table
    {
      this.chatId, this.history, this.table := chatId, history, table;
    }

    ghost function View(): (s: Store)
      reads this, history, table
    {
      Store(history.messages, history.currentId, table.rows)
    }

    /** `get_chat_by_id`. */
    method Load()
      requires history.Valid()
      modifies history`currentId
      ensures history.Valid() && View() == Loaded(old(View()))
    {
      var changed := history.RepairCursor();
    }

    method Upsert(id: Id, patch: Patch, now: int)
      requires history.Valid()
      modifies history, table
      ensures history.Valid()
      ensures View() == UpsertMessage(old(View()), chatId, id, patch, now)
    {
      Load();
      history.Upsert(id, patch, now);
      table.UpsertMessage(chatId, id, history.messages.at[id], true, history.messages.at[id].role != "");
    }

    method Delete(id: Id)
      requires history.Valid() && (id in history.messages.at ==> Tree(history.messages.at))
      modifies history, table
      ensures history.Valid()
      ensures Deletes(old(View()), chatId, id, View())
    {
      Load();
      var deleted := history.DeleteMessage(id);
      if deleted == {} {
        return;
      }
      Backfill(table, chatId, history.messages.at.Keys, history.messages.at);
      table.DeleteMessageIds(chatId, deleted);
    }

    /** The message map for walking the history. `order` is the order in which the database returns the rows. */
    method GetMessagesMap(order: seq<string>) returns (r: map<Id, Message>)
      requires history.Valid() && Listing(table.rows, chatId, order)
      modifies history`currentId, table
      ensures history.messages == old(history.messages)
      ensures history.currentId == if HasGaps(old(table.rows), chatId, order) then Loaded(old(View())).currentId
                                   else old(history.currentId)
      ensures table.rows == RowsAfterRead(old(table.rows), chatId, order, history.messages.at)
      ensures r == ReadMap(old(table.rows), chatId, order, history.messages.at)
    {
      if order == [] {
        Load();
        Backfill(table, chatId, history.messages.at.Keys, history.messages.at);
        return history.messages.at;
      }
      var m := BuildMap(chatId, order, table.rows);
      var unresolved := UnresolvedParents(m.at);
      if unresolved == {} {
        NothingToBackfill(table.rows, chatId, history.messages.at);
        return m.at;
      }
      Load();
      var missing := unresolved * history.messages.at.Keys;
      Backfill(table, chatId, missing, history.messages.at);
      r := m.at + (map id | id in missing :: history.messages.at[id]);
    }
  }

  /** Whether a read has to load the blob: no rows, or a parent without a row. */
  predicate HasGaps(rows: Rows, chat: Id, order: seq<string>)
    requires forall k :: k in order ==> k in rows
  {
    order == [] || UnresolvedParents(RowMap(chat, order, rows).at) != {}
  }

  /** A read loads the blob exactly when no row was listed or some listed message names a parent that was not. */
  lemma HasGapsIff(rows: Rows, chat: Id, order: seq<string>)
    requires forall k :: k in order ==> k in rows
    ensures HasGaps(rows, chat, order) <==>
            || order == []
            || (var m := RowMap(chat, order, rows).at;
                exists c, p :: c in m && m[c].parentId == Some(p) && p != "" && p !in m)
  {
    var m := RowMap(chat, order, rows).at;
    if c, p :| c in m && m[c].parentId == Some(p) && p != "" && p !in m {
      assert p in UnresolvedParents(m);
    }
    if p :| p in UnresolvedParents(m) {
      var c :| c in m && m[c].parentId == Some(p);
      assert p != "" && p !in m;
    }
  }

  /** What a read returns, message by message: if rows were listed, their messages, and from the blob the parents they
      name but do not hold; if none were, the blob itself. */
  lemma ReadGives(rows: Rows, chat: Id, order: seq<string>, blob: map<Id, Message>, id: Id)
    requires forall k :: k in order ==> k in rows
    ensures var r, m := ReadMap(rows, chat, order, blob), RowMap(chat, order, rows).at;
            && (order == [] ==> r == blob)
            && (order != [] ==>
                  && (id in m ==> id in r && r[id] == m[id])
                  && (id !in m ==>
                        && (id in r <==> id in blob && id != "" && exists c :: c in m && m[c].parentId == Some(id))
                        && (id in r ==> r[id] == blob[id])))
  {
  }

  lemma NothingToBackfill(rows: Rows, chat: Id, at: map<Id, Message>)
    ensures Backfilled(rows, chat, {}, at) == rows
  {
  }

  /** What a read looks up in the blob: everything if there are no rows, else the unresolved parents. */
  function Wanted(rows: Rows, chat: Id, order: seq<string>, blob: map<Id, Message>): (r: set<Id>)
    requires forall k :: k in order ==> k in rows
  {
    if order == [] then blob.Keys else UnresolvedParents(RowMap(chat, order, rows).at) * blob.Keys
  }

  function RowsAfterRead(rows: Rows, chat: Id, order: seq<string>, blob: map<Id, Message>): (r: Rows)
    requires forall k :: k in order ==> k in rows
  {
    Backfilled(rows, chat, Wanted(rows, chat, order, blob), blob)
  }

  function ReadMap(rows: Rows, chat: Id, order: seq<string>, blob: map<Id, Message>): (r: map<Id, Message>)
    requires forall k :: k in order ==> k in rows
  {
    if order == [] then blob
    else RowMap(chat, order, rows).at + (map id | id in Wanted(rows, chat, order, blob) :: blob[id])
  }
}
