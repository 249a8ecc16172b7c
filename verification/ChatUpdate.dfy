/** Saving a client's history over the stored one (the update route in routers/chats.py): merge, then reconcile rows. */
module ChatUpdate {
  import opened Basics
  import opened Forest
  import opened History
  import opened Chats
  import opened MergeHistory

  /** A checked history as the merge receives it. */
  function Raw(m: Messages, cur: Option<Id>): (r: RawHistory) {
    RawHistory(Dict(m.keys, Objects(m.at)), cur, map[])
  }

  /** The stored history after loading the chat. */
  function Stored(s: Store): (r: RawHistory) {
    Raw(s.messages, RepairedCursor(s.messages, s.currentId))
  }

  /** The stored chat and its rows after the update. */
  function Updated(s: Store, chat: Id, i: RawHistory): (r: Store) {
    var h := Merged(Stored(s), i);
    var at := MessagesOf(h.messages.at);
    Store(Dict(h.messages.keys, at), h.currentId, Backfilled(s.rows, chat, at.Keys, at))
  }

  /** The update route: load, merge, save, and write the rows. */
  method UpdateChat(store: ChatStore, i: RawHistory)
    requires store.history.Valid() && i.Valid()
    modifies store.history, store.table
    ensures store.history.Valid()
    ensures store.View() == Updated(old(store.View()), store.chatId, i)
    ensures SavedCursor(old(store.View()), i, store.View())
  {
    ghost var was := store.View();
    SaveMerged(store, i);
    UpdatedCursor(was, store.chatId, i);
  }

  method SaveMerged(store: ChatStore, i: RawHistory)
    requires store.history.Valid() && i.Valid()
    modifies store.history, store.table
    ensures store.history.Valid()
    ensures store.View() == Updated(old(store.View()), store.chatId, i)
  {
    ghost var was := store.View();
    store.Load();
    var m, cur := MergeInto(store.history.messages, store.history.currentId, i);
    assert m.Valid() by { UpdatedIsValid(was, store.chatId, i); }
    store.history.messages := m;
    store.history.currentId := cur;
    Backfill(store.table, store.chatId, m.at.Keys, m.at);
  }

  /** The cursor after a client history was saved: the client's if it names a saved message, else the loaded one if
      that does, else null. */
  ghost predicate SavedCursor(s: Store, i: RawHistory, r: Store) {
    var saved := r.messages.at;
    if i.currentId.Some? && i.currentId.value in saved then r.currentId == i.currentId
    else
      var loaded := Loaded(s).currentId;
      if loaded.Some? && loaded.value in saved then r.currentId == loaded else r.currentId == None
  }

  lemma UpdatedCursor(s: Store, chat: Id, i: RawHistory)
    ensures SavedCursor(s, i, Updated(s, chat, i))
  {
    MergedCursorIs(Stored(s), i);
    var h := Merged(Stored(s), i).messages.at;
    assert forall k :: k in h ==> h[k].Object?;
  }

  /** What is saved, message by message: the client's where it sent one, else the stored one, with new child lists. */
  lemma SavedMessage(s: Store, chat: Id, i: RawHistory, k: Id)
    requires s.messages.Valid() && i.Valid()
    ensures var r := Updated(s, chat, i).messages.at;
            && (k in r <==> if k in i.messages.at then i.messages.at[k].Object? else k in s.messages.at)
            && (k in r ==> r[k].(childrenIds := []) ==
                             (if k in i.messages.at then i.messages.at[k].m else s.messages.at[k]).(childrenIds := []))
  {
    StoredIsValid(s);
    MergedMessage(Stored(s), i, k);
  }

  method MergeInto(m: Messages, cur: Option<Id>, i: RawHistory) returns (next: Messages, nextCur: Option<Id>)
    ensures var h := Merged(Raw(m, cur), i);
            next == Dict(h.messages.keys, MessagesOf(h.messages.at)) && nextCur == h.currentId
  {
    var h := MergeHistories(Raw(m, cur), i);
    next, nextCur := Dict(h.messages.keys, MessagesOf(h.messages.at)), h.currentId;
  }

  lemma StoredIsValid(s: Store)
    requires s.messages.Valid()
    ensures Stored(s).Valid() && AllObjects(Stored(s)) && Stored(s).messages.at.Keys == s.messages.at.Keys
    ensures ParentsOf(BareOf(Stored(s).messages.at)) == ParentsOf(s.messages.at)
  {
    ParentsOfObjects(s.messages.at);
  }

  /** Whatever comes in, the stored history keeps exact links, and its cursor is a message or None. */
  lemma UpdatedIsValid(s: Store, chat: Id, i: RawHistory)
    requires s.messages.Valid() && i.Valid()
    ensures var r := Updated(s, chat, i);
            r.messages.Valid() && Linked(r.messages.at) && (r.currentId.Some? ==> r.currentId.value in r.messages.at)
  {
    StoredIsValid(s);
    var at := MergeLinks(Stored(s), i);
    MessagesOfObjects(at);
  }

  /** An update keeps a tree a tree exactly when jumping among the incoming messages closes no cycle. */
  lemma UpdateTreeIff(s: Store, chat: Id, i: RawHistory)
    requires s.messages.Valid() && Tree(s.messages.at) && i.Valid()
    ensures Acyclic(KeptParents(Stored(s), i))
    ensures Tree(Updated(s, chat, i).messages.at) <==> Acyclic(MergeJumps(Stored(s), i))
  {
    StoredIsValid(s);
    RemovalAcyclic(ParentsOf(s.messages.at), i.messages.at.Keys);
    MergeTreeIff(Stored(s), i);
  }

  /** The incoming entries are messages with roles whose parents are known, and no jumps among them go round. */
  ghost predicate GoodUpdate(s: Store, i: RawHistory) {
    var bare := BareOf(i.messages.at);
    && i.Valid() && AllObjects(i) && "" !in bare && AllRoles(bare)
    && (forall c :: c in bare && bare[c].parentId.Some? ==>
        bare[c].parentId.value in s.messages.at || bare[c].parentId.value in bare)
    && Acyclic(KeptParents(Stored(s), i)) && Acyclic(MergeJumps(Stored(s), i))
  }

  /** The messages after an update: the incoming ones over the stored ones, with new child lists. */
  lemma UpdatedMessages(s: Store, chat: Id, i: RawHistory, k: Id)
    requires s.messages.Valid() && i.Valid() && AllObjects(i)
    ensures var bare, r := BareOf(i.messages.at), Updated(s, chat, i).messages.at;
            && (k in r <==> k in s.messages.at || k in bare)
            && (k in r ==> r[k].(childrenIds := []) == if k in bare then bare[k]
                else s.messages.at[k].(childrenIds := []))
  {
    StoredIsValid(s);
    MergedOfObjects(Stored(s), i);
    assert BareOf(Stored(s).messages.at).Keys == s.messages.at.Keys;
    var h := Merged(Stored(s), i).messages.at;
    assert k in h ==> BareOf(h)[k] == h[k].m.(childrenIds := []);
  }

  lemma UpdateKeepsSound(s: Store, chat: Id, i: RawHistory)
    requires Sound(s, chat) && GoodUpdate(s, i)
    ensures Sound(Updated(s, chat, i), chat)
  {
    var bare, r := BareOf(i.messages.at), Updated(s, chat, i).messages.at;
    UpdatedIsValid(s, chat, i);
    UpdateTreeIff(s, chat, i);
    forall k ensures k in r <==> k in s.messages.at || k in bare {
      UpdatedMessages(s, chat, i, k);
    }
    forall k | k in r
      ensures r[k].role != "" && (r[k].parentId.Some? ==> r[k].parentId.value in r)
    {
      UpdatedMessages(s, chat, i, k);
      assert r[k].(childrenIds := []).role == r[k].role && r[k].(childrenIds := []).parentId == r[k].parentId;
      assert k !in bare ==> s.messages.at[k].(childrenIds := []).role == s.messages.at[k].role;
    }
    BackfillKeepsMirror(s.rows, chat, s.messages.at, r);
  }
}
