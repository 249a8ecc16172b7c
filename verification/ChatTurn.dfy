/** Writing one chat turn (the history-writing part of `chat_completion` in main.py). */
module ChatTurn {
  import opened Basics
  import opened Forest
  import opened History
  import opened Chats

  /** An entry of `message_ids`; an entry without a message id has id "". */
  datatype Placeholder = Placeholder(id: Id, timestamp: int, fields: map<string, string>)

  datatype Turn = Turn(user: Option<Patch>, entries: seq<Placeholder>)

  function UserId(t: Turn): (r: Option<Id>) {
    if t.user.Some? then t.user.value.id else None
  }

  function Truthy(id: Option<Id>): (r: bool) {
    id.Some? && id.value != ""
  }

  function Assistants(entries: seq<Placeholder>): (r: seq<Id>) {
    if entries == [] then []
    else (if entries[0].id != "" then [entries[0].id] else []) + Assistants(entries[1..])
  }

  function ChildrenPatch(ids: seq<Id>): (r: Patch) {
    Patch(None, Some(ids), None, None, None, None, map[])
  }

  function AssistantPatch(e: Placeholder, userId: Option<Id>): (r: Patch) {
    Patch(Some(userId), Some([]), Some("assistant"), Some(e.id), Some(e.timestamp), None, e.fields)
  }

  /** `ids` after the old ones, skipping those already listed. */
  function AddMissing(was: seq<Id>, ids: seq<Id>): (r: seq<Id>)
    decreases ids
  {
    if ids == [] then was
    else AddMissing(if ids[0] in was then was else was + [ids[0]], ids[1..])
  }

  function SaveUser(s: Store, chat: Id, t: Turn, now: int): (r: Store) {
    if Truthy(UserId(t)) then UpsertMessage(s, chat, UserId(t).value, t.user.value, now) else s
  }

  function LinkGrandparent(s: Store, chat: Id, t: Turn, now: int): (r: Store) {
    var g := if t.user.Some? then Or(t.user.value.parentId, None) else None;
    if !Truthy(UserId(t)) || !Truthy(g) then s
    else if g.value in s.messages.at && UserId(t).value !in s.messages.at[g.value].childrenIds
    then UpsertMessage(s, chat, g.value, ChildrenPatch(s.messages.at[g.value].childrenIds + [UserId(t).value]), now)
    else Loaded(s)
  }

  function LinkAssistants(s: Store, chat: Id, t: Turn, now: int): (r: Store) {
    var u := UserId(t);
    if !Truthy(u) || Assistants(t.entries) == [] then s
    else if u.value in s.messages.at
    then UpsertMessage(s, chat, u.value,
                       ChildrenPatch(AddMissing(s.messages.at[u.value].childrenIds, Assistants(t.entries))), now)
    else Loaded(s)
  }

  function SavePlaceholders(s: Store, chat: Id, userId: Option<Id>, entries: seq<Placeholder>, now: int): (r: Store)
    decreases entries
  {
    if entries == [] then s
    else
      var e := entries[0];
      var next := if e.id != "" then UpsertMessage(s, chat, e.id, AssistantPatch(e, userId), now) else s;
      SavePlaceholders(next, chat, userId, entries[1..], now)
  }

  /** The store before the placeholders are written: user saved, both link lists extended. */
  function LinksWritten(s: Store, chat: Id, t: Turn, now: int): (r: Store) {
    LinkAssistants(LinkGrandparent(SaveUser(s, chat, t, now), chat, t, now), chat, t, now)
  }

  function TurnStore(s: Store, chat: Id, t: Turn, now: int): (r: Store) {
    SavePlaceholders(LinksWritten(s, chat, t, now), chat, UserId(t), t.entries, now)
  }

  method CollectMissing(was: seq<Id>, ids: seq<Id>) returns (r: seq<Id>)
    ensures r == AddMissing(was, ids)
  {
    r := was;
    var n := 0;
    while n < |ids|
      invariant 0 <= n <= |ids|
      invariant AddMissing(was, ids) == AddMissing(r, ids[n..])
    {
      if ids[n] !in r {
        r := r + [ids[n]];
      }
      n := n + 1;
    }
  }

  method WriteUser(store: ChatStore, t: Turn, now: int)
    requires store.history.Valid()
    modifies store.history, store.table
    ensures store.history.Valid()
    ensures store.View() == LinkGrandparent(SaveUser(old(store.View()), store.chatId, t, now), store.chatId, t, now)
  {
    var u := UserId(t);
    if Truthy(u) {
      store.Upsert(u.value, t.user.value, now);
      var g := Or(t.user.value.parentId, None);
      if Truthy(g) {
        store.Load();
        if g.value in store.history.messages.at {
          var ids := store.history.messages.at[g.value].childrenIds;
          if u.value !in ids {
            store.Upsert(g.value, ChildrenPatch(ids + [u.value]), now);
          }
        }
      }
    }
  }

  method WriteLinks(store: ChatStore, t: Turn, now: int)
    requires store.history.Valid()
    modifies store.history, store.table
    ensures store.history.Valid()
    ensures store.View() == LinkAssistants(old(store.View()), store.chatId, t, now)
  {
    var u := UserId(t);
    var assistants := Assistants(t.entries);
    if Truthy(u) && assistants != [] {
      store.Load();
      if u.value in store.history.messages.at {
        var ids := CollectMissing(store.history.messages.at[u.value].childrenIds, assistants);
        store.Upsert(u.value, ChildrenPatch(ids), now);
      }
    }
  }

  method WritePlaceholders(store: ChatStore, userId: Option<Id>, entries: seq<Placeholder>, now: int)
    requires store.history.Valid()
    modifies store.history, store.table
    ensures store.history.Valid()
    ensures store.View() == SavePlaceholders(old(store.View()), store.chatId, userId, entries, now)
  {
    var n := 0;
    while n < |entries|
      invariant 0 <= n <= |entries| && store.history.Valid()
      invariant SavePlaceholders(store.View(), store.chatId, userId, entries[n..], now)
             == SavePlaceholders(old(store.View()), store.chatId, userId, entries, now)
    {
      var e := entries[n];
      assert entries[n..][0] == e && entries[n..][1..] == entries[n + 1..];
      if e.id != "" {
        store.Upsert(e.id, AssistantPatch(e, userId), now);
      }
      n := n + 1;
    }
  }

  /** The history-writing steps of `chat_completion`, in order; every one begins by loading the chat. */
  method WriteTurn(store: ChatStore, t: Turn, now: int)
    requires store.history.Valid()
    modifies store.history, store.table
    ensures store.history.Valid()
    ensures store.View() == TurnStore(old(store.View()), store.chatId, t, now)
  {
    WriteUser(store, t, now);
    WriteLinks(store, t, now);
    WritePlaceholders(store, UserId(t), t.entries, now);
  }

  // ----- what a turn does to the tree -----

  /** A tree but for child entries of `owner` in `pending`, which are still to be written. */
  ghost predicate PendingTree(at: map<Id, Message>, owner: Id, pending: set<Id>) {
    && (forall a {:trigger at[a].childrenIds} :: a in at ==> NoDup(at[a].childrenIds))
    && (forall a, c {:trigger c in at[a].childrenIds} :: a in at && c in at[a].childrenIds ==>
          (c in at && at[c].parentId == Some(a)) || (a == owner && c in pending))
    && (forall c :: c in at && at[c].parentId.Some? ==>
          at[c].parentId.value in at && c in at[at[c].parentId.value].childrenIds)
    && Acyclic(ParentsOf(at))
    && pending !! at.Keys
  }

  lemma PendingNothing(at: map<Id, Message>, owner: Id)
    ensures PendingTree(at, owner, {}) <==> Tree(at) && Closed(at)
  {
  }

  /** All messages of the turn are new and distinct. */
  ghost predicate FreshIds(at: map<Id, Message>, t: Turn) {
    var ids := Assistants(t.entries);
    && NoDup(ids) && (forall a :: a in ids ==> a !in at)
    && (t.user.Some? ==> Truthy(UserId(t)) && UserId(t).value !in at && UserId(t).value !in ids)
  }

  /** The parent named by the user message, if any, is present. */
  ghost predicate ParentKnown(at: map<Id, Message>, t: Turn) {
    var g := if t.user.Some? then Or(t.user.value.parentId, None) else None;
    g.Some? ==> g.value in at
  }

  /** The client lists each child once, and only assistants of the turn. */
  ghost predicate ChildrenKnown(t: Turn) {
    var cs := if t.user.Some? then Or(t.user.value.childrenIds, []) else [];
    NoDup(cs) && forall c :: c in cs ==> c in Assistants(t.entries)
  }

  ghost predicate FreshTurn(at: map<Id, Message>, t: Turn) {
    FreshIds(at, t) && ParentKnown(at, t) && ChildrenKnown(t)
  }

  /** A message added where its parent already lists it (or as a root). Its own children may be still to come. */
  lemma AddMessage(at: map<Id, Message>, owner: Id, pending: set<Id>, id: Id, m: Message, owner': Id, rest: set<Id>)
    requires PendingTree(at, owner, pending) && id !in at
    requires NoDup(m.childrenIds) && (forall c :: c in m.childrenIds ==> id == owner' && c in rest)
    requires m.parentId.Some? ==> m.parentId.value in at && id in at[m.parentId.value].childrenIds
    requires id in pending ==> m.parentId == Some(owner)
    requires forall c :: c in pending ==> c == id || (owner == owner' && c in rest)
    requires rest !! at.Keys && id !in rest
    ensures PendingTree(at[id := m], owner', rest)
  {
    AddLeafAcyclic(ParentsOf(at), id, m.parentId);
    assert ParentsOf(at[id := m]) == ParentsOf(at)[id := m.parentId];
  }

  /** Extending one child list by messages still to be written. */
  lemma ExtendChildren(at: map<Id, Message>, owner: Id, pending: set<Id>, kids: seq<Id>, more: set<Id>)
    requires PendingTree(at, owner, pending) && owner in at
    requires NoDup(kids) && (forall c :: c in at[owner].childrenIds ==> c in kids)
    requires forall c :: c in kids ==> c in at[owner].childrenIds || c in more
    requires pending <= more && more !! at.Keys
    ensures PendingTree(at[owner := at[owner].(childrenIds := kids)], owner, more)
  {
    var next := at[owner := at[owner].(childrenIds := kids)];
    assert ParentsOf(next) == ParentsOf(at);
    forall c | c in next && next[c].parentId.Some?
      ensures next[c].parentId.value in next && c in next[next[c].parentId.value].childrenIds
    {
      assert c in at && next[c].parentId == at[c].parentId;
      assert c in at[at[c].parentId.value].childrenIds;
    }
  }

  lemma {:induction false} AddMissingExact(was: seq<Id>, ids: seq<Id>)
    requires NoDup(was)
    ensures NoDup(AddMissing(was, ids))
    ensures forall c :: c in AddMissing(was, ids) <==> c in was || c in ids
    decreases ids
  {
    if ids != [] {
      var next := if ids[0] in was then was else was + [ids[0]];
      AddMissingExact(next, ids[1..]);
    }
  }

  /** The appended ones come last, in their order. */
  lemma {:induction false} AddMissingIs(was: seq<Id>, ids: seq<Id>)
    requires NoDup(ids)
    ensures AddMissing(was, ids) == was + Without(ids, Elems(was))
    decreases ids
  {
    if ids != [] {
      var next := if ids[0] in was then was else was + [ids[0]];
      assert ids == [ids[0]] + ids[1..];
      assert ids[0] !in ids[1..];
      AddMissingIs(next, ids[1..]);
      SameWithout(ids[1..], Elems(was), Elems(next));
    }
  }

  lemma {:induction false} SameWithout(ids: seq<Id>, a: set<Id>, b: set<Id>)
    requires forall x :: x in ids ==> (x in a <==> x in b)
    ensures Without(ids, a) == Without(ids, b)
  {
    if ids != [] {
      SameWithout(ids[1..], a, b);
    }
  }

  /** The user message as a turn stores it. */
  function UserMessage(s: Store, t: Turn, now: int): (r: Message)
    requires t.user.Some? && Truthy(UserId(t))
  {
    Created(s.messages, UserId(t).value, t.user.value, now)
  }

  /** The user message hangs under the parent it names, with the children the client sent. */
  lemma UserCreated(s: Store, t: Turn, now: int)
    requires s.messages.Valid() && Linked(s.messages.at) && t.user.Some? && Truthy(UserId(t)) &&
              UserId(t).value !in s.messages.at
    ensures UserMessage(s, t, now).parentId == Or(t.user.value.parentId, None)
    ensures UserMessage(s, t, now).childrenIds == Or(t.user.value.childrenIds, [])
  {
    NewWithoutParentIsRoot(s.messages, UserId(t).value);
  }

  lemma ChildrenPatched(m: Message, ids: seq<Id>)
    ensures Overlay(m, ChildrenPatch(ids)) == m.(childrenIds := ids)
  {
  }

  /** The user message written, and appended to its parent's child list. */
  function HungAt(at: map<Id, Message>, g: Option<Id>, u: Id, m: Message): (r: map<Id, Message>)
    requires g.Some? ==> g.value in at
  {
    (if g.Some? then at[g.value := at[g.value].(childrenIds := at[g.value].childrenIds + [u])] else at)[u := m]
  }

  /** After the user message is saved and linked, the store holds the old messages, that link and that message. */
  lemma UserSaved(s: Store, chat: Id, t: Turn, now: int)
    requires Linked(s.messages.at) && "" !in s.messages.at && t.user.Some?
    requires FreshIds(s.messages.at, t) && ParentKnown(s.messages.at, t)
    ensures var r := LinkGrandparent(SaveUser(s, chat, t, now), chat, t, now);
            var u, g := UserId(t).value, Or(t.user.value.parentId, None);
            && r.messages.keys == s.messages.keys + [u]
            && r.messages.at == HungAt(s.messages.at, g, u, UserMessage(s, t, now))
            && r.currentId == Some(if g.Some? then g.value else u)
  {
    var u, g := UserId(t).value, Or(t.user.value.parentId, None);
    if g.Some? {
      assert u !in s.messages.at[g.value].childrenIds;
      ChildrenPatched(s.messages.at[g.value], s.messages.at[g.value].childrenIds + [u]);
    }
  }

  lemma UserSavedTree(s: Store, chat: Id, t: Turn, now: int)
    requires s.messages.Valid() && Tree(s.messages.at) && Closed(s.messages.at) && "" !in s.messages.at
    requires FreshTurn(s.messages.at, t) && t.user.Some?
    ensures PendingTree(LinkGrandparent(SaveUser(s, chat, t, now), chat, t, now).messages.at,
                        UserId(t).value, Elems(Or(t.user.value.childrenIds, [])))
  {
    UserSaved(s, chat, t, now);
    UserCreated(s, t, now);
    var at, g, u := s.messages.at, Or(t.user.value.parentId, None), UserId(t).value;
    var m := UserMessage(s, t, now);
    if g.Some? {
      PendingNothing(at, g.value);
      ConcatNoDup(at[g.value].childrenIds, [u]);
      ExtendChildren(at, g.value, {}, at[g.value].childrenIds + [u], {u});
      var linked := at[g.value := at[g.value].(childrenIds := at[g.value].childrenIds + [u])];
      AddMessage(linked, g.value, {u}, u, m, u, Elems(m.childrenIds));
    } else {
      PendingNothing(at, u);
      AddMessage(at, u, {}, u, m, u, Elems(m.childrenIds));
    }
  }

  /** What the store looks like once every link is in place and only the placeholders are missing. */
  ghost predicate ReadyForPlaceholders(s: Store, userId: Option<Id>, ids: seq<Id>) {
    && s.messages.Valid() && "" !in s.messages.at
    && NoDup(ids) && (forall a :: a in ids ==> a !in s.messages.at && a != "")
    && (userId.None? ==> PendingTree(s.messages.at, "", {}))
    && (userId.Some? ==>
          && userId.value in s.messages.at && PendingTree(s.messages.at, userId.value, Elems(ids))
          && forall a :: a in ids ==> a in s.messages.at[userId.value].childrenIds)
  }

  lemma OnePlaceholder(s: Store, chat: Id, userId: Option<Id>, e: Placeholder, ids: seq<Id>, now: int)
    requires e.id != "" && ReadyForPlaceholders(s, userId, [e.id] + ids)
    ensures var r := UpsertMessage(s, chat, e.id, AssistantPatch(e, userId), now);
            && r.messages.keys == s.messages.keys + [e.id] && r.currentId == Some(e.id)
            && (exists m :: r.messages.at == s.messages.at[e.id := m] && IsPlaceholder(m, e.id, userId))
            && ReadyForPlaceholders(r, userId, ids)
  {
    var at := s.messages.at;
    assert e.id in [e.id] + ids && forall a :: a in ids ==> a in [e.id] + ids;
    var m := Created(s.messages, e.id, AssistantPatch(e, userId), now);
    assert NoDup(ids) && e.id !in ids by {
      forall i, j | 0 <= i < j < |ids| ensures ids[i] != ids[j] {
        assert ([e.id] + ids)[i + 1] == ids[i] && ([e.id] + ids)[j + 1] == ids[j];
      }
      forall i | 0 <= i < |ids| ensures ids[i] != e.id {
        assert ([e.id] + ids)[0] == e.id && ([e.id] + ids)[i + 1] == ids[i];
      }
    }
    PutValid(s.messages, e.id, m);
    if userId.None? {
      PendingNothing(at, "");
      NewWithoutParentIsRoot(s.messages, e.id);
      AddMessage(at, "", {}, e.id, m, "", {});
    } else {
      AddMessage(at, userId.value, Elems([e.id] + ids), e.id, m, userId.value, Elems(ids));
    }
    assert IsPlaceholder(m, e.id, userId);
  }

  ghost predicate IsPlaceholder(m: Message, id: Id, userId: Option<Id>) {
    m.parentId == userId && m.childrenIds == [] && m.role == "assistant" && m.id == id && m.outputRole == ""
  }

  /** `r` has the messages of `s`, unchanged, then one placeholder per id, and the cursor is on the last of them. */
  ghost predicate PlaceholdersAdded(s: Store, r: Store, userId: Option<Id>, ids: seq<Id>) {
    && r.messages.keys == s.messages.keys + ids
    && r.messages.at.Keys == s.messages.at.Keys + Elems(ids)
    && (forall k :: k in s.messages.at && k !in ids ==> r.messages.at[k] == s.messages.at[k])
    && (forall a :: a in ids ==> IsPlaceholder(r.messages.at[a], a, userId))
    && r.currentId == if ids == [] then s.currentId else Some(ids[|ids| - 1])
  }

  lemma AddedThen(s: Store, n: Store, r: Store, userId: Option<Id>, id: Id, ids: seq<Id>, m: Message)
    requires n.messages.keys == s.messages.keys + [id] && n.currentId == Some(id)
    requires n.messages.at == s.messages.at[id := m] && IsPlaceholder(m, id, userId) && id !in ids
    requires PlaceholdersAdded(n, r, userId, ids)
    ensures PlaceholdersAdded(s, r, userId, [id] + ids)
  {
  }

  lemma {:induction false} PlaceholdersSaved(s: Store, chat: Id, userId: Option<Id>, entries: seq<Placeholder>,
                                             now: int)
    requires ReadyForPlaceholders(s, userId, Assistants(entries))
    ensures var r := SavePlaceholders(s, chat, userId, entries, now);
            ReadyForPlaceholders(r, userId, []) && PlaceholdersAdded(s, r, userId, Assistants(entries))
    decreases entries
  {
    if entries == [] {
    } else if entries[0].id == "" {
      assert Assistants(entries) == Assistants(entries[1..]);
      PlaceholdersSaved(s, chat, userId, entries[1..], now);
    } else {
      var e, ids := entries[0], Assistants(entries[1..]);
      var n := UpsertMessage(s, chat, e.id, AssistantPatch(e, userId), now);
      OnePlaceholder(s, chat, userId, e, ids, now);
      var m :| n.messages.at == s.messages.at[e.id := m] && IsPlaceholder(m, e.id, userId);
      assert forall a :: a in ids ==> a !in n.messages.at;
      PlaceholdersSaved(n, chat, userId, entries[1..], now);
      AddedThen(s, n, SavePlaceholders(n, chat, userId, entries[1..], now), userId, e.id, ids, m);
    }
  }

  /** Added to the store: the user message, under its parent and nowhere else. */
  ghost predicate UserHung(s: Store, r: Store, t: Turn)
    requires t.user.Some? && Truthy(UserId(t))
  {
    var u, g := UserId(t).value, Or(t.user.value.parentId, None);
    && r.messages.keys == s.messages.keys + [u]
    && r.messages.at.Keys == s.messages.at.Keys + {u}
    && r.messages.at[u].parentId == g
    && (forall k :: k in s.messages.at && k != u ==> r.messages.at[k] == WithChild(s.messages.at[k], Some(k) == g, u))
  }

  ghost function WithChild(m: Message, yes: bool, child: Id): (r: Message) {
    if yes then m.(childrenIds := m.childrenIds + [child]) else m
  }

  /** As well, the user message lists exactly the assistants of the turn. */
  ghost predicate UserLinked(s: Store, r: Store, t: Turn)
    requires t.user.Some? && Truthy(UserId(t))
  {
    && UserHung(s, r, t)
    && forall c :: c in r.messages.at[UserId(t).value].childrenIds <==> c in Assistants(t.entries)
  }

  lemma UserHangs(s: Store, chat: Id, t: Turn, now: int)
    requires s.messages.Valid() && Tree(s.messages.at) && Closed(s.messages.at) && "" !in s.messages.at
    requires FreshTurn(s.messages.at, t) && t.user.Some?
    ensures var r := LinkGrandparent(SaveUser(s, chat, t, now), chat, t, now);
            && UserHung(s, r, t) && r.messages.Valid() && "" !in r.messages.at
            && r.messages.at[UserId(t).value].childrenIds == Or(t.user.value.childrenIds, [])
  {
    UserSaved(s, chat, t, now);
    UserCreated(s, t, now);
    ConcatNoDup(s.messages.keys, [UserId(t).value]);
  }

  lemma LinkedAssistants(s: Store, chat: Id, t: Turn, now: int)
    requires t.user.Some? && Truthy(UserId(t)) && Assistants(t.entries) != [] && UserId(t).value in s.messages.at
    ensures var u, r := UserId(t).value, LinkAssistants(s, chat, t, now);
            && r.messages.keys == s.messages.keys && r.currentId == Some(u)
            && r.messages.at == s.messages.at[u := s.messages.at[u].(
                 childrenIds := AddMissing(s.messages.at[u].childrenIds, Assistants(t.entries)))]
  {
    var u := UserId(t).value;
    var kids := AddMissing(s.messages.at[u].childrenIds, Assistants(t.entries));
    ChildrenPatched(s.messages.at[u], kids);
  }

  /** Extending the user message's children to all assistants of the turn. */
  lemma AssistantsLinked(prev: Store, chat: Id, t: Turn, now: int)
    requires t.user.Some? && Truthy(UserId(t)) && UserId(t).value in prev.messages.at && NoDup(Assistants(t.entries))
    requires var at, u, ids := prev.messages.at, UserId(t).value, Assistants(t.entries);
             && PendingTree(at, u, Elems(at[u].childrenIds)) && (forall c :: c in at[u].childrenIds ==> c in ids)
             && (forall a :: a in ids ==> a !in at)
    ensures var r, u, ids := LinkAssistants(prev, chat, t, now), UserId(t).value, Assistants(t.entries);
            && r.messages.keys == prev.messages.keys && r.messages.at.Keys == prev.messages.at.Keys
            && (forall k :: k in prev.messages.at && k != u ==> r.messages.at[k] == prev.messages.at[k])
            && r.messages.at[u].parentId == prev.messages.at[u].parentId
            && PendingTree(r.messages.at, u, Elems(ids))
            && (forall c :: c in r.messages.at[u].childrenIds <==> c in ids)
  {
    var u, ids := UserId(t).value, Assistants(t.entries);
    var cs := prev.messages.at[u].childrenIds;
    AddMissingExact(cs, ids);
    if ids != [] {
      LinkedAssistants(prev, chat, t, now);
      ExtendChildren(prev.messages.at, u, Elems(cs), AddMissing(cs, ids), Elems(ids));
    } else {
      assert Elems(cs) == {} == Elems(ids);
    }
  }

  lemma LinksReady(s: Store, chat: Id, t: Turn, now: int)
    requires s.messages.Valid() && Tree(s.messages.at) && Closed(s.messages.at) && "" !in s.messages.at
    requires FreshTurn(s.messages.at, t) && t.user.Some?
    ensures var r := LinksWritten(s, chat, t, now);
            && r.messages.Valid() && "" !in r.messages.at
            && PendingTree(r.messages.at, UserId(t).value, Elems(Assistants(t.entries)))
            && UserLinked(s, r, t)
  {
    var u, ids := UserId(t).value, Assistants(t.entries);
    var prev := LinkGrandparent(SaveUser(s, chat, t, now), chat, t, now);
    UserHangs(s, chat, t, now);
    UserSavedTree(s, chat, t, now);
    AssistantsLinked(prev, chat, t, now);
  }

  /** Without assistants the cursor ends where the last link was written: on the parent, if there is one. */
  lemma LinksCursor(s: Store, chat: Id, t: Turn, now: int)
    requires s.messages.Valid() && Tree(s.messages.at) && Closed(s.messages.at) && "" !in s.messages.at
    requires FreshTurn(s.messages.at, t) && t.user.Some?
    ensures LinksWritten(s, chat, t, now).currentId ==
            if Assistants(t.entries) == [] && Or(t.user.value.parentId, None).Some?
            then Or(t.user.value.parentId, None) else UserId(t)
  {
    UserSaved(s, chat, t, now);
    if Assistants(t.entries) != [] {
      LinkedAssistants(LinkGrandparent(SaveUser(s, chat, t, now), chat, t, now), chat, t, now);
    }
  }

  /** Between the links and the placeholders the history is not a tree: its new children dangle. */
  lemma HalfwayDangles(s: Store, chat: Id, t: Turn, now: int)
    requires s.messages.Valid() && Tree(s.messages.at) && Closed(s.messages.at) && "" !in s.messages.at
    requires FreshTurn(s.messages.at, t) && t.user.Some?
    ensures Tree(LinksWritten(s, chat, t, now).messages.at) <==> Assistants(t.entries) == []
  {
    var r, ids := LinksWritten(s, chat, t, now), Assistants(t.entries);
    LinksReady(s, chat, t, now);
    if ids == [] {
      assert Elems(ids) == {};
      PendingNothing(r.messages.at, UserId(t).value);
    } else {
      assert ids[0] in r.messages.at[UserId(t).value].childrenIds && ids[0] in Elems(ids);
    }
  }

  /** Everything a turn changes: `mid` is the store with the user message linked in. */
  ghost predicate TurnAdds(s: Store, mid: Store, t: Turn, r: Store) {
    && (if t.user.Some? && Truthy(UserId(t)) then UserLinked(s, mid, t) else mid.messages == s.messages)
    && PlaceholdersAdded(mid, r, UserId(t), Assistants(t.entries))
  }

  lemma AssistantsNonEmpty(entries: seq<Placeholder>)
    ensures "" !in Assistants(entries)
  {
  }

  /** A whole chat turn restores the tree, adds exactly its messages and the links to them, and leaves the
      cursor on the last placeholder (or, with none, on the user message's parent or that message itself). */
  lemma TurnKeepsTree(s: Store, chat: Id, t: Turn, now: int)
    requires s.messages.Valid() && Tree(s.messages.at) && Closed(s.messages.at) && "" !in s.messages.at
    requires FreshTurn(s.messages.at, t)
    ensures var r, ids := TurnStore(s, chat, t, now), Assistants(t.entries);
            && r.messages.Valid() && Tree(r.messages.at) && Closed(r.messages.at) && "" !in r.messages.at
            && TurnAdds(s, LinksWritten(s, chat, t, now), t, r)
            && r.currentId == if ids != [] then Some(ids[|ids| - 1])
                              else if t.user.None? then s.currentId
                              else if Or(t.user.value.parentId, None).Some? then Or(t.user.value.parentId, None)
                              else UserId(t)
  {
    var mid, ids := LinksWritten(s, chat, t, now), Assistants(t.entries);
    AssistantsNonEmpty(t.entries);
    if t.user.Some? {
      LinksReady(s, chat, t, now);
      LinksCursor(s, chat, t, now);
    } else {
      PendingNothing(s.messages.at, "");
    }
    assert ReadyForPlaceholders(mid, UserId(t), ids);
    PlaceholdersSaved(mid, chat, UserId(t), t.entries, now);
    var r := TurnStore(s, chat, t, now);
    assert Elems<Id>([]) == {};
    PendingNothing(r.messages.at, if t.user.Some? then UserId(t).value else "");
  }

  lemma {:induction false} OthersStay(s: Store, chat: Id, userId: Option<Id>, entries: seq<Placeholder>, now: int,
                                      k: Id)
    requires k in s.messages.at && k !in Assistants(entries)
    ensures var r := SavePlaceholders(s, chat, userId, entries, now).messages.at; k in r && r[k] == s.messages.at[k]
    decreases entries
  {
    if entries != [] {
      var e := entries[0];
      var next := if e.id != "" then UpsertMessage(s, chat, e.id, AssistantPatch(e, userId), now) else s;
      assert e.id != "" ==> Assistants(entries)[0] == e.id;
      OthersStay(next, chat, userId, entries[1..], now, k);
    }
  }

  /** A new placeholder holds exactly what the turn gives it: its fields, its time, and the role of an assistant. */
  lemma {:induction false} PlaceholderContents(s: Store, chat: Id, userId: Option<Id>, entries: seq<Placeholder>,
                                               now: int, e: Placeholder)
    requires NoDup(Assistants(entries)) && forall a :: a in Assistants(entries) ==> a !in s.messages.at
    requires e in entries && e.id != ""
    ensures var r := SavePlaceholders(s, chat, userId, entries, now).messages.at;
            && e.id in r && r[e.id].fields == e.fields && r[e.id].id == e.id && r[e.id].role == "assistant"
            && r[e.id].timestamp == if e.timestamp != 0 then e.timestamp else now
    decreases entries
  {
    var first, rest := entries[0], entries[1..];
    assert entries == [first] + rest;
    var next := if first.id != "" then UpsertMessage(s, chat, first.id, AssistantPatch(first, userId), now) else s;
    RestFresh(entries);
    if e == first {
      OthersStay(next, chat, userId, rest, now, e.id);
    } else {
      PlaceholderContents(next, chat, userId, rest, now, e);
    }
  }

  lemma RestFresh(entries: seq<Placeholder>)
    requires entries != [] && NoDup(Assistants(entries))
    ensures NoDup(Assistants(entries[1..])) && forall a :: a in Assistants(entries[1..]) ==> a in Assistants(entries)
    ensures entries[0].id != "" ==> entries[0].id in Assistants(entries) && entries[0].id !in Assistants(entries[1..])
  {
    var ids, rest := Assistants(entries), Assistants(entries[1..]);
    if entries[0].id != "" {
      assert ids[0] == entries[0].id && ids[1..] == rest;
      assert forall i :: 0 <= i < |rest| ==> rest[i] == ids[i + 1];
    } else {
      assert ids == rest;
    }
  }

  /** What a turn of new messages stores of the user message: the client's fields, id, time and role where it gives
      them, and as children the client's list, then the assistants it misses, in order. */
  lemma UserContents(s: Store, chat: Id, t: Turn, now: int)
    requires s.messages.Valid() && Linked(s.messages.at) && "" !in s.messages.at && t.user.Some?
    requires FreshIds(s.messages.at, t) && ParentKnown(s.messages.at, t)
    ensures var m := UserStored(s, chat, t, now);
            && m.Some? && m.value.fields == t.user.value.fields && m.value.id == UserId(t).value
            && m.value.parentId == Or(t.user.value.parentId, None)
            && (t.user.value.role.Some? && t.user.value.role.value != "" ==> m.value.role == t.user.value.role.value)
            && (t.user.value.timestamp.Some? && t.user.value.timestamp.value != 0 ==>
                  m.value.timestamp == t.user.value.timestamp.value)
            && (var sent := if t.user.value.childrenIds.Some? then t.user.value.childrenIds.value else [];
                m.value.childrenIds == sent + Without(Assistants(t.entries), Elems(sent)))
  {
    var mid := LinksWritten(s, chat, t, now);
    UserSaved(s, chat, t, now);
    UserCreated(s, t, now);
    AddMissingIs(Or(t.user.value.childrenIds, []), Assistants(t.entries));
    if Assistants(t.entries) != [] {
      LinkedAssistants(LinkGrandparent(SaveUser(s, chat, t, now), chat, t, now), chat, t, now);
    }
    OthersStay(mid, chat, UserId(t), t.entries, now, UserId(t).value);
  }

  function UserStored(s: Store, chat: Id, t: Turn, now: int): (r: Option<Message>)
    requires t.user.Some? && Truthy(UserId(t))
  {
    Find(TurnStore(s, chat, t, now).messages.at, UserId(t).value)
  }

  lemma AddedCursorStays(s: Store, r: Store, userId: Option<Id>, ids: seq<Id>)
    requires PlaceholdersAdded(s, r, userId, ids) && ids != [] && "" !in ids
    ensures Loaded(r) == r
  {
    assert ids[|ids| - 1] in ids;
  }

  /** A cursor on an assistant of the turn is a good one: the next load leaves it there. */
  lemma TurnCursorStays(s: Store, chat: Id, t: Turn, now: int)
    requires s.messages.Valid() && Tree(s.messages.at) && Closed(s.messages.at) && "" !in s.messages.at
    requires FreshTurn(s.messages.at, t) && Assistants(t.entries) != []
    ensures Loaded(TurnStore(s, chat, t, now)) == TurnStore(s, chat, t, now)
  {
    TurnKeepsTree(s, chat, t, now);
    AssistantsNonEmpty(t.entries);
    AddedCursorStays(LinksWritten(s, chat, t, now), TurnStore(s, chat, t, now), UserId(t), Assistants(t.entries));
  }
}
