/** Creating a chat: the first history is built whole and then mirrored (main.py and `insert_new_chat` in
    models/chats.py). */
module NewChat {
  import opened Basics
  import opened Forest
  import opened History
  import opened ChatMessages
  import opened Chats
  import opened ChatTurn
  import opened ChatRuns

  function PlaceholderMessage(e: Placeholder, userId: Option<Id>): (r: Message) {
    Message(userId, [], "assistant", e.id, e.timestamp, "", e.fields)
  }

  /** The user message as the client sent it, listing the assistants. */
  function FirstMessage(user: Patch, assistants: seq<Id>): (r: Message) {
    Message(Or(user.parentId, None), assistants, Or(user.role, ""), Or(user.id, ""), Or(user.timestamp, 0),
            Or(user.outputRole, ""), user.fields)
  }

  function WithPlaceholders(m: Messages, userId: Option<Id>, entries: seq<Placeholder>): (r: Messages)
    decreases entries
  {
    if entries == [] then m
    else
      WithPlaceholders(
        if entries[0].id != "" then m.Put(entries[0].id, PlaceholderMessage(entries[0], userId)) else m,
        userId, entries[1..])
  }

  function FirstHistory(t: Turn): (r: Messages) {
    var start := if Truthy(UserId(t))
                 then Dict([UserId(t).value], map[UserId(t).value := FirstMessage(t.user.value, Assistants(t.entries))])
                 else Dict([], map[]);
    WithPlaceholders(start, UserId(t), t.entries)
  }

  function Created(rows: Rows, chat: Id, t: Turn): (r: Store) {
    var m, ids := FirstHistory(t), Assistants(t.entries);
    Store(m, if ids != [] then Some(ids[0]) else UserId(t), Backfilled(rows, chat, m.at.Keys, m.at))
  }

  method BuildHistory(t: Turn) returns (m: Messages)
    ensures m == FirstHistory(t)
  {
    m := Dict([], map[]);
    if Truthy(UserId(t)) {
      m := Dict([UserId(t).value], map[UserId(t).value := FirstMessage(t.user.value, Assistants(t.entries))]);
    }
    var n := 0;
    while n < |t.entries|
      invariant 0 <= n <= |t.entries|
      invariant WithPlaceholders(m, UserId(t), t.entries[n..]) == FirstHistory(t)
    {
      var e := t.entries[n];
      assert t.entries[n..][0] == e && t.entries[n..][1..] == t.entries[n + 1..];
      if e.id != "" {
        m := m.Put(e.id, PlaceholderMessage(e, UserId(t)));
      }
      n := n + 1;
    }
  }

  method InsertNewChat(table: ChatMessageTable, chat: Id, t: Turn) returns (m: Messages, cur: Option<Id>)
    modifies table
    ensures Store(m, cur, table.rows) == Created(old(table.rows), chat, t)
  {
    m := BuildHistory(t);
    Backfill(table, chat, m.at.Keys, m.at);
    var ids := Assistants(t.entries);
    cur := if ids != [] then Some(ids[0]) else UserId(t);
  }

  /** The messages so far and the assistants still to come form a tree once all are in. */
  ghost predicate Growing(m: Messages, userId: Option<Id>, ids: seq<Id>) {
    ReadyForPlaceholders(Store(m, None, map[]), userId, ids) && AllRoles(m.at)
  }

  lemma FirstApart(id: Id, ids: seq<Id>)
    requires NoDup([id] + ids)
    ensures NoDup(ids) && id !in ids && id in [id] + ids && forall a :: a in ids ==> a in [id] + ids
  {
    var all := [id] + ids;
    assert all[0] == id && forall i :: 0 <= i < |ids| ==> ids[i] == all[i + 1];
  }

  lemma OneMore(m: Messages, userId: Option<Id>, e: Placeholder, ids: seq<Id>)
    requires e.id != "" && Growing(m, userId, [e.id] + ids)
    ensures Growing(m.Put(e.id, PlaceholderMessage(e, userId)), userId, ids)
    ensures m.Put(e.id, PlaceholderMessage(e, userId)).keys == m.keys + [e.id]
  {
    var x := PlaceholderMessage(e, userId);
    var all := [e.id] + ids;
    FirstApart(e.id, ids);
    PutValid(m, e.id, x);
    if userId.None? {
      AddMessage(m.at, "", {}, e.id, x, "", {});
    } else {
      AddMessage(m.at, userId.value, Elems(all), e.id, x, userId.value, Elems(ids));
    }
  }

  lemma {:induction false} AllMore(m: Messages, userId: Option<Id>, entries: seq<Placeholder>)
    requires Growing(m, userId, Assistants(entries))
    ensures Growing(WithPlaceholders(m, userId, entries), userId, [])
    ensures WithPlaceholders(m, userId, entries).keys == m.keys + Assistants(entries)
    decreases entries
  {
    if entries != [] {
      var e := entries[0];
      if e.id == "" {
        assert Assistants(entries) == Assistants(entries[1..]);
        AllMore(m, userId, entries[1..]);
      } else {
        var next, ids := m.Put(e.id, PlaceholderMessage(e, userId)), Assistants(entries[1..]);
        assert Assistants(entries) == [e.id] + ids;
        assert Growing(next, userId, ids) && next.keys == m.keys + [e.id] by { OneMore(m, userId, e, ids); }
        assert WithPlaceholders(m, userId, entries) == WithPlaceholders(next, userId, entries[1..]);
        AllMore(next, userId, entries[1..]);
        assert m.keys + [e.id] + ids == m.keys + ([e.id] + ids);
      }
    }
  }

  /** The request is for a new chat: distinct ids and, if there is a user message, one with a role and no parent. The
      child list the client sends is overwritten, so it may be any. */
  ghost predicate FirstTurn(t: Turn) {
    FreshIds(map[], t) && ParentKnown(map[], t) && (t.user.Some? ==> Or(t.user.value.role, "") != "")
  }

  lemma StartGrowing(t: Turn)
    requires FirstTurn(t)
    ensures var u, ids := UserId(t), Assistants(t.entries);
            Growing(if Truthy(u) then Dict([u.value], map[u.value := FirstMessage(t.user.value, ids)])
                    else Dict([], map[]), u, ids)
  {
    AssistantsNonEmpty(t.entries);
    DropsAcyclic(ParentsOf(map[]), map[]);
    if t.user.Some? {
      var u, ids := UserId(t).value, Assistants(t.entries);
      AddMessage(map[], "", {}, u, FirstMessage(t.user.value, ids), u, Elems(ids));
    }
  }

  lemma FirstRowsMirror(rows: Rows, chat: Id, at: map<Id, Message>)
    requires AllRoles(at) && forall k :: k in rows ==> !HasPrefix(k, chat) && rows[k].chatId != chat
    ensures Mirrors(Backfilled(rows, chat, at.Keys, at), chat, at) &&
              NoForeign(Backfilled(rows, chat, at.Keys, at), chat)
  {
    BackfillKeepsMirror(rows, chat, map[], at);
  }

  /** A new chat is sound from the start, holds exactly the user message and the assistants, and its cursor is on
      the first assistant (a later turn leaves it on the last). */
  lemma NewChatSound(rows: Rows, chat: Id, t: Turn)
    requires FirstTurn(t) && forall k :: k in rows ==> !HasPrefix(k, chat) && rows[k].chatId != chat
    ensures var s, ids := Created(rows, chat, t), Assistants(t.entries);
            && Sound(s, chat)
            && s.messages.keys == (if t.user.Some? then [UserId(t).value] else []) + ids
            && s.currentId == if ids != [] then Some(ids[0]) else UserId(t)
  {
    var u := UserId(t);
    var start := if Truthy(u) then Dict([u.value], map[u.value := FirstMessage(t.user.value, Assistants(t.entries))])
                 else Dict([], map[]);
    StartGrowing(t);
    AllMore(start, u, t.entries);
    var m := FirstHistory(t);
    assert Elems<Id>([]) == {};
    PendingNothing(m.at, if t.user.Some? then u.value else "");
    FirstRowsMirror(rows, chat, m.at);
  }

  /** From its creation on, whatever turns, edits, deletions and saved histories follow, the rows of a chat give back
      its tree, and the cursor is a message or None. */
  lemma NewChatRunMirrors(rows: Rows, chat: Id, t: Turn, states: seq<Store>, steps: seq<Step>, n: nat,
                          order: seq<string>)
    requires FirstTurn(t) && forall k :: k in rows ==> !HasPrefix(k, chat) && rows[k].chatId != chat
    requires Run(states, chat, steps) && states[0] == Created(rows, chat, t) && n < |states|
    requires Listing(states[n].rows, chat, order)
    ensures var at, m := states[n].messages.at, RowMap(chat, order, states[n].rows);
            && Tree(at) && Closed(at) && Tree(m.at) && m.at.Keys == at.Keys
            && forall id :: id in at ==> ReadsBack(m.at[id], id, at[id])
                                         && multiset(m.at[id].childrenIds) == multiset(at[id].childrenIds)
    ensures states[n].currentId.Some? ==> states[n].currentId.value in states[n].messages.at
  {
    NewChatSound(rows, chat, t);
    RunMirrors(states, chat, steps, n, order);
    assert CursorOk(states[0]) by {
      assert Assistants(t.entries) != [] ==> Assistants(t.entries)[0] in Assistants(t.entries);
      assert forall k :: k in states[0].messages.keys ==> k in states[0].messages.at;
    }
    RunKeepsCursor(states, chat, steps, n);
  }

  lemma {:induction false} OthersKept(m: Messages, userId: Option<Id>, entries: seq<Placeholder>, k: Id)
    requires k in m.at && k !in Assistants(entries)
    ensures var r := WithPlaceholders(m, userId, entries).at; k in r && r[k] == m.at[k]
    decreases entries
  {
    if entries != [] {
      var e := entries[0];
      assert e.id != "" ==> Assistants(entries)[0] == e.id;
      OthersKept(if e.id != "" then m.Put(e.id, PlaceholderMessage(e, userId)) else m, userId, entries[1..], k);
    }
  }

  lemma {:induction false} PlaceholderHeld(m: Messages, userId: Option<Id>, entries: seq<Placeholder>, e: Placeholder)
    requires NoDup(Assistants(entries)) && e in entries && e.id != ""
    ensures var r := WithPlaceholders(m, userId, entries).at;
            && e.id in r && r[e.id].fields == e.fields && r[e.id].role == "assistant" && r[e.id].id == e.id
            && r[e.id].timestamp == e.timestamp && r[e.id].parentId == userId && r[e.id].childrenIds == []
    decreases entries
  {
    var first, rest := entries[0], entries[1..];
    assert entries == [first] + rest;
    RestFresh(entries);
    var next := if first.id != "" then m.Put(first.id, PlaceholderMessage(first, userId)) else m;
    if e == first {
      OthersKept(next, userId, rest, e.id);
    } else {
      PlaceholderHeld(next, userId, rest, e);
    }
  }

  /** What a new chat holds: the user message with the client's own contents, listing the assistants in order, and each
      assistant with the contents the turn gives it. */
  lemma NewChatContents(rows: Rows, chat: Id, t: Turn)
    requires FirstTurn(t)
    ensures var at := Created(rows, chat, t).messages.at;
            && (t.user.Some? ==>
                  var u, sent := UserId(t).value, t.user.value;
                  && u in at && at[u].fields == sent.fields && at[u].id == u && at[u].parentId == None
                  && Some(at[u].role) == sent.role && at[u].childrenIds == Assistants(t.entries)
                  && at[u].timestamp == (if sent.timestamp.Some? then sent.timestamp.value else 0))
            && forall e :: e in t.entries && e.id != "" ==>
                 && e.id in at && at[e.id].fields == e.fields && at[e.id].role == "assistant" && at[e.id].id == e.id
                 && at[e.id].timestamp == e.timestamp && at[e.id].parentId == UserId(t) && at[e.id].childrenIds == []
  {
    var u := UserId(t);
    var start := if Truthy(u) then Dict([u.value], map[u.value := FirstMessage(t.user.value, Assistants(t.entries))])
                 else Dict([], map[]);
    forall e | e in t.entries && e.id != ""
      ensures var r := WithPlaceholders(start, u, t.entries).at;
              && e.id in r && r[e.id].fields == e.fields && r[e.id].role == "assistant" && r[e.id].id == e.id
              && r[e.id].timestamp == e.timestamp && r[e.id].parentId == u && r[e.id].childrenIds == []
    {
      PlaceholderHeld(start, u, t.entries, e);
    }
    if t.user.Some? {
      OthersKept(start, u, t.entries, u.value);
    }
  }
}
