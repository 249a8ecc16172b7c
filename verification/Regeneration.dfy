/** A chat turn for a user message that is already stored: the answer is asked for again (`chat_completion` in
    main.py). */
module Regeneration {
  import opened Basics
  import opened Forest
  import opened History
  import opened Chats
  import opened ChatTurn

  predicate StoredUser(at: map<Id, Message>, t: Turn) {
    t.user.Some? && Truthy(UserId(t)) && UserId(t).value in at
  }

  /** The client names no parent for the stored user message but its own. */
  predicate SameParent(at: map<Id, Message>, t: Turn)
    requires StoredUser(at, t)
  {
    t.user.value.parentId.Some? ==> t.user.value.parentId.value == at[UserId(t).value].parentId
  }

  /** The user message is stored, and the assistants are new. */
  ghost predicate StoredTurn(at: map<Id, Message>, t: Turn) {
    var ids := Assistants(t.entries);
    && NoDup(ids) && (forall a :: a in ids ==> a !in at)
    && StoredUser(at, t)
  }

  /** As well, the client names no other parent for it. */
  ghost predicate RepeatedTurn(at: map<Id, Message>, t: Turn) {
    StoredTurn(at, t) && SameParent(at, t)
  }

  /** Or the client does name another parent, or null for a message that has one. */
  ghost predicate MovedTurn(at: map<Id, Message>, t: Turn) {
    StoredTurn(at, t) && !SameParent(at, t)
  }

  /** The stored message is a root, and the parent now named is a message outside its subtree. */
  ghost predicate MovesRoot(at: map<Id, Message>, t: Turn)
    requires MovedTurn(at, t)
  {
    var u, g := UserId(t).value, t.user.value.parentId.value;
    at[u].parentId.None? && g.Some? && g.value in at && g.value !in Subtree(ParentsOf(at), u)
  }

  /** The child list the client sends, or the stored one if it sends none. */
  function ClientList(at: map<Id, Message>, t: Turn): (r: seq<Id>)
    requires StoredUser(at, t)
  {
    Or(t.user.value.childrenIds, at[UserId(t).value].childrenIds)
  }

  /** The client's list names every stored child, each once, and otherwise only assistants of this turn. */
  ghost predicate ListUpToDate(at: map<Id, Message>, t: Turn)
    requires StoredUser(at, t)
  {
    var stored, sent := at[UserId(t).value].childrenIds, ClientList(at, t);
    && NoDup(sent)
    && (forall c :: c in stored ==> c in sent)
    && (forall c :: c in sent ==> c in stored || c in Assistants(t.entries))
  }

  /** The stored user message once the turn has linked its assistants. */
  function Answered(at: map<Id, Message>, t: Turn): (r: Message)
    requires StoredUser(at, t)
  {
    Overlay(at[UserId(t).value], t.user.value).(childrenIds := AddMissing(ClientList(at, t), Assistants(t.entries)))
  }

  /** The cursor on the user message, repaired if its parent had to be looked up last. */
  function UserCursor(m: Messages, t: Turn): (r: Option<Id>)
    requires t.user.Some?
  {
    if Assistants(t.entries) == [] && Truthy(Or(t.user.value.parentId, None))
    then RepairedCursor(m, UserId(t)) else UserId(t)
  }

  /** Writing a user message that its parent already lists changes that message alone. */
  lemma RepeatLinks(s: Store, chat: Id, t: Turn, now: int)
    requires Tree(s.messages.at) && StoredUser(s.messages.at, t) && SameParent(s.messages.at, t)
    ensures var r, u := LinksWritten(s, chat, t, now), UserId(t).value;
            && r.messages == Dict(s.messages.keys, s.messages.at[u := Answered(s.messages.at, t)])
            && r.currentId == UserCursor(r.messages, t)
  {
    var at, u, g := s.messages.at, UserId(t).value, Or(t.user.value.parentId, None);
    var s1 := SaveUser(s, chat, t, now);
    assert s1.messages.at == at[u := Overlay(at[u], t.user.value)];
    if g.Some? && g.value in at {
      ParentIsAncestor(ParentsOf(at), u);
      assert u in at[g.value].childrenIds && g.value != u;
    }
    var s2 := LinkGrandparent(s1, chat, t, now);
    assert s2 == if Truthy(g) then Loaded(s1) else s1;
    if Assistants(t.entries) != [] {
      LinkedAssistants(s2, chat, t, now);
    }
  }

  /** Placeholders for new ids are added below the user message, and nothing else changes. */
  lemma {:induction false} PlaceholdersWritten(s: Store, chat: Id, u: Id, entries: seq<Placeholder>, now: int)
    requires NoDup(Assistants(entries)) && forall a :: a in Assistants(entries) ==> a !in s.messages.at
    ensures PlaceholdersAdded(s, SavePlaceholders(s, chat, Some(u), entries, now), Some(u), Assistants(entries))
    decreases entries
  {
    if entries == [] {
    } else if entries[0].id == "" {
      assert Assistants(entries) == Assistants(entries[1..]);
      PlaceholdersWritten(s, chat, u, entries[1..], now);
    } else {
      var e, ids := entries[0], Assistants(entries[1..]);
      assert Assistants(entries)[0] == e.id && Assistants(entries)[1..] == ids;
      assert NoDup(ids) && e.id !in ids by {
        assert forall i :: 0 <= i < |ids| ==> ids[i] == Assistants(entries)[i + 1];
      }
      var n := UpsertMessage(s, chat, e.id, AssistantPatch(e, Some(u)), now);
      var m := Created(s.messages, e.id, AssistantPatch(e, Some(u)), now);
      PlaceholdersWritten(n, chat, u, entries[1..], now);
      AddedThen(s, n, SavePlaceholders(n, chat, Some(u), entries[1..], now), Some(u), e.id, ids, m);
    }
  }

  /** What a repeated turn changes: the user message is answered, and each assistant is a new leaf below it. */
  ghost predicate RepeatAdds(s: Store, t: Turn, r: Store)
    requires StoredUser(s.messages.at, t)
  {
    var at, u, ids := s.messages.at, UserId(t).value, Assistants(t.entries);
    && r.messages.keys == s.messages.keys + ids
    && r.messages.at.Keys == at.Keys + Elems(ids)
    && r.messages.at[u] == Answered(at, t)
    && (forall k :: k in at && k != u ==> r.messages.at[k] == at[k])
    && (forall a :: a in ids ==> IsPlaceholder(r.messages.at[a], a, Some(u)))
    && r.currentId == if ids == [] then UserCursor(r.messages, t) else Some(ids[|ids| - 1])
  }

  /** Answering the user message and adding the placeholders is all that a repeated turn does. */
  lemma AnsweredThenAdded(s: Store, mid: Store, t: Turn, r: Store)
    requires RepeatedTurn(s.messages.at, t)
    requires mid.messages == Dict(s.messages.keys, s.messages.at[UserId(t).value := Answered(s.messages.at, t)])
    requires mid.currentId == UserCursor(mid.messages, t) && PlaceholdersAdded(mid, r, UserId(t), Assistants(t.entries))
    ensures RepeatAdds(s, t, r)
  {
    if Assistants(t.entries) == [] {
      assert r.messages.at == mid.messages.at && r.messages == mid.messages;
    }
  }

  lemma RepeatWrites(s: Store, chat: Id, t: Turn, now: int)
    requires Tree(s.messages.at) && RepeatedTurn(s.messages.at, t)
    ensures RepeatAdds(s, t, TurnStore(s, chat, t, now))
  {
    RepeatLinks(s, chat, t, now);
    var mid := LinksWritten(s, chat, t, now);
    PlaceholdersWritten(mid, chat, UserId(t).value, t.entries, now);
    AnsweredThenAdded(s, mid, t, TurnStore(s, chat, t, now));
  }

  /** What a repeated turn stores of the user message, key by key: what the client sends, and otherwise what was there;
      its children are the client's list, then the assistants it misses, in order. */
  lemma AnsweredContents(at: map<Id, Message>, t: Turn)
    requires StoredUser(at, t) && NoDup(Assistants(t.entries))
    ensures var o, r, sent := at[UserId(t).value], Answered(at, t), t.user.value;
            && (forall f :: f in sent.fields ==> f in r.fields && r.fields[f] == sent.fields[f])
            && (forall f :: f !in sent.fields ==>
                  (f in r.fields <==> f in o.fields) && (f in o.fields ==> r.fields[f] == o.fields[f]))
            && r.role == (if sent.role.Some? then sent.role.value else o.role)
            && r.timestamp == (if sent.timestamp.Some? then sent.timestamp.value else o.timestamp)
            && (var list := if sent.childrenIds.Some? then sent.childrenIds.value else o.childrenIds;
                r.childrenIds == list + Without(Assistants(t.entries), Elems(list)))
  {
    AddMissingIs(ClientList(at, t), Assistants(t.entries));
  }

  /** New leaves below one message close no cycle. */
  lemma LeavesAcyclic(p: Parents, q: Parents, u: Id)
    requires Acyclic(p) && u in p && p.Keys <= q.Keys
    requires forall k :: k in q ==> q[k] == if k in p then p[k] else Some(u)
    requires forall k :: k in p && p[k].Some? ==> p[k].value in p
    ensures Acyclic(q)
  {
    var h := HeightsDrop(p);
    var g := map k | k in q :: if k in p then h[k] + 1 else 0;
    forall c | Up1(q, c).Some? ensures g[Up1(q, c).value] > g[c] {
      assert c in p ==> Up1(p, c) == Up1(q, c);
    }
    DropsAcyclic(q, g);
  }

  lemma RepeatAcyclic(s: Store, t: Turn, r: Store)
    requires Tree(s.messages.at) && Closed(s.messages.at) && RepeatedTurn(s.messages.at, t) && RepeatAdds(s, t, r)
    ensures Acyclic(ParentsOf(r.messages.at)) && Closed(r.messages.at)
    ensures forall k :: k in r.messages.at ==>
              r.messages.at[k].parentId == if k in s.messages.at then s.messages.at[k].parentId else UserId(t)
  {
    LeavesAcyclic(ParentsOf(s.messages.at), ParentsOf(r.messages.at), UserId(t).value);
  }

  lemma {:induction false} AddMissingPrefix(was: seq<Id>, ids: seq<Id>)
    ensures |AddMissing(was, ids)| >= |was| && AddMissing(was, ids)[..|was|] == was
    ensures forall c :: c in AddMissing(was, ids) <==> c in was || c in ids
    decreases ids
  {
    if ids != [] {
      AddMissingPrefix(if ids[0] in was then was else was + [ids[0]], ids[1..]);
    }
  }

  /** The history `next` is `at` with leaves `ids` added below `u`, and `all` as the child list of `u`. */
  ghost predicate LeavesAdded(at: map<Id, Message>, u: Id, ids: seq<Id>, all: seq<Id>, next: map<Id, Message>) {
    && u in at && (forall a :: a in ids ==> a !in at)
    && next.Keys == at.Keys + Elems(ids)
    && (forall k :: k in at ==> next[k].childrenIds == if k == u then all else at[k].childrenIds)
    && (forall k :: k in next && k !in at ==> next[k].childrenIds == [])
    && (forall k :: k in next ==> next[k].parentId == if k in at then at[k].parentId else Some(u))
  }

  ghost predicate ExactList(at: map<Id, Message>, u: Id, ids: seq<Id>, all: seq<Id>)
    requires u in at
  {
    NoDup(all) && forall c :: c in all <==> c in at[u].childrenIds || c in ids
  }

  /** The link between one child and its parent, both ways. */
  ghost predicate LinkAt(at: map<Id, Message>, a: Id, c: Id)
    requires a in at
  {
    c in at[a].childrenIds <==> c in at && at[c].parentId == Some(a)
  }

  lemma LinkedByPairs(at: map<Id, Message>)
    ensures Linked(at) <==> (forall a :: a in at ==> NoDup(at[a].childrenIds)) && forall a, c :: a in at ==>
              LinkAt(at, a, c)
  {
    if forall a, c :: a in at ==> LinkAt(at, a, c) {
      forall a, c | a in at && c in at[a].childrenIds ensures c in at && at[c].parentId == Some(a) {
        assert LinkAt(at, a, c);
      }
      forall c | c in at && at[c].parentId.Some? && at[c].parentId.value in at
        ensures c in at[at[c].parentId.value].childrenIds
      {
        assert LinkAt(at, at[c].parentId.value, c);
      }
    }
  }

  lemma LeafLink(at: map<Id, Message>, u: Id, ids: seq<Id>, all: seq<Id>, next: map<Id, Message>, a: Id, c: Id)
    requires LeavesAdded(at, u, ids, all, next) && a in next
    requires a in at ==> LinkAt(at, a, c)
    requires u in at ==> LinkAt(at, u, c)
    requires c in at && at[c].parentId.Some? ==> at[c].parentId.value in at
    ensures LinkAt(next, a, c) <==> (a == u ==> (c in all <==> c in at[u].childrenIds || c in ids))
  {
  }

  lemma LeavesNoDup(at: map<Id, Message>, u: Id, ids: seq<Id>, all: seq<Id>, next: map<Id, Message>)
    requires (forall a :: a in at ==> NoDup(at[a].childrenIds)) && LeavesAdded(at, u, ids, all, next)
    ensures (forall a :: a in next ==> NoDup(next[a].childrenIds)) <==> NoDup(all)
  {
  }

  lemma LeafLinks(at: map<Id, Message>, u: Id, ids: seq<Id>, all: seq<Id>, next: map<Id, Message>)
    requires LeavesAdded(at, u, ids, all, next) && Closed(at)
    requires forall a, c :: a in at ==> LinkAt(at, a, c)
    ensures (forall a, c :: a in next ==> LinkAt(next, a, c)) <==> (forall c :: c in all <==>
              c in at[u].childrenIds || c in ids)
  {
    if forall a, c :: a in next ==> LinkAt(next, a, c) {
      forall c ensures c in all <==> c in at[u].childrenIds || c in ids {
        assert LinkAt(next, u, c) && LinkAt(at, u, c);
        LeafLink(at, u, ids, all, next, u, c);
      }
    }
    if forall c :: c in all <==> c in at[u].childrenIds || c in ids {
      forall a, c | a in next ensures LinkAt(next, a, c) {
        assert a in at ==> LinkAt(at, a, c);
        assert LinkAt(at, u, c);
        LeafLink(at, u, ids, all, next, a, c);
      }
    }
  }

  /** The new history is linked exactly when the child list of `u` is exact. */
  lemma LeavesLinkedIff(at: map<Id, Message>, u: Id, ids: seq<Id>, all: seq<Id>, next: map<Id, Message>)
    requires Linked(at) && Closed(at) && LeavesAdded(at, u, ids, all, next)
    ensures Linked(next) <==> ExactList(at, u, ids, all)
  {
    LinkedByPairs(at);
    LinkedByPairs(next);
    assert (forall a :: a in next ==> NoDup(next[a].childrenIds)) <==> NoDup(all) by {
      LeavesNoDup(at, u, ids, all, next);
    }
    assert (forall a, c :: a in next ==> LinkAt(next, a, c)) <==>
           (forall c :: c in all <==> c in at[u].childrenIds || c in ids) by {
      LeafLinks(at, u, ids, all, next);
    }
  }

  lemma RepeatAddsLeaves(s: Store, t: Turn, r: Store)
    requires Tree(s.messages.at) && Closed(s.messages.at) && RepeatedTurn(s.messages.at, t) && RepeatAdds(s, t, r)
    ensures LeavesAdded(s.messages.at, UserId(t).value, Assistants(t.entries),
                        AddMissing(ClientList(s.messages.at, t), Assistants(t.entries)), r.messages.at)
  {
  }

  lemma UpToDateIsExact(at: map<Id, Message>, t: Turn)
    requires Linked(at) && StoredTurn(at, t)
    ensures ListUpToDate(at, t) <==>
            ExactList(at, UserId(t).value, Assistants(t.entries), AddMissing(ClientList(at, t), Assistants(t.entries)))
  {
    var sent, ids := ClientList(at, t), Assistants(t.entries);
    var all := AddMissing(sent, ids);
    AddMissingPrefix(sent, ids);
    if NoDup(sent) {
      AddMissingExact(sent, ids);
    } else {
      var i, j :| 0 <= i < j < |sent| && sent[i] == sent[j];
      assert sent[i] == all[i] && sent[j] == all[j];
    }
  }

  /** Asking again keeps the tree exactly when the client's child list was up to date: one that misses a stored
      child cuts that branch off from its parent's list. */
  lemma RepeatKeepsTreeIff(s: Store, chat: Id, t: Turn, now: int)
    requires Tree(s.messages.at) && Closed(s.messages.at) && RepeatedTurn(s.messages.at, t)
    ensures Tree(TurnStore(s, chat, t, now).messages.at) <==> ListUpToDate(s.messages.at, t)
  {
    var r := TurnStore(s, chat, t, now);
    RepeatWrites(s, chat, t, now);
    var at, u, ids := s.messages.at, UserId(t).value, Assistants(t.entries);
    var all := AddMissing(ClientList(at, t), ids);
    RepeatAcyclic(s, t, r);
    RepeatAddsLeaves(s, t, r);
    UpToDateIsExact(at, t);
    LeavesLinkedIff(at, u, ids, all, r.messages.at);
  }

  /** Even with a stale list, no parent link changes: the old messages keep their ancestors, the new ones hang
      below the user message, and no cycle arises. */
  lemma RepeatKeepsParents(s: Store, chat: Id, t: Turn, now: int)
    requires Tree(s.messages.at) && Closed(s.messages.at) && RepeatedTurn(s.messages.at, t)
    ensures var r, ids := TurnStore(s, chat, t, now), Assistants(t.entries);
            && Acyclic(ParentsOf(r.messages.at)) && Closed(r.messages.at)
            && r.messages.at.Keys == s.messages.at.Keys + Elems(ids)
            && (forall k :: k in r.messages.at ==>
                  r.messages.at[k].parentId == if k in s.messages.at then s.messages.at[k].parentId else UserId(t))
            && r.currentId == if ids == [] then UserCursor(r.messages, t) else Some(ids[|ids| - 1])
  {
    RepeatWrites(s, chat, t, now);
    RepeatAcyclic(s, t, TurnStore(s, chat, t, now));
  }

  // ----- a stored user message sent with another parent -----

  /** The messages of `b` are those of `a`, and all but `u` and `g` are the same; those two may differ in their
      child lists, and `u` in its own fields. */
  ghost predicate OnlyLinked(a: map<Id, Message>, b: map<Id, Message>, u: Id, g: Option<Id>) {
    && a.Keys == b.Keys
    && (forall k :: k in a && k != u && Some(k) != g ==> b[k] == a[k])
    && (forall k :: k in a && k != u ==> b[k].parentId == a[k].parentId)
  }

  lemma LinkedOnly(s: Store, chat: Id, t: Turn, now: int)
    requires StoredTurn(s.messages.at, t)
    ensures var at, u, g := s.messages.at, UserId(t).value, Or(t.user.value.parentId, None);
            && OnlyLinked(at, LinksWritten(s, chat, t, now).messages.at, u, g)
            && LinksWritten(s, chat, t, now).messages.keys == s.messages.keys
            && LinksWritten(s, chat, t, now).messages.at[u].parentId == Or(t.user.value.parentId, at[u].parentId)
  {
    var at, u, g := s.messages.at, UserId(t).value, Or(t.user.value.parentId, None);
    var s1 := SaveUser(s, chat, t, now);
    assert s1.messages.at == at[u := Overlay(at[u], t.user.value)];
    var s2 := LinkGrandparent(s1, chat, t, now);
    assert OnlyLinked(at, s2.messages.at, u, g) && s2.messages.at[u].parentId == s1.messages.at[u].parentId;
    if Assistants(t.entries) != [] {
      LinkedAssistants(s2, chat, t, now);
    }
  }

  /** What every turn for a stored user message leaves of the old history. */
  ghost predicate StoredAdds(at: map<Id, Message>, t: Turn, r: map<Id, Message>)
    requires StoredUser(at, t)
  {
    var u, g, ids := UserId(t).value, Or(t.user.value.parentId, None), Assistants(t.entries);
    && r.Keys == at.Keys + Elems(ids)
    && (forall k :: k in at && k != u && Some(k) != g ==> r[k] == at[k])
    && (forall k :: k in r ==>
          r[k].parentId == (if k == u then Or(t.user.value.parentId, at[u].parentId)
                            else if k in at then at[k].parentId else Some(u)))
  }

  lemma StoredWrites(s: Store, chat: Id, t: Turn, now: int)
    requires StoredTurn(s.messages.at, t)
    ensures StoredAdds(s.messages.at, t, TurnStore(s, chat, t, now).messages.at)
  {
    LinkedOnly(s, chat, t, now);
    PlaceholdersWritten(LinksWritten(s, chat, t, now), chat, UserId(t).value, t.entries, now);
  }

  /** The message map stays a valid dictionary without an empty key. */
  lemma StoredKeepsKeys(s: Store, chat: Id, t: Turn, now: int)
    requires s.messages.Valid() && "" !in s.messages.at && StoredTurn(s.messages.at, t)
    ensures var r := TurnStore(s, chat, t, now); r.messages.Valid() && "" !in r.messages.at
  {
    LinkedOnly(s, chat, t, now);
    PlaceholdersWritten(LinksWritten(s, chat, t, now), chat, UserId(t).value, t.entries, now);
    AssistantsNonEmpty(t.entries);
    ConcatNoDup(s.messages.keys, Assistants(t.entries));
  }

  /** A message taken from a parent stays in that parent's child list. */
  lemma TakenAwayBreaks(at: map<Id, Message>, t: Turn, r: map<Id, Message>)
    requires Tree(at) && Closed(at) && MovedTurn(at, t) && at[UserId(t).value].parentId.Some? && StoredAdds(at, t, r)
    ensures !Linked(r)
  {
    var u := UserId(t).value;
    var p := at[u].parentId.value;
    ParentIsAncestor(ParentsOf(at), u);
    assert u in at[p].childrenIds && p != u && r[p] == at[p];
  }

  /** Among the old messages, the parents after the move. */
  lemma MovedAcyclicOnlyIf(at: map<Id, Message>, t: Turn, r: map<Id, Message>)
    requires Tree(at) && MovedTurn(at, t) && StoredAdds(at, t, r) && Acyclic(ParentsOf(r)) && Closed(r)
    requires at[UserId(t).value].parentId.None?
    ensures var g := t.user.value.parentId.value;
            g.Some? && g.value in at && g.value !in Subtree(ParentsOf(at), UserId(t).value)
  {
    var u, g := UserId(t).value, t.user.value.parentId.value;
    assert r[u].parentId == g;
    var moved := ParentsOf(at)[u := g];
    PartAcyclic(moved, ParentsOf(r));
    ReparentAcyclicIff(ParentsOf(at), u, g);
    if g.value !in at {
      TwoCycle(ParentsOf(r), u, g.value);
    }
  }

  /** The root `u` hung below `g`. */
  function RootMoved(at: map<Id, Message>, u: Id, g: Id): (r: map<Id, Message>)
    requires u in at && g in at
  {
    at[g := at[g].(childrenIds := at[g].childrenIds + [u])][u := at[u].(parentId := Some(g))]
  }

  lemma RootMovedTree(at: map<Id, Message>, u: Id, g: Id)
    requires Tree(at) && Closed(at) && u in at && at[u].parentId.None? && g in at && g !in Subtree(ParentsOf(at), u)
    ensures Tree(RootMoved(at, u, g)) && Closed(RootMoved(at, u, g))
  {
    var r := RootMoved(at, u, g);
    assert u !in at[g].childrenIds;
    ConcatNoDup(at[g].childrenIds, [u]);
    assert ParentsOf(r) == ParentsOf(at)[u := Some(g)];
    ReparentAcyclicIff(ParentsOf(at), u, Some(g));
    LinkedByPairs(at);
    forall a, c | a in r ensures LinkAt(r, a, c) {
      assert LinkAt(at, a, c);
    }
    LinkedByPairs(r);
  }

  lemma MovedRootLinks(s: Store, chat: Id, t: Turn, now: int, g: Id)
    requires Linked(s.messages.at) && "" !in s.messages.at && MovedTurn(s.messages.at, t)
    requires var at, u := s.messages.at, UserId(t).value;
             && at[u].parentId.None? && t.user.value.parentId.value == Some(g) && g in at && g != u
    ensures var at, u := s.messages.at, UserId(t).value;
            LinksWritten(s, chat, t, now).messages.at == RootMoved(at, u, g)[u := Answered(at, t)]
  {
    var at, u := s.messages.at, UserId(t).value;
    var s1 := SaveUser(s, chat, t, now);
    assert s1.messages.at == at[u := Overlay(at[u], t.user.value)];
    assert u !in at[g].childrenIds;
    var s2 := LinkGrandparent(s1, chat, t, now);
    ChildrenPatched(at[g], at[g].childrenIds + [u]);
    assert s2.messages.at == s1.messages.at[g := at[g].(childrenIds := at[g].childrenIds + [u])];
    if Assistants(t.entries) != [] {
      LinkedAssistants(s2, chat, t, now);
    }
  }

  /** Placeholders written once a message has got its child list are new leaves below it. */
  lemma PlaceholdersBelow(mid: Store, chat: Id, base: map<Id, Message>, u: Id, m: Message, entries: seq<Placeholder>,
                          all: seq<Id>, now: int)
    requires u in base && NoDup(Assistants(entries)) && forall a :: a in Assistants(entries) ==> a !in base
    requires mid.messages.at == base[u := m] && m.parentId == base[u].parentId && m.childrenIds == all
    ensures LeavesAdded(base, u, Assistants(entries), all,
                        SavePlaceholders(mid, chat, Some(u), entries, now).messages.at)
  {
    PlaceholdersWritten(mid, chat, u, entries, now);
    AddedBelow(mid, SavePlaceholders(mid, chat, Some(u), entries, now), base, u, m, Assistants(entries), all);
  }

  lemma AddedBelow(mid: Store, r: Store, base: map<Id, Message>, u: Id, m: Message, ids: seq<Id>, all: seq<Id>)
    requires u in base && (forall a :: a in ids ==> a !in base)
    requires mid.messages.at == base[u := m] && m.parentId == base[u].parentId && m.childrenIds == all
    requires PlaceholdersAdded(mid, r, Some(u), ids)
    ensures LeavesAdded(base, u, ids, all, r.messages.at)
  {
  }

  lemma MovedRootAdds(s: Store, chat: Id, t: Turn, now: int, g: Id)
    requires Linked(s.messages.at) && "" !in s.messages.at && MovedTurn(s.messages.at, t)
    requires var at, u := s.messages.at, UserId(t).value;
             && at[u].parentId.None? && t.user.value.parentId.value == Some(g) && g in at && g != u
    ensures var at, u, ids := s.messages.at, UserId(t).value, Assistants(t.entries);
            LeavesAdded(RootMoved(at, u, g), u, ids, AddMissing(ClientList(at, t), ids), TurnStore(s, chat, t,
                now).messages.at)
  {
    var at, u := s.messages.at, UserId(t).value;
    MovedRootLinks(s, chat, t, now, g);
    PlaceholdersBelow(LinksWritten(s, chat, t, now), chat, RootMoved(at, u, g), u, Answered(at, t), t.entries,
                      AddMissing(ClientList(at, t), Assistants(t.entries)), now);
  }

  lemma LeavesTreeIff(at: map<Id, Message>, u: Id, ids: seq<Id>, all: seq<Id>, next: map<Id, Message>)
    requires Tree(at) && Closed(at) && LeavesAdded(at, u, ids, all, next)
    ensures Closed(next) && (Tree(next) <==> ExactList(at, u, ids, all))
  {
    LeavesLinkedIff(at, u, ids, all, next);
    LeavesAcyclic(ParentsOf(at), ParentsOf(next), u);
  }

  lemma MovedRootTreeIff(at: map<Id, Message>, u: Id, g: Id, ids: seq<Id>, all: seq<Id>, next: map<Id, Message>)
    requires Tree(at) && Closed(at) && u in at && at[u].parentId.None? && g in at && g !in Subtree(ParentsOf(at), u)
    requires LeavesAdded(RootMoved(at, u, g), u, ids, all, next)
    ensures Closed(next) && (Tree(next) <==> ExactList(at, u, ids, all))
  {
    var hung := RootMoved(at, u, g);
    assert hung[u].childrenIds == at[u].childrenIds;
    RootMovedTree(at, u, g);
    LeavesTreeIff(hung, u, ids, all, next);
  }

  lemma MovedRootIf(s: Store, chat: Id, t: Turn, now: int, g: Id)
    requires Tree(s.messages.at) && Closed(s.messages.at) && "" !in s.messages.at && MovedTurn(s.messages.at, t)
    requires var at, u := s.messages.at, UserId(t).value;
             && at[u].parentId.None? && t.user.value.parentId.value == Some(g) && g in at &&
                 g !in Subtree(ParentsOf(at), u)
    ensures var r := TurnStore(s, chat, t, now).messages.at;
            Closed(r) && (Tree(r) <==> ListUpToDate(s.messages.at, t))
  {
    var at, u, ids := s.messages.at, UserId(t).value, Assistants(t.entries);
    var all := AddMissing(ClientList(at, t), ids);
    MovedRootAdds(s, chat, t, now, g);
    MovedRootTreeIff(at, u, g, ids, all, TurnStore(s, chat, t, now).messages.at);
    UpToDateIsExact(at, t);
  }

  /** Sending a stored user message with another parent gives a well-formed history exactly when the message was a
      root, the new parent is a message outside its subtree, and the client's child list is up to date. */
  lemma MoveKeepsTreeIff(s: Store, chat: Id, t: Turn, now: int)
    requires Tree(s.messages.at) && Closed(s.messages.at) && "" !in s.messages.at && MovedTurn(s.messages.at, t)
    ensures var at, r := s.messages.at, TurnStore(s, chat, t, now);
            Tree(r.messages.at) && Closed(r.messages.at) <==> MovesRoot(at, t) && ListUpToDate(at, t)
  {
    var at, u, g, r := s.messages.at, UserId(t).value, t.user.value.parentId.value, TurnStore(s, chat, t, now);
    StoredWrites(s, chat, t, now);
    if at[u].parentId.Some? {
      TakenAwayBreaks(at, t, r.messages.at);
    } else if g.value in at && g.value !in Subtree(ParentsOf(at), u) {
      MovedRootIf(s, chat, t, now, g.value);
    } else if Tree(r.messages.at) && Closed(r.messages.at) {
      MovedAcyclicOnlyIf(at, t, r.messages.at);
    }
  }

  // ----- a stale list -----

  /** A client that sends an empty list for a message with an answer cuts that answer off. */
  lemma StaleListBreaks(u: Id, a: Id, b: Id, chat: Id, now: int) returns (s: Store, t: Turn)
    requires u != "" && a != "" && b != "" && u != a && b != u && b != a
    ensures s.messages.Valid() && Tree(s.messages.at) && Closed(s.messages.at) && RepeatedTurn(s.messages.at, t)
    ensures !Tree(TurnStore(s, chat, t, now).messages.at)
  {
    var user := Message(None, [a], "user", u, 1, "", map[]);
    var at := map[u := user, a := Message(Some(u), [], "assistant", a, 1, "", map[])];
    s := Store(Dict([u, a], at), Some(a), map[]);
    t := Turn(Some(Patch(None, Some([]), Some("user"), Some(u), None, None, map[])), [Placeholder(b, 1, map[])]);
    DropsAcyclic(ParentsOf(at), map[u := 1, a := 0]);
    assert Assistants(t.entries) == [b];
    assert a in at[u].childrenIds && a !in ClientList(at, t);
    RepeatKeepsTreeIff(s, chat, t, now);
  }

  /** A message sent with parent null although it is stored below another one. */
  lemma TakenChildBreaks(g: Id, u: Id, chat: Id, now: int) returns (s: Store, t: Turn)
    requires g != "" && u != "" && u != g
    ensures s.messages.Valid() && Tree(s.messages.at) && Closed(s.messages.at) && "" !in s.messages.at
    ensures MovedTurn(s.messages.at, t) && ListUpToDate(s.messages.at, t)
    ensures !(Tree(TurnStore(s, chat, t, now).messages.at) && Closed(TurnStore(s, chat, t, now).messages.at))
  {
    var at := map[g := Message(None, [u], "assistant", g, 1, "", map[]),
                  u := Message(Some(g), [], "user", u, 1, "", map[])];
    s := Store(Dict([g, u], at), Some(u), map[]);
    t := Turn(Some(Patch(Some(None), None, None, Some(u), None, None, map[])), []);
    DropsAcyclic(ParentsOf(at), map[g := 1, u := 0]);
    MoveKeepsTreeIff(s, chat, t, now);
  }

  /** Where the cursor ends when a stored message is moved: on the last assistant, or, with none, on the new parent. */
  lemma MoveCursor(s: Store, chat: Id, t: Turn, now: int)
    requires Linked(s.messages.at) && "" !in s.messages.at && MovedTurn(s.messages.at, t)
    ensures var r, ids := TurnStore(s, chat, t, now), Assistants(t.entries);
            && (ids != [] ==> r.currentId == Some(ids[|ids| - 1]))
            && (ids == [] && MovesRoot(s.messages.at, t) ==> r.currentId == t.user.value.parentId.value)
  {
    LinkedOnly(s, chat, t, now);
    PlaceholdersWritten(LinksWritten(s, chat, t, now), chat, UserId(t).value, t.entries, now);
    if Assistants(t.entries) == [] && MovesRoot(s.messages.at, t) {
      var at, u, g := s.messages.at, UserId(t).value, t.user.value.parentId.value.value;
      assert SaveUser(s, chat, t, now).messages.at == at[u := Overlay(at[u], t.user.value)];
      assert u !in at[g].childrenIds;
    }
  }
}
