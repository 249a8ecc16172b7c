/** A chat turn that continues a stored answer: its placeholder is written over the answer (`chat_completion` in
    main.py). */
module Continuation {
  import opened Basics
  import opened Forest
  import opened History
  import opened Chats
  import opened ChatTurn
  import opened Regeneration

  /** The one assistant of the turn and the user message are stored, and the client names no other parent for it. */
  ghost predicate ContinuedTurn(at: map<Id, Message>, t: Turn) {
    && |Assistants(t.entries)| == 1 && Assistants(t.entries)[0] in at
    && StoredUser(at, t) && SameParent(at, t)
  }

  /** Only children of the user message and the continued one are sent, each once, and of the children all others. */
  ghost predicate ListCovers(at: map<Id, Message>, t: Turn, a: Id)
    requires StoredUser(at, t)
  {
    var stored, sent := at[UserId(t).value].childrenIds, ClientList(at, t);
    && NoDup(sent)
    && (forall c :: c in stored ==> c in sent || c == a)
    && (forall c :: c in sent ==> c in stored || c == a)
  }

  /** The continued answer is childless and hangs below the user message or nowhere. */
  ghost predicate Continuable(at: map<Id, Message>, t: Turn)
    requires ContinuedTurn(at, t)
  {
    var a, u := Assistants(t.entries)[0], UserId(t).value;
    && a != u && at[a].childrenIds == [] && (at[a].parentId == Some(u) || at[a].parentId.None?)
    && ListCovers(at, t, a)
  }

  /** What such a turn leaves: `all` as the child list of `u`, and `a` childless below it. */
  ghost predicate Continued(at: map<Id, Message>, u: Id, a: Id, all: seq<Id>, next: map<Id, Message>) {
    && u in at && a in at && next.Keys == at.Keys
    && (forall k :: k in at && k != u && k != a ==> next[k] == at[k])
    && next[a].parentId == Some(u) && next[a].childrenIds == []
    && (a != u ==> next[u].parentId == at[u].parentId && next[u].childrenIds == all)
  }

  /** The answer's fields and time after its placeholder `e` was written over it. */
  ghost predicate Rewritten(o: Message, e: Placeholder, r: Message) {
    && (forall f :: f in e.fields ==> f in r.fields && r.fields[f] == e.fields[f])
    && (forall f :: f !in e.fields ==>
          (f in r.fields <==> f in o.fields) && (f in o.fields ==> r.fields[f] == o.fields[f]))
    && r.timestamp == e.timestamp
  }

  lemma NoneLeft(entries: seq<Placeholder>)
    requires |Assistants(entries)| == 1 && entries != []
    ensures entries[0].id != "" ==> forall e :: e in entries[1..] ==> e.id == ""
  {
    if entries[0].id != "" {
      NoneNamed(entries[1..]);
    }
  }

  lemma {:induction false} NoneNamed(entries: seq<Placeholder>)
    requires Assistants(entries) == []
    ensures forall e :: e in entries ==> e.id == ""
  {
    if entries != [] {
      NoneNamed(entries[1..]);
    }
  }

  lemma {:induction false} OnePlaceholderWritten(s: Store, chat: Id, u: Id, entries: seq<Placeholder>, a: Id, now: int)
    requires Assistants(entries) == [a] && a in s.messages.at
    ensures var r := SavePlaceholders(s, chat, Some(u), entries, now);
            && r.messages.keys == s.messages.keys && r.messages.at.Keys == s.messages.at.Keys && r.currentId == Some(a)
            && (forall k :: k in s.messages.at && k != a ==> r.messages.at[k] == s.messages.at[k])
            && r.messages.at[a].parentId == Some(u) && r.messages.at[a].childrenIds == []
            && r.messages.at[a].role == "assistant"
            && forall e :: e in entries && e.id == a ==> Rewritten(s.messages.at[a], e, r.messages.at[a])
    decreases entries
  {
    var e := entries[0];
    assert entries == [e] + entries[1..];
    NoneLeft(entries);
    AssistantsNonEmpty(entries);
    assert a in Assistants(entries);
    if e.id == "" {
      assert Assistants(entries) == Assistants(entries[1..]);
      OnePlaceholderWritten(s, chat, u, entries[1..], a, now);
    } else {
      assert Assistants(entries)[0] == e.id && Assistants(entries)[1..] == Assistants(entries[1..]) == [];
      NoPlaceholders(UpsertMessage(s, chat, a, AssistantPatch(e, Some(u)), now), chat, u, entries[1..], now);
    }
  }

  lemma {:induction false} NoPlaceholders(s: Store, chat: Id, u: Id, entries: seq<Placeholder>, now: int)
    requires Assistants(entries) == []
    ensures SavePlaceholders(s, chat, Some(u), entries, now) == s
    decreases entries
  {
    if entries != [] {
      NoPlaceholders(s, chat, u, entries[1..], now);
    }
  }

  lemma ContinueWrites(s: Store, chat: Id, t: Turn, now: int)
    requires Tree(s.messages.at) && ContinuedTurn(s.messages.at, t)
    ensures var at, a, r := s.messages.at, Assistants(t.entries)[0], TurnStore(s, chat, t, now);
            && Continued(at, UserId(t).value, a, AddMissing(ClientList(at, t), [a]), r.messages.at)
            && r.messages.keys == s.messages.keys && r.currentId == Some(a)
            && forall e :: e in t.entries && e.id == a && a != UserId(t).value ==>
                 Rewritten(at[a], e, r.messages.at[a])
  {
    var a := Assistants(t.entries)[0];
    assert Assistants(t.entries) == [a];
    RepeatLinks(s, chat, t, now);
    OnePlaceholderWritten(LinksWritten(s, chat, t, now), chat, UserId(t).value, t.entries, a, now);
  }

  // ----- when that is a tree -----

  lemma ContinuedChildless(at: map<Id, Message>, u: Id, a: Id, all: seq<Id>, next: map<Id, Message>, c: Id)
    requires Tree(at) && Continued(at, u, a, all, next) && Tree(next) && a != u
    ensures c !in at[a].childrenIds
  {
    if c in at[a].childrenIds {
      ParentIsAncestor(ParentsOf(at), c);
      if c == u {
        TwoCycle(ParentsOf(next), u, a);
      }
    }
  }

  lemma ContinuedParent(at: map<Id, Message>, u: Id, a: Id, all: seq<Id>, next: map<Id, Message>, p: Id)
    requires Tree(at) && Continued(at, u, a, all, next) && Tree(next) && at[a].parentId == Some(p) && p in at
    ensures p == u
  {
    ParentIsAncestor(ParentsOf(at), a);
    assert a in at[p].childrenIds;
  }

  lemma ContinuedLinksOnlyIf(at: map<Id, Message>, u: Id, a: Id, all: seq<Id>, next: map<Id, Message>)
    requires Tree(at) && Closed(at) && Continued(at, u, a, all, next) && Tree(next)
    ensures a != u && at[a].childrenIds == [] && (at[a].parentId == Some(u) || at[a].parentId.None?)
  {
    assert a != u by {
      if a == u {
        ParentIsAncestor(ParentsOf(next), a);
      }
    }
    if at[a].parentId.Some? {
      ContinuedParent(at, u, a, all, next, at[a].parentId.value);
    }
    if at[a].childrenIds != [] {
      ContinuedChildless(at, u, a, all, next, at[a].childrenIds[0]);
    }
  }

  /** The list of `u` names its old children and `a`, each once. */
  ghost predicate ExactWith(at: map<Id, Message>, u: Id, a: Id, all: seq<Id>)
    requires u in at
  {
    NoDup(all) && forall c :: c in all <==> c in at[u].childrenIds || c == a
  }

  lemma ContinuedListOnlyIf(at: map<Id, Message>, u: Id, a: Id, all: seq<Id>, next: map<Id, Message>)
    requires Tree(at) && Continued(at, u, a, all, next) && a != u && Tree(next)
    ensures ExactWith(at, u, a, all)
  {
    assert next[u].childrenIds == all;
    forall c | c in all && c != a ensures c in at[u].childrenIds {
      assert next[c].parentId == Some(u);
      ParentIsAncestor(ParentsOf(next), c);
      assert c != u && at[c].parentId == Some(u);
    }
    forall c | c in at[u].childrenIds || c == a ensures c in all {
      if c != a {
        ParentIsAncestor(ParentsOf(at), c);
        assert c != u && next[c] == at[c];
      }
      assert next[c].parentId == Some(u);
    }
  }

  lemma ContinuedLink(at: map<Id, Message>, u: Id, a: Id, all: seq<Id>, next: map<Id, Message>, x: Id, c: Id)
    requires Continued(at, u, a, all, next) && a != u && x in at && ExactWith(at, u, a, all)
    requires at[a].childrenIds == [] && (at[a].parentId == Some(u) || at[a].parentId.None?)
    requires LinkAt(at, x, c) && LinkAt(at, u, c) && LinkAt(at, a, c) && at[u].parentId != Some(u)
    ensures LinkAt(next, x, c)
  {
  }

  lemma ContinuedLinks(at: map<Id, Message>, u: Id, a: Id, all: seq<Id>, next: map<Id, Message>)
    requires Linked(at) && Continued(at, u, a, all, next) && a != u && ExactWith(at, u, a, all)
    requires at[a].childrenIds == [] && (at[a].parentId == Some(u) || at[a].parentId.None?) && at[u].parentId != Some(u)
    ensures Linked(next)
  {
    LinkedByPairs(at);
    forall x, c | x in next ensures LinkAt(next, x, c) {
      assert LinkAt(at, x, c) && LinkAt(at, u, c) && LinkAt(at, a, c);
      ContinuedLink(at, u, a, all, next, x, c);
    }
    forall x | x in next ensures NoDup(next[x].childrenIds) {
      assert x != u && x != a ==> next[x].childrenIds == at[x].childrenIds;
    }
    LinkedByPairs(next);
  }

  lemma ContinuedAcyclic(at: map<Id, Message>, u: Id, a: Id, all: seq<Id>, next: map<Id, Message>)
    requires Tree(at) && Continued(at, u, a, all, next) && a != u && at[a].childrenIds == []
    ensures Acyclic(ParentsOf(next))
  {
    var p := ParentsOf(at);
    forall c | Up1(p, c).Some? ensures Up1(p, c) != Some(a) {
      assert c in at[Up1(p, c).value].childrenIds;
    }
    ChildlessIsBottom(p, a, u);
    ReparentAcyclicIff(p, a, Some(u));
    assert ParentsOf(next) == p[a := Some(u)];
  }

  lemma ContinuedTreeIff(at: map<Id, Message>, u: Id, a: Id, all: seq<Id>, next: map<Id, Message>)
    requires Tree(at) && Closed(at) && Continued(at, u, a, all, next)
    ensures Tree(next) <==>
            && a != u && at[a].childrenIds == [] && (at[a].parentId == Some(u) || at[a].parentId.None?)
            && ExactWith(at, u, a, all)
  {
    if Tree(next) {
      ContinuedLinksOnlyIf(at, u, a, all, next);
      ContinuedListOnlyIf(at, u, a, all, next);
    } else if a != u && at[a].childrenIds == [] && (at[a].parentId == Some(u) || at[a].parentId.None?)
              && ExactWith(at, u, a, all) {
      if at[u].parentId == Some(u) {
        ParentIsAncestor(ParentsOf(at), u);
      }
      ContinuedLinks(at, u, a, all, next);
      ContinuedAcyclic(at, u, a, all, next);
    }
  }

  lemma CoversIsExact(at: map<Id, Message>, t: Turn, a: Id)
    requires StoredUser(at, t)
    ensures ListCovers(at, t, a) <==> ExactWith(at, UserId(t).value, a, AddMissing(ClientList(at, t), [a]))
  {
    var sent := ClientList(at, t);
    var all := AddMissing(sent, [a]);
    AddMissingPrefix(sent, [a]);
    if NoDup(sent) {
      AddMissingExact(sent, [a]);
    } else {
      var i, j :| 0 <= i < j < |sent| && sent[i] == sent[j];
      assert sent[i] == all[i] && sent[j] == all[j];
    }
  }

  /** Continuing a stored answer keeps the tree exactly when the answer is childless and hangs below the user message
      (or is a root, which then hangs there), and the client's list has all other children. The parents named stay
      known either way, and the cursor ends on the answer. */
  lemma ContinueKeepsTreeIff(s: Store, chat: Id, t: Turn, now: int)
    requires Tree(s.messages.at) && Closed(s.messages.at) && ContinuedTurn(s.messages.at, t)
    ensures var r := TurnStore(s, chat, t, now);
            && (Tree(r.messages.at) <==> Continuable(s.messages.at, t))
            && Closed(r.messages.at) && r.messages.keys == s.messages.keys && r.messages.at.Keys == s.messages.at.Keys
            && r.currentId == Some(Assistants(t.entries)[0])
  {
    var at, a := s.messages.at, Assistants(t.entries)[0];
    var all, r := AddMissing(ClientList(at, t), [a]), TurnStore(s, chat, t, now);
    ContinueWrites(s, chat, t, now);
    ContinuedTreeIff(at, UserId(t).value, a, all, r.messages.at);
    CoversIsExact(at, t, a);
    ContinuedClosed(at, UserId(t).value, a, all, r.messages.at);
  }

  lemma ContinuedClosed(at: map<Id, Message>, u: Id, a: Id, all: seq<Id>, next: map<Id, Message>)
    requires Closed(at) && Continued(at, u, a, all, next)
    ensures Closed(next)
  {
  }

  /** A user message, its answer, and a reply to that. */
  function Replied(u: Id, a: Id, b: Id): (r: map<Id, Message>) {
    map[u := Message(None, [a], "user", u, 1, "", map[]),
        a := Message(Some(u), [b], "assistant", a, 1, "", map[]),
        b := Message(Some(a), [], "user", b, 1, "", map[])]
  }

  lemma RepliedTree(u: Id, a: Id, b: Id)
    requires u != a && b != u && b != a
    ensures Tree(Replied(u, a, b)) && Closed(Replied(u, a, b))
  {
    var at := Replied(u, a, b);
    forall x, c | x in at ensures LinkAt(at, x, c) {
    }
    LinkedByPairs(at);
    DropsAcyclic(ParentsOf(at), map[u := 2, a := 1, b := 0]);
  }

  /** The client sends the user message `u` once more, for the answer `a`. */
  function Again(u: Id, a: Id): (t: Turn) {
    Turn(Some(Patch(None, None, None, Some(u), None, None, map[])), [Placeholder(a, 1, map[])])
  }

  lemma RepliedNotContinuable(u: Id, a: Id, b: Id)
    requires u != "" && a != "" && u != a && b != u && b != a
    ensures ContinuedTurn(Replied(u, a, b), Again(u, a)) && ListCovers(Replied(u, a, b), Again(u, a), a)
    ensures !Continuable(Replied(u, a, b), Again(u, a))
  {
    assert Again(u, a).entries[1..] == [];
    assert Assistants(Again(u, a).entries) == [a];
    assert Replied(u, a, b)[a].childrenIds == [b];
  }

  function RepliedStore(u: Id, a: Id, b: Id): (s: Store)
    requires u != a && b != u && b != a
    ensures s.messages.Valid() && s.messages.at == Replied(u, a, b)
  {
    Store(Dict([u, a, b], Replied(u, a, b)), Some(b), map[])
  }

  lemma NotContinuableBreaks(s: Store, chat: Id, t: Turn, now: int)
    requires Tree(s.messages.at) && Closed(s.messages.at)
    requires ContinuedTurn(s.messages.at, t) && !Continuable(s.messages.at, t)
    ensures !Tree(TurnStore(s, chat, t, now).messages.at)
  {
    ContinueKeepsTreeIff(s, chat, t, now);
  }

  /** An answer that was answered in turn: continuing it cuts its child off. */
  lemma AnsweredAnswerBreaks(u: Id, a: Id, b: Id, chat: Id, now: int) returns (s: Store, t: Turn)
    requires u != "" && a != "" && b != "" && u != a && b != u && b != a
    ensures s.messages.Valid() && Tree(s.messages.at) && Closed(s.messages.at) && ContinuedTurn(s.messages.at, t)
    ensures ListCovers(s.messages.at, t, a) && !Tree(TurnStore(s, chat, t, now).messages.at)
  {
    s, t := RepliedStore(u, a, b), Again(u, a);
    RepliedTree(u, a, b);
    RepliedNotContinuable(u, a, b);
    NotContinuableBreaks(s, chat, t, now);
  }
}
