/** When a turn of new messages leaves a well-formed history, exactly (`chat_completion` in main.py). */
module FreshTurns {
  import opened Basics
  import opened Forest
  import opened History
  import opened Chats
  import opened ChatTurn
  import opened Regeneration

  /** The child list the client sends with the user message. */
  function Sent(t: Turn): (r: seq<Id>) {
    if t.user.Some? then Or(t.user.value.childrenIds, []) else []
  }

  /** The same turn without it. */
  function Unlisted(t: Turn): (r: Turn)
    requires t.user.Some?
  {
    t.(user := Some(t.user.value.(childrenIds := None)))
  }

  /** The history once the user message hangs where it belongs, without children. */
  function Hung(s: Store, t: Turn, now: int): (r: map<Id, Message>)
    requires t.user.Some? && Truthy(UserId(t)) && ParentKnown(s.messages.at, t)
  {
    HungAt(s.messages.at, Or(t.user.value.parentId, None), UserId(t).value, UserMessage(s, t, now).(childrenIds := []))
  }

  lemma HungTree(s: Store, chat: Id, t: Turn, now: int)
    requires s.messages.Valid() && Tree(s.messages.at) && Closed(s.messages.at) && "" !in s.messages.at
    requires t.user.Some? && FreshIds(s.messages.at, t) && ParentKnown(s.messages.at, t)
    ensures Tree(Hung(s, t, now)) && Closed(Hung(s, t, now))
  {
    var b := Unlisted(t);
    UnlistedSaved(s, chat, t, now);
    UserSavedTree(s, chat, b, now);
    assert Elems<Id>([]) == {};
    PendingNothing(Hung(s, t, now), UserId(t).value);
  }

  lemma UnlistedSaved(s: Store, chat: Id, t: Turn, now: int)
    requires Linked(s.messages.at) && "" !in s.messages.at
    requires t.user.Some? && FreshIds(s.messages.at, t) && ParentKnown(s.messages.at, t)
    ensures var b := Unlisted(t);
            LinkGrandparent(SaveUser(s, chat, b, now), chat, b, now).messages.at == Hung(s, t, now)
  {
    UserSaved(s, chat, Unlisted(t), now);
    assert UserMessage(s, Unlisted(t), now) == UserMessage(s, t, now).(childrenIds := []);
  }

  lemma FreshLinks(s: Store, chat: Id, t: Turn, now: int)
    requires s.messages.Valid() && Linked(s.messages.at) && "" !in s.messages.at
    requires t.user.Some? && FreshIds(s.messages.at, t) && ParentKnown(s.messages.at, t)
    ensures var hung, u := Hung(s, t, now), UserId(t).value;
            && u in hung && (forall a :: a in Assistants(t.entries) ==> a !in hung)
            && LinksWritten(s, chat, t, now).messages.at ==
               hung[u := hung[u].(childrenIds := AddMissing(Sent(t), Assistants(t.entries)))]
  {
    FreshLinksAt(s, chat, t, now);
  }

  lemma FreshLinksAt(s: Store, chat: Id, t: Turn, now: int)
    requires s.messages.Valid() && Linked(s.messages.at) && "" !in s.messages.at
    requires t.user.Some? && FreshIds(s.messages.at, t) && ParentKnown(s.messages.at, t)
    ensures LinksWritten(s, chat, t, now).messages.at ==
            HungAt(s.messages.at, Or(t.user.value.parentId, None), UserId(t).value,
                   UserMessage(s, t, now).(childrenIds := AddMissing(Sent(t), Assistants(t.entries))))
  {
    UserSaved(s, chat, t, now);
    UserCreated(s, t, now);
    if Assistants(t.entries) != [] {
      LinkedAssistants(LinkGrandparent(SaveUser(s, chat, t, now), chat, t, now), chat, t, now);
    }
  }

  lemma FreshAdds(s: Store, chat: Id, t: Turn, now: int)
    requires s.messages.Valid() && Linked(s.messages.at) && "" !in s.messages.at
    requires t.user.Some? && FreshIds(s.messages.at, t) && ParentKnown(s.messages.at, t)
    ensures LeavesAdded(Hung(s, t, now), UserId(t).value, Assistants(t.entries),
                        AddMissing(Sent(t), Assistants(t.entries)), TurnStore(s, chat, t, now).messages.at)
  {
    FreshLinks(s, chat, t, now);
    var hung, u, all := Hung(s, t, now), UserId(t).value, AddMissing(Sent(t), Assistants(t.entries));
    PlaceholdersBelow(LinksWritten(s, chat, t, now), chat, hung, u, hung[u].(childrenIds := all), t.entries, all, now);
  }

  /** Completing a list by `ids` gives exactly `ids`, each once, when it lists only those, each once. */
  lemma CompletedExactly(sent: seq<Id>, ids: seq<Id>)
    ensures NoDup(AddMissing(sent, ids)) && (forall c :: c in AddMissing(sent, ids) <==> c in ids) <==>
            NoDup(sent) && forall c :: c in sent ==> c in ids
  {
    var all := AddMissing(sent, ids);
    AddMissingPrefix(sent, ids);
    if NoDup(sent) {
      AddMissingExact(sent, ids);
    } else {
      var i, j :| 0 <= i < j < |sent| && sent[i] == sent[j];
      assert sent[i] == all[i] && sent[j] == all[j];
    }
  }

  lemma KnownParentIff(s: Store, chat: Id, t: Turn, now: int)
    requires s.messages.Valid() && Tree(s.messages.at) && Closed(s.messages.at) && "" !in s.messages.at
    requires t.user.Some? && FreshIds(s.messages.at, t) && ParentKnown(s.messages.at, t)
    ensures var r := TurnStore(s, chat, t, now).messages.at; Closed(r) && (Tree(r) <==> ChildrenKnown(t))
  {
    var u, ids := UserId(t).value, Assistants(t.entries);
    HungTree(s, chat, t, now);
    FreshAdds(s, chat, t, now);
    LeavesTreeIff(Hung(s, t, now), u, ids, AddMissing(Sent(t), ids), TurnStore(s, chat, t, now).messages.at);
    CompletedExactly(Sent(t), ids);
    assert Hung(s, t, now)[u].childrenIds == [];
  }

  lemma SavedParent(s: Store, chat: Id, t: Turn, now: int)
    requires t.user.Some? && FreshIds(s.messages.at, t) && Or(t.user.value.parentId, None).Some?
    ensures var at, u := SaveUser(s, chat, t, now).messages.at, UserId(t).value;
            at.Keys == s.messages.at.Keys + {u} && at[u].parentId == Or(t.user.value.parentId, None)
  {
  }

  lemma LinksKeepParent(s: Store, chat: Id, t: Turn, now: int, u: Id)
    requires u in s.messages.at
    ensures var at := LinkAssistants(LinkGrandparent(s, chat, t, now), chat, t, now).messages.at;
            at.Keys == s.messages.at.Keys && at[u].parentId == s.messages.at[u].parentId
  {
    var r := LinkGrandparent(s, chat, t, now);
    assert r.messages.at.Keys == s.messages.at.Keys && r.messages.at[u].parentId == s.messages.at[u].parentId;
  }

  /** Where the new messages hang, whatever parent the user message names. */
  lemma FreshParents(s: Store, chat: Id, t: Turn, now: int)
    requires t.user.Some? && FreshIds(s.messages.at, t) && Or(t.user.value.parentId, None).Some?
    ensures var r, u, ids := TurnStore(s, chat, t, now).messages.at, UserId(t).value, Assistants(t.entries);
            && r.Keys == s.messages.at.Keys + {u} + Elems(ids)
            && r[u].parentId == Or(t.user.value.parentId, None)
            && forall a :: a in ids ==> r[a].parentId == Some(u)
  {
    SavedParent(s, chat, t, now);
    LinksKeepParent(SaveUser(s, chat, t, now), chat, t, now, UserId(t).value);
    PlaceholdersWritten(LinksWritten(s, chat, t, now), chat, UserId(t).value, t.entries, now);
  }

  lemma UnknownParentBreaks(s: Store, chat: Id, t: Turn, now: int)
    requires FreshIds(s.messages.at, t) && !ParentKnown(s.messages.at, t)
    ensures var r := TurnStore(s, chat, t, now).messages.at; !(Tree(r) && Closed(r))
  {
    var r, u, g := TurnStore(s, chat, t, now).messages.at, UserId(t).value, Or(t.user.value.parentId, None).value;
    FreshParents(s, chat, t, now);
    if g == u {
      ParentIsAncestor(ParentsOf(r), u);
    } else if g in Assistants(t.entries) {
      TwoCycle(ParentsOf(r), u, g);
    }
  }

  /** A turn of new messages leaves a well-formed history exactly when the parent it names is null or present and
      the client lists each child once and only assistants of the turn. */
  lemma FreshTurnIff(s: Store, chat: Id, t: Turn, now: int)
    requires s.messages.Valid() && Tree(s.messages.at) && Closed(s.messages.at) && "" !in s.messages.at
    requires FreshIds(s.messages.at, t)
    ensures var r := TurnStore(s, chat, t, now).messages.at;
            Tree(r) && Closed(r) <==> ParentKnown(s.messages.at, t) && ChildrenKnown(t)
  {
    if !ParentKnown(s.messages.at, t) {
      UnknownParentBreaks(s, chat, t, now);
    } else if t.user.Some? {
      KnownParentIff(s, chat, t, now);
    } else {
      TurnKeepsTree(s, chat, t, now);
    }
  }
}
