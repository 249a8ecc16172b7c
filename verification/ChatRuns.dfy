/** Any run of chat turns, edits, deletions and saved client histories keeps the tree and its mirror. */
module ChatRuns {
  import opened Basics
  import opened History
  import opened ChatMessages
  import opened Chats
  import opened ChatTurn
  import opened Regeneration
  import opened Continuation
  import opened MergeHistory
  import opened ChatUpdate

  datatype Step =
    | TakeTurn(t: Turn, now: int) | EditMessage(id: Id, patch: Patch, now: int) | DeleteMessage(id: Id)
    | SaveHistory(i: RawHistory)

  /** A turn for a stored user message, sent with all its answers and under its old parent, or as a root moved
      below a message outside its subtree. */
  ghost predicate AskedAgain(at: map<Id, Message>, t: Turn) {
    && StoredTurn(at, t) && ListUpToDate(at, t) && RoleKept(at, t)
    && (RepeatedTurn(at, t) || (MovedTurn(at, t) && MovesRoot(at, t)))
  }

  /** A turn that continues a stored answer which can be. */
  ghost predicate Continues(at: map<Id, Message>, t: Turn) {
    ContinuedTurn(at, t) && Continuable(at, t) && RoleKept(at, t)
  }

  ghost predicate GoodTurn(at: map<Id, Message>, t: Turn) {
    FreshTurn(at, t) || AskedAgain(at, t) || Continues(at, t)
  }

  /** The turn does not blank the role of a stored user message. */
  predicate RoleKept(at: map<Id, Message>, t: Turn) {
    t.user.Some? && Truthy(UserId(t)) && UserId(t).value in at ==> t.user.value.role != Some("")
  }

  /** The patch is for a stored message and does not touch its links or blank its role, as when an answer streams in. */
  predicate EditsContent(at: map<Id, Message>, id: Id, patch: Patch) {
    id in at && patch.parentId.None? && patch.childrenIds.None? && patch.role != Some("")
  }

  ghost predicate Next(s: Store, chat: Id, step: Step, r: Store) {
    match step
    case TakeTurn(t, now) => GoodTurn(s.messages.at, t) && r == TurnStore(s, chat, t, now)
    case EditMessage(id, patch, now) =>
      EditsContent(s.messages.at, id, patch) && r == UpsertMessage(s, chat, id, patch, now)
    case DeleteMessage(id) => Deletes(s, chat, id, r)
    case SaveHistory(i) => GoodUpdate(s, i) && r == Updated(s, chat, i)
  }

  ghost predicate Run(states: seq<Store>, chat: Id, steps: seq<Step>) {
    && |states| == |steps| + 1
    && forall i :: 0 <= i < |steps| ==> Next(states[i], chat, steps[i], states[i + 1])
  }

  /** The rows mirror the blob, and every message has a role. */
  ghost predicate MirrorKept(s: Store, chat: Id) {
    Mirrors(s.rows, chat, s.messages.at) && NoForeign(s.rows, chat) && AllRoles(s.messages.at)
  }

  lemma UpsertKeepsMirrored(s: Store, chat: Id, id: Id, patch: Patch, now: int)
    requires MirrorKept(s, chat)
    requires id !in s.messages.at || patch.role.None? || patch.role.value != ""
    ensures MirrorKept(UpsertMessage(s, chat, id, patch, now), chat)
  {
    UpsertKeepsRows(s, chat, id, patch, now);
  }

  lemma {:induction false} PlaceholdersKeepMirrored(s: Store, chat: Id, userId: Option<Id>, entries: seq<Placeholder>,
                                                    now: int)
    requires MirrorKept(s, chat)
    ensures MirrorKept(SavePlaceholders(s, chat, userId, entries, now), chat)
    decreases entries
  {
    if entries != [] {
      var e := entries[0];
      if e.id == "" {
        PlaceholdersKeepMirrored(s, chat, userId, entries[1..], now);
      } else {
        UpsertKeepsMirrored(s, chat, e.id, AssistantPatch(e, userId), now);
        PlaceholdersKeepMirrored(UpsertMessage(s, chat, e.id, AssistantPatch(e, userId), now),
                                 chat, userId, entries[1..], now);
      }
    }
  }

  lemma GrandparentKeepsMirrored(s: Store, chat: Id, t: Turn, now: int)
    requires MirrorKept(s, chat)
    ensures MirrorKept(LinkGrandparent(s, chat, t, now), chat)
  {
    var g := if t.user.Some? then Or(t.user.value.parentId, None) else None;
    if Truthy(g) && g.value in s.messages.at {
      UpsertKeepsMirrored(s, chat, g.value,
        ChildrenPatch(s.messages.at[g.value].childrenIds + [Or(UserId(t), "")]), now);
    }
  }

  lemma AssistantsKeepMirrored(s: Store, chat: Id, t: Turn, now: int)
    requires MirrorKept(s, chat)
    ensures MirrorKept(LinkAssistants(s, chat, t, now), chat)
  {
    var u := UserId(t);
    if Truthy(u) && u.value in s.messages.at {
      UpsertKeepsMirrored(s, chat, u.value,
        ChildrenPatch(AddMissing(s.messages.at[u.value].childrenIds, Assistants(t.entries))), now);
    }
  }

  lemma LinksKeepMirrored(s: Store, chat: Id, t: Turn, now: int)
    requires MirrorKept(s, chat) && RoleKept(s.messages.at, t)
    ensures MirrorKept(LinksWritten(s, chat, t, now), chat)
  {
    var saved := SaveUser(s, chat, t, now);
    if Truthy(UserId(t)) {
      UpsertKeepsMirrored(s, chat, UserId(t).value, t.user.value, now);
    }
    GrandparentKeepsMirrored(saved, chat, t, now);
    AssistantsKeepMirrored(LinkGrandparent(saved, chat, t, now), chat, t, now);
  }

  lemma TurnKeepsSound(s: Store, chat: Id, t: Turn, now: int)
    requires Sound(s, chat) && FreshTurn(s.messages.at, t)
    ensures Sound(TurnStore(s, chat, t, now), chat)
  {
    LinksKeepMirrored(s, chat, t, now);
    PlaceholdersKeepMirrored(LinksWritten(s, chat, t, now), chat, UserId(t), t.entries, now);
    TurnKeepsTree(s, chat, t, now);
  }

  lemma ContinueKeepsSound(s: Store, chat: Id, t: Turn, now: int)
    requires Sound(s, chat) && Continues(s.messages.at, t)
    ensures Sound(TurnStore(s, chat, t, now), chat)
  {
    LinksKeepMirrored(s, chat, t, now);
    PlaceholdersKeepMirrored(LinksWritten(s, chat, t, now), chat, UserId(t), t.entries, now);
    ContinueKeepsTreeIff(s, chat, t, now);
  }

  lemma RepeatKeepsSound(s: Store, chat: Id, t: Turn, now: int)
    requires Sound(s, chat) && AskedAgain(s.messages.at, t)
    ensures Sound(TurnStore(s, chat, t, now), chat)
  {
    LinksKeepMirrored(s, chat, t, now);
    PlaceholdersKeepMirrored(LinksWritten(s, chat, t, now), chat, UserId(t), t.entries, now);
    StoredKeepsKeys(s, chat, t, now);
    if RepeatedTurn(s.messages.at, t) {
      RepeatKeepsTreeIff(s, chat, t, now);
      RepeatKeepsParents(s, chat, t, now);
    } else {
      MoveKeepsTreeIff(s, chat, t, now);
    }
  }

  /** The same links in other messages are still a closed tree. */
  lemma SameLinks(a: map<Id, Message>, b: map<Id, Message>)
    requires Tree(a) && Closed(a) && a.Keys == b.Keys
    requires forall id :: id in a ==> b[id].parentId == a[id].parentId && b[id].childrenIds == a[id].childrenIds
    ensures Tree(b) && Closed(b)
  {
    assert ParentsOf(a) == ParentsOf(b);
  }

  lemma EditKeepsLinks(m: Messages, id: Id, patch: Patch, now: int)
    requires m.Valid() && EditsContent(m.at, id, patch)
    ensures var r := Upserted(m, id, patch, now);
            r.Valid() && r.at.Keys == m.at.Keys
            && forall k :: k in m.at ==>
                 r.at[k].parentId == m.at[k].parentId && r.at[k].childrenIds == m.at[k].childrenIds
  {
    PutValid(m, id, Overlay(m.at[id], patch));
  }

  lemma EditKeepsSound(s: Store, chat: Id, id: Id, patch: Patch, now: int)
    requires Sound(s, chat) && EditsContent(s.messages.at, id, patch)
    ensures Sound(UpsertMessage(s, chat, id, patch, now), chat)
  {
    EditKeepsLinks(s.messages, id, patch, now);
    SameLinks(s.messages.at, Upserted(s.messages, id, patch, now).at);
    UpsertKeepsMirrored(s, chat, id, patch, now);
  }

  /** The same parents over the same keys, none missing, leave none unresolved. */
  lemma ClosedResolves(a: map<Id, Message>, b: map<Id, Message>)
    requires Closed(a) && a.Keys == b.Keys && forall id :: id in a ==> b[id].parentId == a[id].parentId
    ensures UnresolvedParents(b) == {}
  {
  }

  /** Rows that mirror a closed history give a read nothing to look up. */
  lemma MirrorWantsNothing(rows: Rows, chat: Id, order: seq<string>, at: map<Id, Message>)
    requires Mirrors(rows, chat, at) && Linked(at) && Closed(at) && "" !in at && Listing(rows, chat, order)
    ensures Wanted(rows, chat, order, at) == {} && RowMap(chat, order, rows).at.Keys == at.Keys
    ensures order == [] ==> at == map[]
  {
    RebuiltFromMirror(rows, chat, order, at);
    ClosedResolves(at, RowMap(chat, order, rows).at);
    if order == [] {
      assert RowMap(chat, order, rows).at == map[];
    }
  }

  /** A read of a sound chat finds every parent and writes nothing. */
  lemma ReadChangesNothing(s: Store, chat: Id, order: seq<string>)
    requires Sound(s, chat) && Listing(s.rows, chat, order)
    ensures RowsAfterRead(s.rows, chat, order, s.messages.at) == s.rows
    ensures ReadMap(s.rows, chat, order, s.messages.at).Keys == s.messages.at.Keys
  {
    MirrorWantsNothing(s.rows, chat, order, s.messages.at);
    NothingToBackfill(s.rows, chat, s.messages.at);
  }

  lemma {:induction false} RunKeepsSound(states: seq<Store>, chat: Id, steps: seq<Step>, n: nat)
    requires Run(states, chat, steps) && n < |states| && Sound(states[0], chat)
    ensures Sound(states[n], chat)
  {
    if n > 0 {
      var m: nat := n - 1;
      RunKeepsSound(states, chat, steps, m);
      assert Next(states[m], chat, steps[m], states[m + 1]);
      StepKeepsSound(states[m], chat, steps[m], states[m + 1]);
    }
  }

  lemma StepKeepsSound(s: Store, chat: Id, step: Step, r: Store)
    requires Sound(s, chat) && Next(s, chat, step, r)
    ensures Sound(r, chat)
  {
    match step
    case TakeTurn(t, now) =>
      if FreshTurn(s.messages.at, t) {
        TurnKeepsSound(s, chat, t, now);
      } else if Continues(s.messages.at, t) {
        ContinueKeepsSound(s, chat, t, now);
      } else {
        RepeatKeepsSound(s, chat, t, now);
      }
    case EditMessage(id, patch, now) => EditKeepsSound(s, chat, id, patch, now);
    case DeleteMessage(id) => DeleteKeepsSound(s, chat, id, r);
    case SaveHistory(i) => UpdateKeepsSound(s, chat, i);
  }

  /** The row mirror agrees with the blob over any run: read back in any row order, the rows give every message
      with its parent and, in some order, its children. */
  lemma RunMirrors(states: seq<Store>, chat: Id, steps: seq<Step>, n: nat, order: seq<string>)
    requires Run(states, chat, steps) && n < |states| && Sound(states[0], chat)
    requires Listing(states[n].rows, chat, order)
    ensures var at, m := states[n].messages.at, RowMap(chat, order, states[n].rows);
            && Tree(at) && Closed(at) && Tree(m.at) && m.at.Keys == at.Keys
            && forall id :: id in at ==> ReadsBack(m.at[id], id, at[id])
                                         && multiset(m.at[id].childrenIds) == multiset(at[id].childrenIds)
  {
    RunKeepsSound(states, chat, steps, n);
    var at, m := states[n].messages.at, RowMap(chat, order, states[n].rows);
    RebuiltFromMirror(states[n].rows, chat, order, at);
    SameTree(at, m.at);
  }

  /** Even where a stale child list has broken the history, the rows give back a tree: the old one with the new
      assistants below the user message. */
  lemma StaleTurnRows(s: Store, chat: Id, t: Turn, now: int, order: seq<string>)
    requires Sound(s, chat) && RepeatedTurn(s.messages.at, t) && RoleKept(s.messages.at, t)
    requires Listing(TurnStore(s, chat, t, now).rows, chat, order)
    ensures var m, ids := RowMap(chat, order, TurnStore(s, chat, t, now).rows).at, Assistants(t.entries);
            && Tree(m) && Closed(m) && m.Keys == s.messages.at.Keys + Elems(ids)
            && forall k :: k in m ==>
                 m[k].parentId == if k in s.messages.at then s.messages.at[k].parentId else UserId(t)
  {
    var r := TurnStore(s, chat, t, now);
    LinksKeepMirrored(s, chat, t, now);
    PlaceholdersKeepMirrored(LinksWritten(s, chat, t, now), chat, UserId(t), t.entries, now);
    StoredKeepsKeys(s, chat, t, now);
    RepeatKeepsParents(s, chat, t, now);
    RowsRebuildTree(r.rows, chat, order, r.messages.at);
  }

  // ----- the cursor over a run -----

  ghost predicate CursorOk(s: Store) {
    s.currentId.Some? ==> s.currentId.value in s.messages.at
  }

  lemma {:induction false} PlaceholdersKeepCursor(s: Store, chat: Id, userId: Option<Id>, entries: seq<Placeholder>,
                                                  now: int)
    requires CursorOk(s)
    ensures CursorOk(SavePlaceholders(s, chat, userId, entries, now))
    decreases entries
  {
    if entries != [] {
      var e := entries[0];
      var next := if e.id != "" then UpsertMessage(s, chat, e.id, AssistantPatch(e, userId), now) else s;
      PlaceholdersKeepCursor(next, chat, userId, entries[1..], now);
    }
  }

  lemma LinksKeepCursor(s: Store, chat: Id, t: Turn, now: int)
    requires CursorOk(s)
    ensures CursorOk(LinksWritten(s, chat, t, now))
  {
    var s1 := SaveUser(s, chat, t, now);
    assert CursorOk(s1);
    var s2 := LinkGrandparent(s1, chat, t, now);
    assert CursorOk(s2);
  }

  lemma StepKeepsCursor(s: Store, chat: Id, step: Step, r: Store)
    requires Sound(s, chat) && Next(s, chat, step, r) && CursorOk(s)
    ensures CursorOk(r)
  {
    match step
    case TakeTurn(t, now) =>
      LinksKeepCursor(s, chat, t, now);
      PlaceholdersKeepCursor(LinksWritten(s, chat, t, now), chat, UserId(t), t.entries, now);
    case EditMessage(id, patch, now) =>
    case DeleteMessage(id) =>
      if id in s.messages.at {
        DeleteKeepsSound(s, chat, id, r);
        CursorIsLeaf(r.messages, s.messages.at[id].parentId, r.currentId);
      }
    case SaveHistory(i) => UpdatedIsValid(s, chat, i);
  }

  /** In every state of a run the cursor is a message or None. */
  lemma {:induction false} RunKeepsCursor(states: seq<Store>, chat: Id, steps: seq<Step>, n: nat)
    requires Run(states, chat, steps) && n < |states| && Sound(states[0], chat) && CursorOk(states[0])
    ensures CursorOk(states[n])
  {
    if n > 0 {
      var m: nat := n - 1;
      RunKeepsCursor(states, chat, steps, m);
      RunKeepsSound(states, chat, steps, m);
      assert Next(states[m], chat, steps[m], states[m + 1]);
      StepKeepsCursor(states[m], chat, steps[m], states[m + 1]);
    }
  }

  /** Reordering child lists leaves a tree a tree. */
  lemma SameTree(a: map<Id, Message>, b: map<Id, Message>)
    requires Tree(a) && a.Keys == b.Keys
    requires forall id :: id in a ==> b[id].parentId == a[id].parentId
                                      && multiset(b[id].childrenIds) == multiset(a[id].childrenIds)
    ensures Tree(b)
  {
    assert ParentsOf(a) == ParentsOf(b);
    forall id | id in a
      ensures NoDup(b[id].childrenIds)
      ensures forall c :: c in b[id].childrenIds <==> c in a[id].childrenIds
    {
      forall c ensures c in b[id].childrenIds <==> c in a[id].childrenIds {
        assert c in multiset(b[id].childrenIds) <==> c in multiset(a[id].childrenIds);
      }
      NoDupMultiset(a[id].childrenIds);
      MultisetNoDup(b[id].childrenIds);
    }
  }

  lemma CountedTwice(s: seq<Id>, i: nat, j: nat)
    requires i < j < |s| && s[i] == s[j]
    ensures multiset(s)[s[i]] >= 2
  {
    assert s == s[..j] + s[j..];
    assert s[..j][i] in multiset(s[..j]);
    assert s[j..][0] in multiset(s[j..]);
  }

  lemma MultisetNoDup(s: seq<Id>)
    requires forall x :: multiset(s)[x] <= 1
    ensures NoDup(s)
  {
    forall i, j | 0 <= i < j < |s| ensures s[i] != s[j] {
      if s[i] == s[j] {
        CountedTwice(s, i, j);
      }
    }
  }
}
