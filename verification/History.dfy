/**
 The message tree of one chat (`chat.history` in models/chats.py): a dictionary of messages that
 holds every link twice, as `parentId` on the child and in `childrenIds` on the parent.
 */
module History {
  import opened Basics
  import opened Forest

  /** Missing, null and empty `id`, `role` and output role are all falsy and all "" here;
      a missing `timestamp` is 0 and a missing child list is []. */
  datatype Message = Message(
    parentId: Option<Id>,
    childrenIds: seq<Id>,
    role: string,
    id: string,
    timestamp: int,
    outputRole: string,
    fields: map<string, string>)

  type Messages = Dict<Id, Message>

  ghost function ParentsOf(at: map<Id, Message>): (p: Parents) {
    map k | k in at :: at[k].parentId
  }

  /** `childrenIds` is the exact, duplicate-free inverse of `parentId`. */
  ghost predicate Linked(at: map<Id, Message>) {
    && (forall a {:trigger at[a].childrenIds} :: a in at ==> NoDup(at[a].childrenIds))
    && (forall a, c {:trigger c in at[a].childrenIds} :: a in at && c in at[a].childrenIds ==>
        c in at && at[c].parentId == Some(a))
    && (forall c :: c in at && at[c].parentId.Some? && at[c].parentId.value in at ==>
                      c in at[at[c].parentId.value].childrenIds)
  }

  ghost predicate Tree(at: map<Id, Message>) {
    Linked(at) && Acyclic(ParentsOf(at))
  }

  /** Every parent named by a message is present. */
  ghost predicate Closed(at: map<Id, Message>) {
    forall c :: c in at && at[c].parentId.Some? ==> at[c].parentId.value in at
  }

  // ----- delete_message_from_history -----

  function Kids(at: map<Id, Message>, id: Id): (r: seq<Id>)
    requires id in at
    ensures forall c :: c in r ==> c in at
  {
    Within(at[id].childrenIds, at.Keys)
  }

  function Grandkids(at: map<Id, Message>, kids: seq<Id>): (r: seq<Id>)
    requires forall c :: c in kids ==> c in at
    ensures forall g :: g in r ==> g in at
  {
    if kids == [] then [] else Kids(at, kids[0]) + Grandkids(at, kids[1..])
  }

  /** What a deletion of `id` removes. */
  function Doomed(at: map<Id, Message>, id: Id): (r: set<Id>)
    requires id in at
  {
    {id} + Elems(Kids(at, id))
  }

  /** A message after the deletion of `id`: the parent adopts the grandchildren. */
  function Adopt(at: map<Id, Message>, id: Id, k: Id): (r: Message)
    requires id in at && k in at
  {
    var grand := Grandkids(at, Kids(at, id));
    var m := if at[id].parentId == Some(k)
             then at[k].(childrenIds := Without(at[k].childrenIds, {id}) + grand) else at[k];
    if k in grand then m.(parentId := at[id].parentId) else m
  }

  function Spliced(at: map<Id, Message>, id: Id): (r: map<Id, Message>)
    requires id in at
  {
    map k | k in at && k !in Doomed(at, id) :: Adopt(at, id, k)
  }

  lemma {:induction false} GrandkidsExact(at: map<Id, Message>, kids: seq<Id>)
    requires Linked(at) && NoDup(kids)
    requires forall c :: c in kids ==> c in at
    ensures NoDup(Grandkids(at, kids))
    ensures forall g :: g in Grandkids(at, kids) <==>
                        g in at && at[g].parentId.Some? && at[g].parentId.value in kids
  {
    if kids == [] {
    } else {
      var rest := Grandkids(at, kids[1..]);
      assert kids == [kids[0]] + kids[1..];
      GrandkidsExact(at, kids[1..]);
      WithinNoDup(at[kids[0]].childrenIds, at.Keys);
      assert kids[0] !in kids[1..];
      ConcatNoDup(Kids(at, kids[0]), rest);
    }
  }

  /** The parent map after a deletion: links into the removed set are redirected to its parent. */
  lemma SplicedParents(at: map<Id, Message>, id: Id)
    requires Tree(at) && id in at
    ensures forall c :: c in Doomed(at, id) <==> c == id || (c in at && at[c].parentId == Some(id))
    ensures at[id].parentId.Some? ==> at[id].parentId.value !in Doomed(at, id)
    ensures forall y :: y in Spliced(at, id) ==>
              Spliced(at, id)[y].parentId ==
              if at[y].parentId.Some? && at[y].parentId.value in Doomed(at, id)
              then at[id].parentId else at[y].parentId
  {
    var p := ParentsOf(at);
    WithinNoDup(at[id].childrenIds, at.Keys);
    GrandkidsExact(at, Kids(at, id));
    if at[id].parentId.Some? && at[id].parentId.value in Doomed(at, id) {
      var q := at[id].parentId.value;
      ParentIsAncestor(p, id);
      ParentIsAncestor(p, q);
      if q != id {
        AncestorTransitive(p, id, q, id);
      }
      assert false;
    }
  }

  /** The list of adopted grandchildren: all survivors, each once, each from below a removed child. */
  lemma GrandkidsSurvive(at: map<Id, Message>, id: Id)
    requires Tree(at) && id in at
    ensures NoDup(Grandkids(at, Kids(at, id)))
    ensures forall g :: g in Grandkids(at, Kids(at, id)) <==>
              g in Spliced(at, id) && at[g].parentId.Some? && at[g].parentId.value in Doomed(at, id)
  {
    var p := ParentsOf(at);
    SplicedParents(at, id);
    WithinNoDup(at[id].childrenIds, at.Keys);
    GrandkidsExact(at, Kids(at, id));
    forall g | g in Grandkids(at, Kids(at, id)) ensures g !in Doomed(at, id) {
      ParentIsAncestor(p, g);
      ParentIsAncestor(p, at[g].parentId.value);
      AncestorTransitive(p, id, at[g].parentId.value, g);
    }
  }

  lemma SplicedChildrenNoDup(at: map<Id, Message>, id: Id, a: Id)
    requires Tree(at) && id in at && a in Spliced(at, id)
    ensures NoDup(Spliced(at, id)[a].childrenIds)
  {
    if at[id].parentId == Some(a) {
      GrandkidsSurvive(at, id);
      WithoutNoDup(at[a].childrenIds, {id});
      ConcatNoDup(Without(at[a].childrenIds, {id}), Grandkids(at, Kids(at, id)));
    }
  }

  lemma SplicedKeepsLinks(at: map<Id, Message>, id: Id)
    requires Tree(at) && id in at
    ensures Linked(Spliced(at, id))
  {
    var next := Spliced(at, id);
    SplicedParents(at, id);
    GrandkidsSurvive(at, id);
    forall a | a in next ensures NoDup(next[a].childrenIds) {
      SplicedChildrenNoDup(at, id, a);
    }
    forall a, c | a in next && c in next[a].childrenIds ensures c in next && next[c].parentId == Some(a) {
      if c !in Grandkids(at, Kids(at, id)) {
        assert c in at[a].childrenIds;
      }
    }
    forall c | c in next && next[c].parentId.Some? && next[c].parentId.value in next
      ensures c in next[next[c].parentId.value].childrenIds
    {
      if at[c].parentId != next[c].parentId {
        assert c in Grandkids(at, Kids(at, id));
      } else {
        assert c in at[at[c].parentId.value].childrenIds;
      }
    }
  }

  lemma SplicedContracts(at: map<Id, Message>, id: Id)
    requires Tree(at) && id in at
    ensures Contracts(ParentsOf(at), ParentsOf(Spliced(at, id)), id)
  {
    SplicedParents(at, id);
  }

  /** Deletion contracts paths: between survivors, ancestry is exactly what it was. */
  lemma DeleteKeepsAncestry(at: map<Id, Message>, id: Id, x: Id, y: Id)
    requires Tree(at) && id in at
    requires x in Spliced(at, id) && y in Spliced(at, id)
    ensures Ancestor(ParentsOf(Spliced(at, id)), x, y) <==> Ancestor(ParentsOf(at), x, y)
  {
    SplicedContracts(at, id);
    ContractionKeepsAncestry(ParentsOf(at), ParentsOf(Spliced(at, id)), id, x, y);
  }

  /** Deletion removes exactly the message and its children and leaves a tree. It makes no orphan
      and changes nothing in the survivors but their links. */
  lemma DeleteKeepsTree(at: map<Id, Message>, id: Id)
    requires Tree(at) && id in at
    ensures Tree(Spliced(at, id))
    ensures Spliced(at, id).Keys == at.Keys - {id} - (set c | c in at && at[c].parentId == Some(id))
    ensures Closed(at) ==> Closed(Spliced(at, id))
    ensures forall k :: k in Spliced(at, id) ==>
              Spliced(at, id)[k].(parentId := None, childrenIds := []) == at[k].(parentId := None, childrenIds := [])
  {
    SplicedParents(at, id);
    SplicedKeepsLinks(at, id);
    SplicedContracts(at, id);
    ContractionAcyclic(ParentsOf(at), ParentsOf(Spliced(at, id)), id);
  }

  /** Below kept parents: `g` comes before `h` in their lists, or in the list of their parents. */
  ghost predicate BeforeByParent(at: map<Id, Message>, kids: seq<Id>, g: Id, h: Id) {
    && g in at && h in at && at[g].parentId.Some? && at[h].parentId.Some?
    && (var p, q := at[g].parentId.value, at[h].parentId.value;
        && p in kids && q in kids && p in at
        && if p == q then Before(at[p].childrenIds, g, h) else Before(kids, p, q))
  }

  lemma KidsAreChildren(at: map<Id, Message>, id: Id)
    requires Linked(at) && id in at
    ensures Kids(at, id) == at[id].childrenIds
  {
    assert forall c :: c in at[id].childrenIds ==> c in at.Keys;
    WithinAll(at[id].childrenIds, at.Keys);
  }

  lemma {:induction false} GrandkidsOrder(at: map<Id, Message>, kids: seq<Id>, g: Id, h: Id)
    requires Linked(at) && NoDup(kids) && forall c :: c in kids ==> c in at
    ensures Before(Grandkids(at, kids), g, h) <==> BeforeByParent(at, kids, g, h)
  {
    if kids != [] {
      var first, rest := kids[0], kids[1..];
      assert kids == [first] + rest;
      GrandkidsOrder(at, rest, g, h);
      GrandkidsExact(at, rest);
      KidsAreChildren(at, first);
      ConcatBefore(at[first].childrenIds, Grandkids(at, rest), g, h);
      FirstKidOrder(at, first, rest, g, h);
    }
  }

  lemma FirstKidOrder(at: map<Id, Message>, first: Id, rest: seq<Id>, g: Id, h: Id)
    requires Linked(at) && NoDup([first] + rest) && first in at && forall c :: c in rest ==> c in at
    ensures BeforeByParent(at, [first] + rest, g, h) <==>
            || Before(at[first].childrenIds, g, h) || BeforeByParent(at, rest, g, h)
            || (g in at[first].childrenIds && h in at && at[h].parentId.Some? && at[h].parentId.value in rest)
  {
    var kids := [first] + rest;
    assert kids[1..] == rest && kids[0] == first;
    assert first !in rest by {
      assert forall i :: 0 <= i < |rest| ==> rest[i] == kids[i + 1];
    }
    BeforeMeansIn(at[first].childrenIds, g, h);
    if g in at && h in at && at[g].parentId.Some? && at[h].parentId.Some? {
      var p, q := at[g].parentId.value, at[h].parentId.value;
      BeforeStep(kids, p, q);
      BeforeMeansIn(rest, p, q);
    }
  }

  /** After a deletion the parent lists the message's siblings in their old order, and after all of them the
      adopted grandchildren: those of an earlier child first, those of one child in its order. */
  lemma AdoptionOrder(at: map<Id, Message>, id: Id, p: Id, a: Id, b: Id)
    requires Tree(at) && id in at && at[id].parentId == Some(p) && p in Spliced(at, id)
    ensures var siblings, kids := at[p].childrenIds, at[id].childrenIds;
            Before(Spliced(at, id)[p].childrenIds, a, b) <==>
            || (a != id && b != id && Before(siblings, a, b))
            || BeforeByParent(at, kids, a, b)
            || (a != id && a in siblings && b in at && at[b].parentId.Some? && at[b].parentId.value in kids)
  {
    var siblings, kids := at[p].childrenIds, at[id].childrenIds;
    KidsAreChildren(at, id);
    GrandkidsExact(at, kids);
    GrandkidsOrder(at, kids, a, b);
    WithoutBefore(siblings, {id}, a, b);
    ConcatBefore(Without(siblings, {id}), Grandkids(at, kids), a, b);
    assert Spliced(at, id)[p].childrenIds == Without(siblings, {id}) + Grandkids(at, kids);
  }

  // ----- the cursor walk -----

  function Last<T>(s: seq<T>): (r: T)
    requires s != []
  {
    s[|s| - 1]
  }

  function ChildrenAt(at: map<Id, Message>, x: Id): (r: seq<Id>) {
    if x in at then at[x].childrenIds else []
  }

  /** `k` steps down from `x`, each to the last child. */
  function Down(at: map<Id, Message>, x: Id, k: nat): (r: Option<Id>)
    decreases k
  {
    if k == 0 then Some(x)
    else if ChildrenAt(at, x) != [] then Down(at, Last(ChildrenAt(at, x)), k - 1)
    else None
  }

  /** Following last children from `start` stops after `k` steps, and `cur` is where, if that is a message. */
  ghost predicate SettlesIn(at: map<Id, Message>, start: Id, cur: Option<Id>, k: nat) {
    match Down(at, start, k)
    case None => false
    case Some(end) =>
      if end in at then at[end].childrenIds == [] && cur == Some(end) else cur == None
  }

  function Roots(m: Messages): (r: seq<Id>) {
    Within(m.keys, set k | k in m.at && m.at[k].parentId.None?)
  }

  /** Where the walk begins after a deletion below `parent`. */
  function WalkStart(m: Messages, parent: Option<Id>): (r: Option<Id>) {
    if parent.Some? then parent else if Roots(m) == [] then None else Some(Last(Roots(m)))
  }

  ghost predicate CursorAfter(m: Messages, parent: Option<Id>, cur: Option<Id>) {
    match WalkStart(m, parent)
    case None => cur == None
    case Some(start) => exists k: nat :: SettlesIn(m.at, start, cur, k)
  }

  lemma {:induction false} DownIsBelow(at: map<Id, Message>, x: Id, k: nat)
    requires Linked(at) && x in at && Down(at, x, k).Some?
    ensures Down(at, x, k).value in at
    ensures k > 0 ==> Ancestor(ParentsOf(at), x, Down(at, x, k).value)
    decreases k
  {
    if k > 0 {
      var c := Last(at[x].childrenIds);
      assert c in at[x].childrenIds;
      ParentIsAncestor(ParentsOf(at), c);
      DownIsBelow(at, c, k - 1);
      if k > 1 {
        AncestorTransitive(ParentsOf(at), x, c, Down(at, x, k).value);
      }
    }
  }

  lemma {:induction false} DownAppend(at: map<Id, Message>, x: Id, k: nat)
    requires Down(at, x, k).Some?
    ensures var y := Down(at, x, k).value;
            Down(at, x, k + 1) == if ChildrenAt(at, y) != [] then Some(Last(ChildrenAt(at, y))) else None
    decreases k
  {
    if k == 0 {
      assert ChildrenAt(at, x) != [] ==> Down(at, Last(ChildrenAt(at, x)), 0).Some?;
    } else {
      DownAppend(at, Last(ChildrenAt(at, x)), k - 1);
    }
  }

  /** The cursor is a childless survivor under the parent; it is None only where the walk has no start. */
  lemma CursorIsLeaf(m: Messages, parent: Option<Id>, cur: Option<Id>)
    requires m.Valid() && Tree(m.at)
    requires CursorAfter(m, parent, cur)
    ensures cur.Some? ==> cur.value in m.at && m.at[cur.value].childrenIds == []
    ensures cur.Some? && parent.Some? ==> cur == parent || Ancestor(ParentsOf(m.at), parent.value, cur.value)
    ensures cur.None? <==> if parent.Some? then parent.value !in m.at else Roots(m) == []
  {
    var start := WalkStart(m, parent);
    if start.Some? {
      var k: nat :| SettlesIn(m.at, start.value, cur, k);
      assert parent.None? ==> start.value in Roots(m);
      if start.value in m.at {
        DownIsBelow(m.at, start.value, k);
      }
    }
  }

  /** `x` is `y` or above it. */
  ghost predicate AtOrAbove(p: Parents, x: Id, y: Id) {
    x == y || Ancestor(p, x, y)
  }

  /** Between a message and the end of the walk below it, the walk leaves every message through its last child. */
  lemma {:induction false} DownTakesLast(at: map<Id, Message>, start: Id, k: nat, x: Id)
    requires Tree(at) && start in at && Down(at, start, k).Some?
    requires var p := ParentsOf(at); AtOrAbove(p, start, x) && AtOrAbove(p, x, Down(at, start, k).value)
    requires x in at && at[x].childrenIds != [] && x != Down(at, start, k).value
    ensures AtOrAbove(ParentsOf(at), at[x].childrenIds[|at[x].childrenIds| - 1], Down(at, start, k).value)
    decreases k
  {
    var p, cur := ParentsOf(at), Down(at, start, k).value;
    DownIsBelow(at, start, k);
    if k > 0 {
      var c := Last(at[start].childrenIds);
      assert c in at[start].childrenIds && Down(at, c, k - 1) == Some(cur);
      DownIsBelow(at, c, k - 1);
      ParentIsAncestor(p, c);
      if x != start {
        BelowTheChild(p, start, c, x, cur);
        DownTakesLast(at, c, k - 1, x);
      }
    } else {
      AncestorTransitive(p, start, x, start);
    }
  }

  /** On the way up from `cur`, what lies below `start` lies at or below the child of `start` on that way. */
  lemma BelowTheChild(p: Parents, start: Id, c: Id, x: Id, cur: Id)
    requires Acyclic(p) && Up1(p, c) == Some(start)
    requires Ancestor(p, start, x) && AtOrAbove(p, x, cur) && AtOrAbove(p, c, cur)
    ensures AtOrAbove(p, c, x)
  {
    ParentIsAncestor(p, c);
    if x != c && x != cur && c != cur {
      AncestorsChain(p, x, c, cur);
    }
    if Ancestor(p, x, c) {
      AncestorStep(p, x, c);
      if x != start {
        AncestorTransitive(p, start, x, start);
      }
    }
  }

  /** The walk is at every turn through the last child: of each message from its start down to the cursor, the last
      child is the cursor or above it. Without a parent it starts at the last root in key order. */
  lemma CursorFollowsLastChildren(m: Messages, parent: Option<Id>, cur: Id, x: Id)
    requires m.Valid() && Tree(m.at) && CursorAfter(m, parent, Some(cur))
    requires var p := ParentsOf(m.at); AtOrAbove(p, x, cur) && (parent.Some? ==> AtOrAbove(p, parent.value, x))
    ensures x in m.at && x != cur ==>
              m.at[x].childrenIds != [] &&
              AtOrAbove(ParentsOf(m.at), m.at[x].childrenIds[|m.at[x].childrenIds| - 1], cur)
  {
    var p, start := ParentsOf(m.at), WalkStart(m, parent).value;
    CursorIsLeaf(m, parent, Some(cur));
    var k: nat :| SettlesIn(m.at, start, Some(cur), k);
    if x in m.at && x != cur {
      if parent.None? {
        StartsAtLastRoot(m, cur, k);
        RootIsAbove(p, start, x, cur);
      }
      AboveHasChild(m.at, x, cur);
      DownTakesLast(m.at, start, k, x);
    }
  }

  lemma AboveHasChild(at: map<Id, Message>, x: Id, y: Id)
    requires Linked(at) && x in at && Ancestor(ParentsOf(at), x, y)
    ensures at[x].childrenIds != []
  {
    var k: nat :| k > 0 && Up(ParentsOf(at), y, k) == Some(x);
    var c := ChildOnPath(ParentsOf(at), x, y, k);
    assert c in at[x].childrenIds;
  }

  /** A root above a node is above all nodes between. */
  lemma RootIsAbove(p: Parents, root: Id, x: Id, y: Id)
    requires Up1(p, root).None? && AtOrAbove(p, root, y) && AtOrAbove(p, x, y)
    ensures AtOrAbove(p, root, x)
  {
    AncestorStep(p, x, root);
    if x != y && root != y {
      AncestorsChain(p, root, x, y);
    }
  }

  lemma StartsAtLastRoot(m: Messages, cur: Id, k: nat)
    requires m.Valid() && Tree(m.at) && Roots(m) != [] && SettlesIn(m.at, Last(Roots(m)), Some(cur), k)
    ensures var root := Last(Roots(m));
            && root in m.at && m.at[root].parentId.None? && AtOrAbove(ParentsOf(m.at), root, cur)
            && forall r :: r in m.at && m.at[r].parentId.None? && r != root ==> Before(m.keys, r, root)
  {
    var roots, root := Roots(m), Last(Roots(m));
    assert root in roots;
    DownIsBelow(m.at, root, k);
    forall r | r in m.at && m.at[r].parentId.None? && r != root ensures Before(m.keys, r, root) {
      assert r in roots;
      var i :| 0 <= i < |roots| && roots[i] == r;
      assert roots[|roots| - 1] == root;
      assert Before(roots, r, root);
      var rootIds := set k | k in m.at && m.at[k].parentId.None?;
      WithinBefore(m.keys, rootIds, r, root);
    }
  }

  /** With a null parent the cursor is below the last of all roots. */
  lemma CursorBelowLastRoot(m: Messages, cur: Id)
    requires m.Valid() && Tree(m.at) && CursorAfter(m, None, Some(cur))
    ensures exists root ::
              && root in m.at && m.at[root].parentId.None? && AtOrAbove(ParentsOf(m.at), root, cur)
              && forall r :: r in m.at && m.at[r].parentId.None? && r != root ==> Before(m.keys, r, root)
  {
    var k: nat :| SettlesIn(m.at, WalkStart(m, None).value, Some(cur), k);
    StartsAtLastRoot(m, cur, k);
  }

  function SpliceDict(m: Messages, id: Id): (r: Messages)
    requires id in m.at
  {
    Dict(Without(m.keys, Doomed(m.at, id)), Spliced(m.at, id))
  }

  /** Acyclicity is what stops the walk: from a message below itself it never settles. */
  lemma {:induction false} CycleNeverSettles(at: map<Id, Message>, x: Id, j: nat, k: nat, cur: Option<Id>)
    requires j > 0 && Down(at, x, j) == Some(x)
    ensures Down(at, x, k).Some? && !SettlesIn(at, x, cur, k)
    decreases k
  {
    if k < j {
      DownPrefix(at, x, j, k);
    } else {
      CycleNeverSettles(at, x, j, k - j, cur);
      DownAdd(at, x, j, k - j);
    }
  }

  lemma {:induction false} DownAdd(at: map<Id, Message>, x: Id, j: nat, k: nat)
    requires Down(at, x, j).Some?
    ensures Down(at, x, j + k) == Down(at, Down(at, x, j).value, k)
    decreases j
  {
    if j > 0 {
      DownAdd(at, Last(ChildrenAt(at, x)), j - 1, k);
    }
  }

  /** Short of the end of a walk, the walk can go on. */
  lemma {:induction false} DownPrefix(at: map<Id, Message>, x: Id, j: nat, k: nat)
    requires k < j && Down(at, x, j).Some?
    ensures Down(at, x, k).Some? && ChildrenAt(at, Down(at, x, k).value) != []
    decreases k
  {
    if k > 0 {
      DownPrefix(at, Last(ChildrenAt(at, x)), j - 1, k - 1);
    }
  }

  /** A deletion keeps the key order of the survivors. */
  lemma DeleteKeepsOrder(m: Messages, id: Id, a: Id, b: Id)
    requires m.Valid() && id in m.at
    ensures Before(SpliceDict(m, id).keys, a, b) <==>
            a !in Doomed(m.at, id) && b !in Doomed(m.at, id) && Before(m.keys, a, b)
  {
    WithoutBefore(m.keys, Doomed(m.at, id), a, b);
  }

  lemma SpliceDictValid(m: Messages, id: Id)
    requires m.Valid() && id in m.at
    ensures SpliceDict(m, id).Valid()
  {
    WithoutNoDup(m.keys, Doomed(m.at, id));
  }

  lemma PoppedIsSpliced(m: Messages, id: Id, relinked: Messages)
    requires id in m.at && relinked.keys == m.keys && relinked.at.Keys == m.at.Keys
    requires forall k :: k in relinked.at ==> relinked.at[k] == Adopt(m.at, id, k)
    ensures relinked.Pop(Doomed(m.at, id)) == SpliceDict(m, id)
  {
  }

  lemma NoRootsMeansEmpty(m: Messages)
    requires m.Valid() && Tree(m.at) && Closed(m.at)
    ensures Roots(m) == [] <==> m.at == map[]
  {
    assert m.keys != [] ==> m.keys[0] in m.at;
    if y :| y in m.at {
      var r := RootExists(ParentsOf(m.at), y);
      assert r in Roots(m);
    }
  }

  /** After a deletion in a closed tree the cursor is None exactly when nothing is left. */
  lemma CursorNoneWhenEmpty(m: Messages, id: Id, cur: Option<Id>)
    requires m.Valid() && Tree(m.at) && Closed(m.at) && id in m.at
    requires CursorAfter(SpliceDict(m, id), m.at[id].parentId, cur)
    ensures cur.None? <==> Spliced(m.at, id) == map[]
  {
    var next := SpliceDict(m, id);
    DeleteKeepsTree(m.at, id);
    SplicedParents(m.at, id);
    SpliceDictValid(m, id);
    CursorIsLeaf(next, m.at[id].parentId, cur);
    NoRootsMeansEmpty(next);
  }

  /** One turn of the walk: the last child is a message of smaller height. */
  lemma WalkStep(at: map<Id, Message>, x: Id)
    requires Tree(at) && ChildrenAt(at, x) != []
    ensures Last(ChildrenAt(at, x)) in at
    ensures Height(ParentsOf(at), Last(ChildrenAt(at, x))) < Height(ParentsOf(at), x)
  {
    assert Last(ChildrenAt(at, x)) in at[x].childrenIds;
    HeightDrops(ParentsOf(at), Last(ChildrenAt(at, x)));
  }

  /** Every message of a tree has a childless one at or below it. */
  lemma {:induction false} LeafBelow(at: map<Id, Message>, x: Id) returns (leaf: Id)
    requires Tree(at) && x in at
    ensures leaf in at && at[leaf].childrenIds == []
    decreases Height(ParentsOf(at), x)
  {
    if at[x].childrenIds == [] {
      leaf := x;
    } else {
      WalkStep(at, x);
      leaf := LeafBelow(at, Last(at[x].childrenIds));
    }
  }

  ghost function WalkMeasure(at: map<Id, Message>, cur: Option<Id>): (r: nat) {
    if cur.None? then |at| + 1 else Height(ParentsOf(at), cur.value)
  }

  lemma WalkMeasureStarts(at: map<Id, Message>, x: Id)
    ensures WalkMeasure(at, Some(x)) < WalkMeasure(at, None)
  {
    SubsetSize(Descendants(ParentsOf(at), x), at.Keys);
  }

  // ----- upsert_message_to_chat_by_id_and_message_id, the history part -----

  /** A partial message: the keys present in the dictionary being written. A present `parentId` may be null. */
  datatype Patch = Patch(
    parentId: Option<Option<Id>>,
    childrenIds: Option<seq<Id>>,
    role: Option<string>,
    id: Option<string>,
    timestamp: Option<int>,
    outputRole: Option<string>,
    fields: map<string, string>)

  function Or<T>(a: Option<T>, b: T): (r: T) {
    match a case Some(v) => v case None => b
  }

  /** `{**m, **patch}`. */
  function Overlay(m: Message, patch: Patch): (r: Message) {
    Message(Or(patch.parentId, m.parentId), Or(patch.childrenIds, m.childrenIds), Or(patch.role, m.role),
            Or(patch.id, m.id), Or(patch.timestamp, m.timestamp), Or(patch.outputRole, m.outputRole),
            m.fields + patch.fields)
  }

  /** The first message, in key order, that lists `id` as a child. */
  function FirstListing(keys: seq<Id>, at: map<Id, Message>, id: Id): (r: Option<Id>) {
    if keys == [] then None
    else if id in ChildrenAt(at, keys[0]) then Some(keys[0])
    else FirstListing(keys[1..], at, id)
  }

  function ParentFor(m: Messages, id: Id, patch: Patch): (r: Option<Id>) {
    if patch.parentId.Some? && patch.parentId.value.Some? then patch.parentId.value
    else FirstListing(m.keys, m.at, id)
  }

  /** The patch's own role, else the role in its output, else the opposite of the parent's. */
  function RoleFor(at: map<Id, Message>, parent: Option<Id>, patch: Patch): (r: string)
    ensures r != ""
  {
    if Or(patch.role, "") != "" then Or(patch.role, "")
    else if Or(patch.outputRole, "") != "" then Or(patch.outputRole, "")
    else if parent.Some? && parent.value != "" && parent.value in at && at[parent.value].role == "assistant"
    then "user" else "assistant"
  }

  function Created(m: Messages, id: Id, patch: Patch, now: int): (r: Message) {
    var parent := ParentFor(m, id, patch);
    Message(parent, Or(patch.childrenIds, []), RoleFor(m.at, parent, patch),
            if Or(patch.id, "") != "" then Or(patch.id, "") else id,
            if Or(patch.timestamp, 0) != 0 then Or(patch.timestamp, 0) else now,
            Or(patch.outputRole, ""), patch.fields)
  }

  function Upserted(m: Messages, id: Id, patch: Patch, now: int): (r: Messages) {
    m.Put(id, if id in m.at then Overlay(m.at[id], patch) else Created(m, id, patch, now))
  }

  lemma {:induction false} FirstListingExact(keys: seq<Id>, at: map<Id, Message>, id: Id)
    ensures match FirstListing(keys, at, id)
            case None => forall k :: k in keys ==> id !in ChildrenAt(at, k)
            case Some(q) => q in keys && id in ChildrenAt(at, q)
                            && exists n :: 0 <= n < |keys| && keys[n] == q
                                           && forall i :: 0 <= i < n ==> id !in ChildrenAt(at, keys[i])
  {
    if keys == [] {
    } else if id in ChildrenAt(at, keys[0]) {
      assert keys[0] == FirstListing(keys, at, id).value;
    } else {
      var q := FirstListing(keys[1..], at, id);
      FirstListingExact(keys[1..], at, id);
      if q.Some? {
        var n :| 0 <= n < |keys[1..]| && keys[1..][n] == q.value
                 && forall i :: 0 <= i < n ==> id !in ChildrenAt(at, keys[1..][i]);
        assert keys[n + 1] == q.value;
        assert forall i :: 0 < i < n + 1 ==> keys[i] == keys[1..][i - 1];
      }
    }
  }

  /** An upsert touches one message; a new one comes last in key order. */
  lemma UpsertTouchesOne(m: Messages, id: Id, patch: Patch, now: int)
    ensures var r := Upserted(m, id, patch, now);
            && r.keys == (if id in m.at then m.keys else m.keys + [id])
            && r.at.Keys == m.at.Keys + {id}
            && forall k :: k in m.at && k != id ==> r.at[k] == m.at[k]
  {
  }

  /** An edit takes effect key by key: what the patch holds reads back, everything else is as stored. */
  lemma EditTakesEffect(m: Messages, id: Id, patch: Patch, now: int)
    requires id in m.at
    ensures var o, r := m.at[id], Upserted(m, id, patch, now).at[id];
            && (forall f :: f in patch.fields ==> f in r.fields && r.fields[f] == patch.fields[f])
            && (forall f :: f !in patch.fields ==>
                  (f in r.fields <==> f in o.fields) && (f in o.fields ==> r.fields[f] == o.fields[f]))
            && (if patch.parentId.Some? then r.parentId == patch.parentId.value else r.parentId == o.parentId)
            && (if patch.childrenIds.Some? then r.childrenIds == patch.childrenIds.value
                else r.childrenIds == o.childrenIds)
            && (if patch.role.Some? then r.role == patch.role.value else r.role == o.role)
            && (if patch.id.Some? then r.id == patch.id.value else r.id == o.id)
            && (if patch.timestamp.Some? then r.timestamp == patch.timestamp.value else r.timestamp == o.timestamp)
            && (if patch.outputRole.Some? then r.outputRole == patch.outputRole.value else r.outputRole == o.outputRole)
  {
  }

  /** A new message has the patch's own contents and children. Its id, timestamp and role are the patch's where it has
      them, else the key, the time, and the role in its output or the answer to its parent's role. */
  lemma NewTakesContents(m: Messages, id: Id, patch: Patch, now: int)
    requires id !in m.at
    ensures var r := Upserted(m, id, patch, now).at[id];
            && r.fields == patch.fields
            && (if patch.childrenIds.Some? then r.childrenIds == patch.childrenIds.value else r.childrenIds == [])
            && (if patch.outputRole.Some? then r.outputRole == patch.outputRole.value else r.outputRole == "")
            && (patch.id.Some? && patch.id.value != "" ==> r.id == patch.id.value)
            && (patch.id.None? || patch.id.value == "" ==> r.id == id)
            && (patch.timestamp.Some? && patch.timestamp.value != 0 ==> r.timestamp == patch.timestamp.value)
            && (patch.timestamp.None? || patch.timestamp.value == 0 ==> r.timestamp == now)
  {
  }

  lemma NewTakesRole(m: Messages, id: Id, patch: Patch, now: int)
    requires id !in m.at
    ensures var r := Upserted(m, id, patch, now).at[id];
            && (patch.role.Some? && patch.role.value != "" ==> r.role == patch.role.value)
            && (patch.role.None? || patch.role.value == "" ==>
                  && (r.outputRole != "" ==> r.role == r.outputRole)
                  && (r.outputRole == "" ==>
                        if r.parentId.Some? && r.parentId.value != "" && r.parentId.value in m.at
                        then r.role == (if m.at[r.parentId.value].role == "assistant" then "user" else "assistant")
                        else r.role == "assistant"))
  {
  }

  /** A new message hangs below the parent it names, else below the first message, in key order, that lists it. */
  lemma NewTakesParent(m: Messages, id: Id, patch: Patch, now: int)
    requires m.Valid() && id !in m.at
    ensures var r := Upserted(m, id, patch, now).at[id];
            && (patch.parentId.Some? && patch.parentId.value.Some? ==> r.parentId == patch.parentId.value)
            && (patch.parentId.None? || patch.parentId.value.None? ==>
                  match r.parentId
                  case None => forall k :: k in m.at ==> id !in m.at[k].childrenIds
                  case Some(q) =>
                    && q in m.at && id in m.at[q].childrenIds
                    && forall k :: k in m.at && id in m.at[k].childrenIds && k != q ==> Before(m.keys, q, k))
  {
    FirstListingExact(m.keys, m.at, id);
    var q := FirstListing(m.keys, m.at, id);
    if q.Some? {
      var n :| 0 <= n < |m.keys| && m.keys[n] == q.value
               && forall i :: 0 <= i < n ==> id !in ChildrenAt(m.at, m.keys[i]);
      forall k | k in m.at && id in m.at[k].childrenIds && k != q.value ensures Before(m.keys, q.value, k) {
        var i :| 0 <= i < |m.keys| && m.keys[i] == k;
        assert i > n;
      }
    }
  }

  /** In a history without dangling children, a new message with no parent of its own becomes a root. */
  lemma NewWithoutParentIsRoot(m: Messages, id: Id)
    requires m.Valid() && Linked(m.at) && id !in m.at
    ensures FirstListing(m.keys, m.at, id) == None
  {
    FirstListingExact(m.keys, m.at, id);
  }

  // ----- _repair_chat_current_id -----

  predicate GoodCursor(m: Messages, cur: Option<Id>) {
    && cur.Some? && cur.value in m.at
    && m.at[cur.value].id != "" && m.at[cur.value].role != ""
    && !(m.at[cur.value].outputRole == "assistant" && m.at[cur.value].parentId.None?
         && m.at[cur.value].timestamp == 0 && |m.keys| > 1)
  }

  ghost predicate Candidate(m: Messages, n: nat) {
    && n < |m.keys| && m.keys[n] in m.at
    && m.at[m.keys[n]].role != "" && m.at[m.keys[n]].childrenIds == [] && m.at[m.keys[n]].timestamp > -1
  }

  /** Among the first `n` keys, `leaf` is the childless message with the latest timestamp, the first of equals. */
  ghost predicate LatestLeaf(m: Messages, n: nat, leaf: Option<Id>) {
    if leaf.None? then forall i: nat :: i < n ==> !Candidate(m, i)
    else exists b: nat :: b < n && LatestAt(m, n, b) && leaf == Some(m.keys[b])
  }

  ghost predicate LatestAt(m: Messages, n: nat, b: nat) {
    && Candidate(m, b)
    && (forall i: nat :: i < n && Candidate(m, i) ==>
          m.at[m.keys[i]].timestamp <= m.at[m.keys[b]].timestamp
          && (i < b ==> m.at[m.keys[i]].timestamp < m.at[m.keys[b]].timestamp))
  }

  /** One repair: a good cursor stays; any other moves to the latest leaf, if there is a different one. */
  ghost predicate Repairs(m: Messages, cur: Option<Id>, changed: bool, next: Option<Id>) {
    if GoodCursor(m, cur) then !changed && next == cur
    else exists leaf :: RepairsTo(m, cur, changed, next, leaf)
  }

  ghost predicate RepairsTo(m: Messages, cur: Option<Id>, changed: bool, next: Option<Id>, leaf: Option<Id>) {
    && LatestLeaf(m, |m.keys|, leaf)
    && changed == (leaf.Some? && leaf != Some("") && leaf != cur)
    && next == if changed then leaf else cur
  }

  lemma LatestLeafUnique(m: Messages, n: nat, a: Option<Id>, b: Option<Id>)
    requires m.Valid() && LatestLeaf(m, n, a) && LatestLeaf(m, n, b)
    ensures a == b
  {
  }

  /** The search itself: each later candidate with a later timestamp takes over. */
  function LatestLeafIn(m: Messages, n: nat): (r: Option<Id>)
    requires n <= |m.keys|
    ensures r.Some? ==> r.value in m.at
  {
    if n == 0 then None
    else
      var prev, k := LatestLeafIn(m, n - 1), m.keys[n - 1];
      var latest := if prev.Some? then m.at[prev.value].timestamp else -1;
      if k in m.at && m.at[k].role != "" && m.at[k].childrenIds == [] && m.at[k].timestamp > latest
      then Some(k) else prev
  }

  /** The cursor after `_repair_chat_current_id`, which runs whenever a chat is loaded. */
  function RepairedCursor(m: Messages, cur: Option<Id>): (r: Option<Id>) {
    var leaf := LatestLeafIn(m, |m.keys|);
    if GoodCursor(m, cur) || leaf.None? || leaf == Some("") then cur else leaf
  }

  /** Which cursors a repair keeps: one on a message with an id and a role, unless that is a bare output: an assistant's
      output on a root without timestamp, in a history of several messages. */
  lemma CursorKept(m: Messages, cur: Id)
    requires cur in m.at && m.at[cur].id != "" && m.at[cur].role != ""
    requires || m.at[cur].outputRole != "assistant" || m.at[cur].parentId.Some? || m.at[cur].timestamp != 0
             || |m.keys| <= 1
    ensures RepairedCursor(m, Some(cur)) == Some(cur)
  {
  }

  /** All other cursors move to the childless message with a role that has the latest timestamp, the first of equals,
      if there is one with a key. */
  lemma CursorMoved(m: Messages, cur: Option<Id>, n: nat)
    requires m.Valid()
    requires cur.Some? && cur.value in m.at ==>
               || m.at[cur.value].id == "" || m.at[cur.value].role == ""
               || (m.at[cur.value].outputRole == "assistant" && m.at[cur.value].parentId.None?
                   && m.at[cur.value].timestamp == 0 && |m.keys| > 1)
    requires n < |m.keys| && m.keys[n] in m.at && m.keys[n] != ""
    requires var b := m.at[m.keys[n]];
             && b.role != "" && b.childrenIds == [] && b.timestamp > -1
             && forall i :: 0 <= i < |m.keys| && m.keys[i] in m.at && i != n ==>
                  var o := m.at[m.keys[i]];
                  o.role != "" && o.childrenIds == [] ==>
                    o.timestamp < b.timestamp || (i > n && o.timestamp == b.timestamp)
    ensures RepairedCursor(m, cur) == Some(m.keys[n])
  {
    LatestLeafInExact(m, |m.keys|);
    assert LatestAt(m, |m.keys|, n);
    LatestLeafUnique(m, |m.keys|, Some(m.keys[n]), LatestLeafIn(m, |m.keys|));
  }

  /** Without a childless message that has a role and a timestamp, a repair moves nothing. */
  lemma CursorStuck(m: Messages, cur: Option<Id>)
    requires m.Valid()
    requires forall k :: k in m.at && m.at[k].role != "" && m.at[k].childrenIds == [] ==> m.at[k].timestamp < 0
    ensures RepairedCursor(m, cur) == cur
  {
    LatestLeafInExact(m, |m.keys|);
  }

  lemma LatestTakesOver(m: Messages, n: nat, prev: Option<Id>)
    requires Candidate(m, n) && LatestLeaf(m, n, prev)
    requires prev.Some? ==> prev.value in m.at && m.at[m.keys[n]].timestamp > m.at[prev.value].timestamp
    ensures LatestLeaf(m, n + 1, Some(m.keys[n]))
  {
    assert LatestAt(m, n + 1, n);
  }

  lemma LatestStays(m: Messages, n: nat, prev: Option<Id>)
    requires LatestLeaf(m, n, prev)
    requires Candidate(m, n) ==>
               prev.Some? && prev.value in m.at && m.at[m.keys[n]].timestamp <= m.at[prev.value].timestamp
    ensures LatestLeaf(m, n + 1, prev)
  {
    if prev.Some? {
      var b: nat :| b < n && LatestAt(m, n, b) && prev == Some(m.keys[b]);
      assert LatestAt(m, n + 1, b);
    }
  }

  lemma {:induction false} LatestLeafInExact(m: Messages, n: nat)
    requires m.Valid() && n <= |m.keys|
    ensures LatestLeaf(m, n, LatestLeafIn(m, n))
  {
    if n > 0 {
      var p: nat := n - 1;
      LatestLeafInExact(m, p);
      var prev, k := LatestLeafIn(m, p), m.keys[p];
      var latest := if prev.Some? then m.at[prev.value].timestamp else -1;
      if k in m.at && m.at[k].role != "" && m.at[k].childrenIds == [] && m.at[k].timestamp > latest {
        if prev.Some? {
          LatestAbove(m, p, prev);
        }
        LatestTakesOver(m, p, prev);
      } else {
        LatestStays(m, p, prev);
      }
    }
  }

  lemma LatestAbove(m: Messages, n: nat, leaf: Option<Id>)
    requires LatestLeaf(m, n, leaf) && leaf.Some?
    ensures leaf.value in m.at && m.at[leaf.value].timestamp > -1
  {
    var b: nat :| b < n && LatestAt(m, n, b) && leaf == Some(m.keys[b]);
  }

  /** A repair always ends where that function says, and leaves a repaired cursor alone. */
  lemma RepairsIs(m: Messages, cur: Option<Id>, changed: bool, next: Option<Id>)
    requires m.Valid() && Repairs(m, cur, changed, next)
    ensures next == RepairedCursor(m, cur)
  {
    if !GoodCursor(m, cur) {
      var leaf :| RepairsTo(m, cur, changed, next, leaf);
      LatestLeafInExact(m, |m.keys|);
      LatestLeafUnique(m, |m.keys|, leaf, LatestLeafIn(m, |m.keys|));
    }
  }

  /** Repairing is done after one call: the next one changes nothing. */
  lemma RepairIdempotent(m: Messages, cur: Option<Id>, c1: bool, next: Option<Id>, c2: bool, last: Option<Id>)
    requires m.Valid() && Repairs(m, cur, c1, next) && Repairs(m, next, c2, last)
    ensures !c2 && last == next
    ensures c1 ==> next.Some? && next.value in m.at && m.at[next.value].childrenIds == []
  {
    if c1 && !GoodCursor(m, next) {
      var a :| RepairsTo(m, cur, c1, next, a);
      var b :| RepairsTo(m, next, c2, last, b);
      LatestLeafUnique(m, |m.keys|, a, b);
    }
  }

  class ChatHistory {
    var messages: Messages
    var currentId: Option<Id>

    ghost predicate Valid()
      reads this
    {
      messages.Valid()
    }

    /** Moves the cursor to the end of the last-child walk below `parent`. */
    method WalkToLeaf(parent: Option<Id>)
      requires Valid() && Tree(messages.at)
      modifies this`currentId
      ensures CursorAfter(messages, parent, currentId)
    {
      var cur := parent;
      var children := if cur.None? then Roots(messages) else ChildrenAt(messages.at, cur.value);
      ghost var start := WalkStart(messages, parent);
      ghost var k: nat := 0;
      while children != []
        invariant cur.None? ==> parent.None? && children == Roots(messages) && k == 0
        invariant cur.Some? ==> start.Some? && Down(messages.at, start.value, k) == cur
        invariant cur.Some? ==> children == ChildrenAt(messages.at, cur.value)
        decreases WalkMeasure(messages.at, cur)
      {
        if cur.None? {
          WalkMeasureStarts(messages.at, Last(children));
        } else {
          DownAppend(messages.at, start.value, k);
          WalkStep(messages.at, cur.value);
          k := k + 1;
        }
        cur := Some(Last(children));
        children := ChildrenAt(messages.at, Last(children));
      }
      currentId := if cur.Some? && cur.value in messages.at then cur else None;
      assert start.Some? ==> SettlesIn(messages.at, start.value, currentId, k);
    }

    /** Re-parents each listed message. */
    method Reparent(ids: seq<Id>, parent: Option<Id>)
      requires forall g :: g in ids ==> g in messages.at
      modifies this`messages
      ensures messages.keys == old(messages.keys) && messages.at.Keys == old(messages.at.Keys)
      ensures forall k :: k in messages.at ==>
                messages.at[k] == if k in ids then old(messages.at[k]).(parentId := parent) else old(messages.at[k])
    {
      var i := 0;
      while i < |ids|
        invariant 0 <= i <= |ids|
        invariant messages.keys == old(messages.keys) && messages.at.Keys == old(messages.at.Keys)
        invariant forall k :: k in messages.at ==>
                    messages.at[k] == if k in ids[..i] then old(messages.at[k]).(parentId := parent)
                                      else old(messages.at[k])
      {
        messages := messages.Put(ids[i], messages.at[ids[i]].(parentId := parent));
        i := i + 1;
      }
    }

    /** Pops the messages of a set in any order. */
    method PopAll(gone: set<Id>)
      modifies this`messages
      ensures messages == old(messages).Pop(gone)
    {
      ghost var was := messages;
      assert gone - gone == {};
      assert was.Pop({}) == was by { WithoutNone(was.keys, {}); assert was.at - {} == was.at; }
      var todo := gone;
      while todo != {}
        invariant todo <= gone
        invariant messages == was.Pop(gone - todo)
      {
        var d :| d in todo;
        PopTwice(was, gone - todo, {d});
        assert gone - (todo - {d}) == (gone - todo) + {d};
        messages := messages.Pop({d});
        todo := todo - {d};
      }
      assert gone - {} == gone;
    }

    /** The first half of a deletion: the parent and the grandchildren are linked to each other. */
    method Relink(id: Id, grand: seq<Id>)
      requires id in messages.at && grand == Grandkids(messages.at, Kids(messages.at, id))
      modifies this`messages
      ensures messages.keys == old(messages.keys) && messages.at.Keys == old(messages.at.Keys)
      ensures forall k :: k in messages.at ==> messages.at[k] == Adopt(old(messages.at), id, k)
    {
      var parent := messages.at[id].parentId;
      if parent.Some? && parent.value in messages.at {
        var m := messages.at[parent.value];
        messages := messages.Put(parent.value, m.(childrenIds := Without(m.childrenIds, {id}) + grand));
      }
      Reparent(grand, parent);
    }

    /** `delete_message_from_history`. */
    method DeleteMessage(id: Id) returns (deleted: set<Id>)
      requires Valid() && (id in messages.at ==> Tree(messages.at))
      modifies this
      ensures Valid() && (id in old(messages.at) ==> Tree(messages.at))
      ensures id !in old(messages.at) ==> deleted == {} && messages == old(messages) && currentId == old(currentId)
      ensures id in old(messages.at) ==>
                && deleted == Doomed(old(messages.at), id)
                && messages == SpliceDict(old(messages), id)
                && CursorAfter(messages, old(messages.at[id].parentId), currentId)
    {
      if id !in messages.at {
        return {};
      }
      ghost var was := messages;
      var parent := messages.at[id].parentId;
      var kids := Kids(messages.at, id);
      deleted := {id} + Elems(kids);
      Relink(id, Grandkids(messages.at, kids));
      PoppedIsSpliced(was, id, messages);
      PopAll(deleted);
      DeleteKeepsTree(was.at, id);
      SpliceDictValid(was, id);
      WalkToLeaf(parent);
    }

    /** The history part of `upsert_message_to_chat_by_id_and_message_id`. */
    method Upsert(id: Id, patch: Patch, now: int)
      requires Valid()
      modifies this
      ensures Valid()
      ensures messages == Upserted(old(messages), id, patch, now)
      ensures currentId == Some(id)
    {
      PutValid(messages, id, Upserted(messages, id, patch, now).at[id]);
      if id in messages.at {
        messages := messages.Put(id, Overlay(messages.at[id], patch));
      } else {
        var parent := Or(patch.parentId, None);
        if parent.None? {
          parent := FindListing(id);
        }
        var role := RoleFor(messages.at, parent, patch);
        messages := messages.Put(id, Message(
          parent, Or(patch.childrenIds, []), role,
          if Or(patch.id, "") != "" then Or(patch.id, "") else id,
          if Or(patch.timestamp, 0) != 0 then Or(patch.timestamp, 0) else now,
          Or(patch.outputRole, ""), patch.fields));
      }
      currentId := Some(id);
    }

    method FindListing(id: Id) returns (parent: Option<Id>)
      ensures parent == FirstListing(messages.keys, messages.at, id)
    {
      var n := 0;
      while n < |messages.keys|
        invariant 0 <= n <= |messages.keys|
        invariant FirstListing(messages.keys, messages.at, id) == FirstListing(messages.keys[n..], messages.at, id)
      {
        if id in ChildrenAt(messages.at, messages.keys[n]) {
          return Some(messages.keys[n]);
        }
        n := n + 1;
      }
      return None;
    }

    /** `_repair_chat_current_id`. */
    method RepairCursor() returns (changed: bool)
      requires Valid()
      modifies this`currentId
      ensures Repairs(messages, old(currentId), changed, currentId)
      ensures currentId == RepairedCursor(messages, old(currentId))
    {
      var cur := currentId;
      LatestLeafInExact(messages, |messages.keys|);
      if cur.Some? && cur.value in messages.at {
        var m := messages.at[cur.value];
        var bad := m.outputRole == "assistant" && m.parentId.None? && m.timestamp == 0 && |messages.keys| > 1;
        if m.id != "" && m.role != "" && !bad {
          return false;
        }
      }
      var leaf := FindLatestLeaf();
      LatestLeafUnique(messages, |messages.keys|, leaf, LatestLeafIn(messages, |messages.keys|));
      changed := !(leaf.None? || leaf == Some("") || leaf == cur);
      if changed {
        currentId := leaf;
      }
      assert RepairsTo(messages, cur, changed, currentId, leaf);
    }

    method FindLatestLeaf() returns (leaf: Option<Id>)
      requires Valid()
      ensures LatestLeaf(messages, |messages.keys|, leaf)
    {
      leaf := None;
      var latest := -1;
      ghost var b: nat := 0;
      var n := 0;
      while n < |messages.keys|
        invariant 0 <= n <= |messages.keys|
        invariant leaf.None? ==> latest == -1 && forall i: nat :: i < n ==> !Candidate(messages, i)
        invariant leaf.Some? ==> b < n && LatestAt(messages, n, b) && leaf == Some(messages.keys[b])
        invariant leaf.Some? ==> latest == messages.at[messages.keys[b]].timestamp
      {
        var id := messages.keys[n];
        assert id in messages.keys;
        var m := messages.at[id];
        if m.role != "" && m.childrenIds == [] && m.timestamp > latest {
          leaf, latest := Some(id), m.timestamp;
          b := n;
        }
        n := n + 1;
      }
    }
  }
}
