/** One table of folders and the walks over a user's folder forest (models/folders.py). */
module Folders {
  import opened Basics
  import opened Forest

  datatype Folder = Folder(parentId: Option<Id>, userId: Id)

  type Table = Dict<Id, Folder>

  /** The user's folders and their parents. */
  ghost function Owned(t: Table, user: Id): (p: Parents) {
    map k | k in t.at && t.at[k].userId == user :: t.at[k].parentId
  }

  /** `get_folders_by_parent_id_and_user_id`, in table order. */
  function ChildFolders(t: Table, parent: Id, user: Id): (r: seq<Id>) {
    Within(t.keys, set k | k in t.at && t.at[k].parentId == Some(parent) && t.at[k].userId == user)
  }

  function IsOwned(t: Table, id: Id, user: Id): (r: bool) {
    id in t.at && t.at[id].userId == user
  }

  lemma ChildFoldersExact(t: Table, parent: Id, user: Id)
    requires t.Valid() && IsOwned(t, parent, user)
    ensures NoDup(ChildFolders(t, parent, user))
    ensures forall c :: c in ChildFolders(t, parent, user) <==> Up1(Owned(t, user), c) == Some(parent)
  {
    WithinNoDup(t.keys, set k | k in t.at && t.at[k].parentId == Some(parent) && t.at[k].userId == user);
  }

  /** Each folder after all folders below it. */
  ghost predicate PostOrdered(p: Parents, ids: seq<Id>) {
    forall i, c :: 0 <= i < |ids| && Up1(p, c) == Some(ids[i]) ==> c in ids[..i]
  }

  /** Part of the way through a list of siblings: everything below the first `n`, each folder once. */
  ghost predicate BelowFirst(p: Parents, kids: seq<Id>, n: nat, ids: seq<Id>) {
    && n <= |kids| && NoDup(ids)
    && (forall y :: y in ids <==> exists i :: 0 <= i < n && y in Subtree(p, kids[i]))
  }

  lemma BelowNext(p: Parents, q: Id, kids: seq<Id>, n: nat, ids: seq<Id>, more: seq<Id>)
    requires Acyclic(p) && NoDup(kids) && (forall c :: c in kids <==> Up1(p, c) == Some(q))
    requires n < |kids| && BelowFirst(p, kids, n, ids)
    requires NoDup(more) && (forall y :: y in more <==> y in Subtree(p, kids[n]))
    ensures BelowFirst(p, kids, n + 1, ids + more)
  {
    forall y | y in ids ensures y !in Subtree(p, kids[n]) {
      var i :| 0 <= i < n && y in Subtree(p, kids[i]);
      SiblingsApart(p, kids[i], kids[n]);
    }
    ConcatNoDup(ids, more);
  }

  lemma BelowAll(p: Parents, q: Id, kids: seq<Id>, ids: seq<Id>)
    requires (forall c :: c in kids <==> Up1(p, c) == Some(q)) && BelowFirst(p, kids, |kids|, ids)
    ensures forall y :: y in ids <==> y in Descendants(p, q)
  {
    forall y ensures y in ids <==> y in Descendants(p, q) {
      if y in ids {
        var i :| 0 <= i < |kids| && y in Subtree(p, kids[i]);
        ParentIsAncestor(p, kids[i]);
        if y != kids[i] {
          AncestorTransitive(p, q, kids[i], y);
        }
      }
      if y in Descendants(p, q) {
        var k: nat :| k > 0 && Up(p, y, k) == Some(q);
        var c := ChildOnPath(p, q, y, k);
        assert c in kids;
      }
    }
  }

  class FolderTable {
    var folders: Table
    /** Every state the table was committed in. */
    ghost var commits: seq<Table>

    ghost predicate Valid()
      reads this
    {
      folders.Valid()
    }

    /** `get_folder_ids_by_id_and_user_id_in_subtree`: the walk with an explicit stack. */
    method SubtreeIds(id: Id, user: Id) returns (ids: seq<Id>)
      requires Valid() && !Ancestor(Owned(folders, user), id, id)
      ensures !IsOwned(folders, id, user) ==> ids == []
      ensures IsOwned(folders, id, user) ==> NoDup(ids) && Elems(ids) == Subtree(Owned(folders, user), id)
    {
      if !IsOwned(folders, id, user) {
        return [];
      }
      ghost var p := Owned(folders, user);
      ids := [id];
      var stack := [id];
      ghost var done: set<Id> := {};
      while stack != []
        invariant WalkState(p, id, ids, stack, done)
        decreases |p.Keys| - |done|
      {
        var current := stack[|stack| - 1];
        var children := ChildFolders(folders, current, user);
        WalkOwned(p, id, ids, stack, done);
        ChildFoldersExact(folders, current, user);
        WalkStep(p, id, ids, stack, done, children);
        stack := stack[..|stack| - 1];
        ids := ids + children;
        stack := stack + children;
        done := done + {current};
      }
      SubtreeWithin(p, Elems(ids), id);
    }

    /** `get_children` inside `get_children_folders_by_id_and_user_id`: the recursive walk, children first. */
    method ChildrenBelow(id: Id, user: Id) returns (ids: seq<Id>)
      requires Valid() && Acyclic(Owned(folders, user)) && IsOwned(folders, id, user)
      ensures NoDup(ids) && PostOrdered(Owned(folders, user), ids)
      ensures forall y :: y in ids <==> y in Descendants(Owned(folders, user), id)
      decreases Height(Owned(folders, user), id)
    {
      ghost var p := Owned(folders, user);
      var kids := ChildFolders(folders, id, user);
      ChildFoldersExact(folders, id, user);
      ids := [];
      var n := 0;
      while n < |kids|
        invariant 0 <= n <= |kids|
        invariant BelowFirst(p, kids, n, ids) && PostOrdered(p, ids)
      {
        assert kids[n] in kids;
        HeightDrops(p, kids[n]);
        var more := ChildrenBelow(kids[n], user);
        ConcatNoDup(more, [kids[n]]);
        BelowNext(p, id, kids, n, ids, more + [kids[n]]);
        PostOrderedNext(p, ids, more, kids[n]);
        assert ids + more + [kids[n]] == ids + (more + [kids[n]]);
        ids := ids + more + [kids[n]];
        n := n + 1;
      }
      BelowAll(p, id, kids, ids);
    }

    /** The two walks agree: the stack walk lists exactly the root and what the recursive walk lists. */
    method WalksAgree(id: Id, user: Id) returns (byStack: seq<Id>, below: seq<Id>)
      requires Valid() && Acyclic(Owned(folders, user)) && IsOwned(folders, id, user)
      ensures NoDup(byStack) && multiset(byStack) == multiset([id] + below)
    {
      byStack := SubtreeIds(id, user);
      below := ChildrenBelow(id, user);
      ConcatNoDup([id], below);
      assert forall y :: y in byStack <==> y in Elems(byStack);
      SameElemsPermutation(byStack, [id] + below);
    }

    /** `delete_children` inside `delete_folder_by_id_and_user_id`: one commit for every folder removed. */
    method DeleteBelow(id: Id, user: Id) returns (gone: seq<Id>)
      requires Valid() && Acyclic(Owned(folders, user)) && IsOwned(folders, id, user)
      modifies this
      ensures Valid()
      ensures NoDup(gone) && forall y :: y in gone <==> y in Descendants(old(Owned(folders, user)), id)
      ensures folders == old(folders).Pop(Elems(gone))
      ensures CommittedWhole(old(folders), old(commits), commits, user)
      decreases Height(Owned(folders, user), id), 0
    {
      ghost var p := Owned(folders, user);
      ghost var was, log := folders, commits;
      var kids := ChildFolders(folders, id, user);
      ChildFoldersExact(folders, id, user);
      gone := [];
      assert Elems(gone) == {};
      PopNothing(folders);
      var n := 0;
      while n < |kids|
        invariant 0 <= n <= |kids|
        invariant BelowFirst(p, kids, n, gone)
        invariant folders == was.Pop(Elems(gone))
        invariant CommittedWhole(was, log, commits, user)
      {
        ghost var mid, midLog := folders, commits;
        NextSiblingThere(p, id, kids, n, gone);
        AfterRemoval(was, user, p, gone, kids[n]);
        HeightDrops(p, kids[n]);
        var more := DeleteTree(kids[n], user);
        BelowOwned(was, user, p, kids, n, gone);
        CommitsCompose(was, mid, log, midLog, commits, user, gone);
        ConcatNoDup(more, [kids[n]]);
        BelowNext(p, id, kids, n, gone, more + [kids[n]]);
        PopMore(was, gone, more + [kids[n]]);
        gone := gone + (more + [kids[n]]);
        n := n + 1;
      }
      BelowAll(p, id, kids, gone);
      PopValid(was, Elems(gone));
    }

    /** Everything below a folder is deleted, then the folder itself. */
    method DeleteTree(top: Id, user: Id) returns (below: seq<Id>)
      requires Valid() && Acyclic(Owned(folders, user)) && IsOwned(folders, top, user)
      modifies this
      ensures Valid()
      ensures NoDup(below) && forall y :: y in below <==> y in Descendants(old(Owned(folders, user)), top)
      ensures folders == old(folders).Pop(Elems(below + [top]))
      ensures CommittedWhole(old(folders), old(commits), commits, user)
      decreases Height(Owned(folders, user), top), 1
    {
      ghost var p := Owned(folders, user);
      ghost var was := folders;
      below := DeleteBelow(top, user);
      PopMore(was, below, [top]);
      assert Elems([top]) == {top};
      folders := folders.Pop({top});
      SubtreeClosedDown(p, top);
      assert Elems(below + [top]) == Subtree(p, top);
      CommitOne(was, user, p, below + [top]);
      PopValid(was, Elems(below + [top]));
      commits := commits + [folders];
    }

    /** `delete_folder_by_id_and_user_id`: removes and returns exactly the subtree. */
    method DeleteFolder(id: Id, user: Id) returns (gone: seq<Id>)
      requires Valid() && (IsOwned(folders, id, user) ==> Acyclic(Owned(folders, user)))
      modifies this
      ensures Valid()
      ensures !IsOwned(old(folders), id, user) ==> gone == [] && folders == old(folders) && commits == old(commits)
      ensures IsOwned(old(folders), id, user) ==>
                && NoDup(gone) && Elems(gone) == Subtree(old(Owned(folders, user)), id)
                && folders == old(folders).Pop(Elems(gone))
                && CommittedWhole(old(folders), old(commits), commits, user)
    {
      if !IsOwned(folders, id, user) {
        return [];
      }
      gone := [id];
      var below := DeleteTree(id, user);
      ConcatNoDup(gone, below);
      assert Elems(gone + below) == Elems(below + [id]);
      gone := gone + below;
    }

    /** `update_folder_parent_id_by_id_and_user_id`: the move itself checks nothing. */
    method MoveFolder(id: Id, user: Id, parent: Option<Id>) returns (moved: bool)
      requires Valid()
      modifies this
      ensures Valid() && moved == IsOwned(old(folders), id, user)
      ensures !moved ==> folders == old(folders)
      ensures moved ==> Owned(folders, user) == old(Owned(folders, user))[id := parent]
      ensures moved && old(Acyclic(Owned(folders, user))) ==>
                (Acyclic(Owned(folders, user)) <==>
                 parent.None? || parent.value !in Subtree(old(Owned(folders, user)), id))
      ensures forall k :: k in folders.at && k != id ==> k in old(folders.at) && folders.at[k] == old(folders.at)[k]
    {
      moved := IsOwned(folders, id, user);
      if moved {
        ghost var p := Owned(folders, user);
        PutValid(folders, id, folders.at[id].(parentId := parent));
        folders := folders.Put(id, folders.at[id].(parentId := parent));
        commits := commits + [folders];
        assert Owned(folders, user) == p[id := parent];
        if Acyclic(p) {
          ReparentAcyclicIff(p, id, parent);
        }
      }
    }

    /** The check a caller could make first: the list of the subtree walk decides whether a move is safe. */
    method MoveIsSafe(id: Id, user: Id, parent: Option<Id>) returns (safe: bool)
      requires Valid() && Acyclic(Owned(folders, user)) && IsOwned(folders, id, user)
      ensures safe <==> Acyclic(Owned(folders, user)[id := parent])
    {
      var ids := SubtreeIds(id, user);
      ReparentAcyclicIff(Owned(folders, user), id, parent);
      assert forall x :: x in ids <==> x in Elems(ids);
      safe := parent.None? || parent.value !in ids;
    }
  }

  /** The stack walk: `done` folders have all their children listed; listed folders are done or on the stack. */
  ghost predicate WalkState(p: Parents, id: Id, ids: seq<Id>, stack: seq<Id>, done: set<Id>) {
    WalkLists(p, id, ids, stack, done) && WalkLinks(p, id, ids, done)
  }

  ghost predicate WalkLists(p: Parents, id: Id, ids: seq<Id>, stack: seq<Id>, done: set<Id>) {
    && NoDup(ids) && NoDup(stack) && id in ids && id in p
    && (forall x :: x in ids ==> x in Subtree(p, id))
    && (forall x :: x in ids <==> x in stack || x in done)
    && (forall x :: x in stack ==> x !in done)
  }

  ghost predicate WalkLinks(p: Parents, id: Id, ids: seq<Id>, done: set<Id>) {
    && (forall x :: x in ids && x != id ==> Up1(p, x).Some? && Up1(p, x).value in done)
    && (forall c :: Up1(p, c).Some? && Up1(p, c).value in done ==> c in ids)
    && done <= p.Keys
  }

  lemma WalkOwned(p: Parents, id: Id, ids: seq<Id>, stack: seq<Id>, done: set<Id>)
    requires WalkState(p, id, ids, stack, done) && stack != []
    ensures stack[|stack| - 1] in p
  {
  }

  /** The children of the folder on top of the stack are new, and in the subtree. */
  lemma ChildrenNew(p: Parents, id: Id, ids: seq<Id>, stack: seq<Id>, done: set<Id>, c: Id)
    requires !Ancestor(p, id, id) && WalkState(p, id, ids, stack, done) && stack != []
    requires Up1(p, c) == Some(stack[|stack| - 1])
    ensures c !in ids && c in Subtree(p, id)
  {
    assert stack[|stack| - 1] in stack;
    ParentIsAncestor(p, c);
    AncestorStep(p, id, c);
  }

  lemma WalkStepLists(p: Parents, id: Id, ids: seq<Id>, stack: seq<Id>, done: set<Id>, children: seq<Id>)
    requires WalkLists(p, id, ids, stack, done) && stack != []
    requires NoDup(children) && forall c :: c in children ==> c !in ids && c in Subtree(p, id)
    ensures WalkLists(p, id, ids + children, stack[..|stack| - 1] + children, done + {stack[|stack| - 1]})
  {
    var current, rest := stack[|stack| - 1], stack[..|stack| - 1];
    assert stack == rest + [current];
    ConcatNoDup(ids, children);
    ConcatNoDup(rest, children);
  }

  lemma WalkStep(p: Parents, id: Id, ids: seq<Id>, stack: seq<Id>, done: set<Id>, children: seq<Id>)
    requires !Ancestor(p, id, id) && WalkState(p, id, ids, stack, done) && stack != []
    requires NoDup(children)
    requires forall c :: c in children <==> Up1(p, c) == Some(stack[|stack| - 1])
    ensures WalkState(p, id, ids + children, stack[..|stack| - 1] + children, done + {stack[|stack| - 1]})
    ensures |done + {stack[|stack| - 1]}| <= |p.Keys|
  {
    var current := stack[|stack| - 1];
    WalkOwned(p, id, ids, stack, done);
    assert WalkLinks(p, id, ids + children, done + {current});
    forall c | c in children ensures c !in ids && c in Subtree(p, id) {
      ChildrenNew(p, id, ids, stack, done, c);
    }
    WalkStepLists(p, id, ids, stack, done, children);
    SubsetSize(done + {current}, p.Keys);
  }

  /** The stack after `n` turns of the walk. */
  function StackAfter(t: Table, user: Id, stack: seq<Id>, n: nat): (r: seq<Id>)
    decreases n
  {
    if n == 0 || stack == [] then stack
    else StackAfter(t, user, stack[..|stack| - 1] + ChildFolders(t, stack[|stack| - 1], user), n - 1)
  }

  /** Acyclicity is what stops the stack walk: with a folder of a cycle on it, the stack never empties. */
  lemma {:induction false} CyclicWalkNeverEnds(t: Table, user: Id, stack: seq<Id>, n: nat, y: Id)
    requires t.Valid() && y in stack && Ancestor(Owned(t, user), y, y)
    ensures StackAfter(t, user, stack, n) != []
    decreases n
  {
    if n > 0 {
      var top, rest := stack[|stack| - 1], stack[..|stack| - 1];
      assert stack == rest + [top];
      var next := rest + ChildFolders(t, top, user);
      if y in rest {
        assert y in next;
        CyclicWalkNeverEnds(t, user, next, n - 1, y);
      } else {
        var c := CycleHasChild(Owned(t, user), y);
        ChildFoldersExact(t, y, user);
        assert c in next;
        CyclicWalkNeverEnds(t, user, next, n - 1, c);
      }
    }
  }

  lemma PostOrderedNext(p: Parents, ids: seq<Id>, more: seq<Id>, top: Id)
    requires PostOrdered(p, ids) && PostOrdered(p, more)
    requires forall y :: y in more <==> y in Descendants(p, top)
    ensures PostOrdered(p, ids + more + [top])
  {
    var all := ids + more + [top];
    forall i, c | 0 <= i < |all| && Up1(p, c) == Some(all[i]) ensures c in all[..i] {
      if i < |ids| {
        assert all[..i] == ids[..i];
      } else if i < |ids| + |more| {
        assert all[i] == more[i - |ids|];
        assert all[..i] == ids + more[..i - |ids|];
      } else {
        ParentIsAncestor(p, c);
        assert c in more;
        assert all[..i] == ids + more;
      }
    }
  }

  // ----- deletion, one commit at a time -----

  /** A later state of the table in which no folder of the user points at a folder removed since `was`. */
  ghost predicate Whole(was: Table, t: Table, user: Id) {
    && (forall k :: k in t.at ==> k in was.at && t.at[k] == was.at[k])
    && (forall k ::
          k in t.at && t.at[k].userId == user && t.at[k].parentId.Some? && t.at[k].parentId.value in was.at ==>
          t.at[k].parentId.value in t.at)
  }

  ghost predicate CommittedWhole(was: Table, log: seq<Table>, commits: seq<Table>, user: Id) {
    && log <= commits
    && forall i :: |log| <= i < |commits| ==> Whole(was, commits[i], user)
  }

  lemma PopMore(t: Table, gone: seq<Id>, more: seq<Id>)
    ensures t.Pop(Elems(gone)).Pop(Elems(more)) == t.Pop(Elems(gone + more))
  {
    assert Elems(gone + more) == Elems(gone) + Elems(more);
    PopTwice(t, Elems(gone), Elems(more));
  }

  lemma BelowOwned(t: Table, user: Id, p: Parents, kids: seq<Id>, n: nat, ids: seq<Id>)
    requires p == Owned(t, user) && BelowFirst(p, kids, n, ids) && forall c :: c in kids ==> c in p
    ensures ClosedDown(p, Elems(ids))
    ensures forall k :: k in ids ==> IsOwned(t, k, user)
  {
    BelowClosed(p, kids, n, ids);
  }

  lemma BelowClosed(p: Parents, kids: seq<Id>, n: nat, ids: seq<Id>)
    requires BelowFirst(p, kids, n, ids)
    ensures ClosedDown(p, Elems(ids))
  {
    forall c | Up1(p, c).Some? && Up1(p, c).value in ids ensures c in ids {
      var i :| 0 <= i < n && Up1(p, c).value in Subtree(p, kids[i]);
      SubtreeClosedDown(p, kids[i]);
    }
  }

  lemma NextSiblingThere(p: Parents, q: Id, kids: seq<Id>, n: nat, gone: seq<Id>)
    requires Acyclic(p) && NoDup(kids) && (forall c :: c in kids <==> Up1(p, c) == Some(q))
    requires n < |kids| && BelowFirst(p, kids, n, gone)
    ensures kids[n] in p && Up1(p, kids[n]) == Some(q)
    ensures Subtree(p, kids[n]) !! Elems(gone) && ClosedDown(p, Elems(gone))
  {
    assert kids[n] in kids;
    forall y | y in gone ensures y !in Subtree(p, kids[n]) {
      var i :| 0 <= i < n && y in Subtree(p, kids[i]);
      SiblingsApart(p, kids[i], kids[n]);
    }
    BelowClosed(p, kids, n, gone);
  }

  /** What the next recursive call finds: the removed set changes nothing about the sibling's subtree. */
  lemma AfterRemoval(was: Table, user: Id, p: Parents, gone: seq<Id>, kid: Id)
    requires was.Valid() && p == Owned(was, user) && Acyclic(p) && kid in p
    requires Subtree(p, kid) !! Elems(gone) && ClosedDown(p, Elems(gone))
    ensures var t := was.Pop(Elems(gone));
            && t.Valid() && Owned(t, user) == p - Elems(gone) && Acyclic(Owned(t, user)) && IsOwned(t, kid, user)
            && Descendants(Owned(t, user), kid) == Descendants(p, kid)
            && Height(Owned(t, user), kid) == Height(p, kid)
  {
    PopValid(was, Elems(gone));
    RemovalAcyclic(p, Elems(gone));
    var t := was.Pop(Elems(gone));
    assert Owned(t, user) == p - Elems(gone);
    forall y ensures y in Descendants(p - Elems(gone), kid) <==> y in Descendants(p, kid) {
      if y !in Elems(gone) {
        AncestorAfterRemoval(p, Elems(gone), kid, y);
      }
    }
  }

  /** Commits that are whole since the last state are whole since the first. */
  lemma CommitsCompose(was: Table, mid: Table, log: seq<Table>, midLog: seq<Table>, commits: seq<Table>, user: Id,
                       gone: seq<Id>)
    requires mid == was.Pop(Elems(gone)) && ClosedDown(Owned(was, user), Elems(gone))
    requires forall k :: k in gone ==> IsOwned(was, k, user)
    requires CommittedWhole(was, log, midLog, user) && CommittedWhole(mid, midLog, commits, user)
    ensures CommittedWhole(was, log, commits, user)
  {
    forall i | |midLog| <= i < |commits| ensures Whole(was, commits[i], user) {
      WholeSinceFirst(was, mid, commits[i], user, gone);
    }
    assert forall i :: |log| <= i < |midLog| ==> commits[i] == midLog[i];
  }

  lemma WholeSinceFirst(was: Table, mid: Table, t: Table, user: Id, gone: seq<Id>)
    requires mid == was.Pop(Elems(gone)) && ClosedDown(Owned(was, user), Elems(gone))
    requires forall k :: k in gone ==> IsOwned(was, k, user)
    requires Whole(mid, t, user)
    ensures Whole(was, t, user)
  {
    forall k | k in t.at && t.at[k].userId == user && t.at[k].parentId.Some? && t.at[k].parentId.value in was.at
      ensures t.at[k].parentId.value in t.at
    {
      var up := Up1(Owned(was, user), k);
      assert up.Some? ==> up == t.at[k].parentId;
    }
  }

  lemma CommitOne(was: Table, user: Id, p: Parents, gone: seq<Id>)
    requires p == Owned(was, user) && ClosedDown(p, Elems(gone)) && forall k :: k in gone ==> IsOwned(was, k, user)
    ensures Whole(was, was.Pop(Elems(gone)), user)
  {
    var t := was.Pop(Elems(gone));
    forall k | k in t.at && t.at[k].userId == user && t.at[k].parentId.Some? && t.at[k].parentId.value in was.at
      ensures t.at[k].parentId.value in t.at
    {
      var up := Up1(p, k);
      assert up.Some? ==> up == t.at[k].parentId;
    }
  }
}
