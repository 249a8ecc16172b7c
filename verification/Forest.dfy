/** Parent-pointer forests: ancestors, acyclicity, and heights for walking down. */
module Forest {
  import opened Basics

  type Parents = map<Id, Option<Id>>

  /** The node's parent, when that parent is itself a node. */
  function Up1(p: Parents, y: Id): (r: Option<Id>) {
    if y in p && p[y].Some? && p[y].value in p then p[y] else None
  }

  /** `k` parent steps from `y`, staying inside the forest. */
  function Up(p: Parents, y: Id, k: nat): (r: Option<Id>)
    decreases k
  {
    if k == 0 then Some(y)
    else match Up1(p, y)
      case None => None
      case Some(q) => Up(p, q, k - 1)
  }

  ghost predicate Ancestor(p: Parents, x: Id, y: Id) {
    exists k: nat :: k > 0 && Up(p, y, k) == Some(x)
  }

  /** No node is its own proper ancestor. */
  ghost predicate Acyclic(p: Parents) {
    forall x :: !Ancestor(p, x, x)
  }

  ghost function Descendants(p: Parents, x: Id): (r: set<Id>) {
    set y | y in p && Ancestor(p, x, y)
  }

  /** The node and everything below it. */
  ghost function Subtree(p: Parents, x: Id): (r: set<Id>) {
    {x} + Descendants(p, x)
  }

  ghost function Height(p: Parents, x: Id): (r: nat) {
    |Descendants(p, x)|
  }

  /** `h` drops along every parent-to-child edge. */
  ghost predicate Drops(p: Parents, h: map<Id, nat>) {
    && p.Keys <= h.Keys
    && (forall y :: Up1(p, y).Some? ==> h[Up1(p, y).value] > h[y])
  }

  lemma {:induction false} UpAdd(p: Parents, y: Id, j: nat, k: nat)
    requires Up(p, y, j).Some?
    ensures Up(p, y, j + k) == Up(p, Up(p, y, j).value, k)
    decreases j
  {
    if j == 0 {
    } else {
      UpAdd(p, Up1(p, y).value, j - 1, k);
    }
  }

  lemma {:induction false} UpShorter(p: Parents, y: Id, j: nat, k: nat)
    requires j <= k && Up(p, y, k).Some?
    ensures Up(p, y, j).Some?
    decreases k
  {
    if j == 0 {
    } else {
      UpShorter(p, Up1(p, y).value, j - 1, k - 1);
    }
  }

  lemma {:induction false} UpStays(p: Parents, y: Id, k: nat)
    requires k > 0 && Up(p, y, k).Some?
    ensures y in p && Up(p, y, k).value in p
    decreases k
  {
    if k == 1 {
      assert Up(p, Up1(p, y).value, 0) == Up1(p, y);
    } else {
      UpStays(p, Up1(p, y).value, k - 1);
    }
  }

  lemma ParentIsAncestor(p: Parents, y: Id)
    requires Up1(p, y).Some?
    ensures Ancestor(p, Up1(p, y).value, y)
  {
    assert Up(p, Up1(p, y).value, 0) == Up1(p, y);
    assert Up(p, y, 1) == Up1(p, y);
  }

  lemma AncestorTransitive(p: Parents, x: Id, y: Id, z: Id)
    requires Ancestor(p, x, y) && Ancestor(p, y, z)
    ensures Ancestor(p, x, z)
  {
    var j: nat :| j > 0 && Up(p, z, j) == Some(y);
    var k: nat :| k > 0 && Up(p, y, k) == Some(x);
    UpAdd(p, z, j, k);
    assert Up(p, z, j + k) == Some(x);
  }

  /** An ancestor is the parent or an ancestor of the parent. */
  lemma AncestorStep(p: Parents, x: Id, y: Id)
    ensures Ancestor(p, x, y) <==>
            Up1(p, y).Some? && (Up1(p, y).value == x || Ancestor(p, x, Up1(p, y).value))
  {
    if Ancestor(p, x, y) {
      var k: nat :| k > 0 && Up(p, y, k) == Some(x);
      assert Up(p, Up1(p, y).value, k - 1) == Some(x);
    }
    if Up1(p, y).Some? {
      ParentIsAncestor(p, y);
      if Ancestor(p, x, Up1(p, y).value) {
        AncestorTransitive(p, x, Up1(p, y).value, y);
      }
    }
  }

  /** Two ancestors of one node are comparable. */
  lemma AncestorsChain(p: Parents, a: Id, b: Id, y: Id)
    requires Ancestor(p, a, y) && Ancestor(p, b, y)
    ensures a == b || Ancestor(p, a, b) || Ancestor(p, b, a)
  {
    var j: nat :| j > 0 && Up(p, y, j) == Some(a);
    var k: nat :| k > 0 && Up(p, y, k) == Some(b);
    if j < k {
      UpAdd(p, y, j, k - j);
      assert Up(p, a, k - j) == Some(b);
    } else if k < j {
      UpAdd(p, y, k, j - k);
      assert Up(p, b, j - k) == Some(a);
    }
  }

  lemma {:induction false} UpDrops(p: Parents, h: map<Id, nat>, y: Id, k: nat)
    requires Drops(p, h) && k > 0 && Up(p, y, k).Some?
    ensures Up(p, y, k).value in h && y in h && h[Up(p, y, k).value] > h[y]
    decreases k
  {
    if k == 1 {
      assert Up(p, Up1(p, y).value, 0) == Up1(p, y);
    } else {
      UpDrops(p, h, Up1(p, y).value, k - 1);
    }
  }

  /** A dropping measure rules out cycles. */
  lemma DropsAcyclic(p: Parents, h: map<Id, nat>)
    requires Drops(p, h)
    ensures Acyclic(p)
  {
    forall x | Ancestor(p, x, x) ensures false {
      var k: nat :| k > 0 && Up(p, x, k) == Some(x);
      UpDrops(p, h, x, k);
    }
  }

  lemma HeightDrops(p: Parents, y: Id)
    requires Acyclic(p) && Up1(p, y).Some?
    ensures Height(p, Up1(p, y).value) > Height(p, y)
    ensures Descendants(p, y) < Descendants(p, Up1(p, y).value)
  {
    var q := Up1(p, y).value;
    ParentIsAncestor(p, y);
    forall z | z in Descendants(p, y) ensures z in Descendants(p, q) {
      AncestorTransitive(p, q, y, z);
    }
    assert y in Descendants(p, q) && y !in Descendants(p, y);
    assert Descendants(p, y) + {y} <= Descendants(p, q);
    SubsetSize(Descendants(p, y) + {y}, Descendants(p, q));
  }

  /** Conversely, an acyclic forest always has a dropping measure. */
  lemma HeightsDrop(p: Parents) returns (h: map<Id, nat>)
    requires Acyclic(p)
    ensures Drops(p, h) && h.Keys == p.Keys
    ensures forall x :: x in p ==> h[x] == Height(p, x)
  {
    h := map x | x in p :: Height(p, x);
    forall y | Up1(p, y).Some? ensures h[Up1(p, y).value] > h[y] {
      HeightDrops(p, y);
    }
  }

  /** Removing a set that is closed downwards leaves every other node's path up unchanged. */
  lemma {:induction false} UpAfterRemoval(p: Parents, gone: set<Id>, y: Id, k: nat)
    requires forall c :: Up1(p, c).Some? && Up1(p, c).value in gone ==> c in gone
    requires y !in gone
    ensures Up(p - gone, y, k) == Up(p, y, k)
    decreases k
  {
    if k == 0 {
    } else {
      assert Up1(p - gone, y) == Up1(p, y);
      if Up1(p, y).Some? {
        UpAfterRemoval(p, gone, Up1(p, y).value, k - 1);
      }
    }
  }

  lemma AncestorAfterRemoval(p: Parents, gone: set<Id>, x: Id, y: Id)
    requires forall c :: Up1(p, c).Some? && Up1(p, c).value in gone ==> c in gone
    requires y !in gone
    ensures Ancestor(p - gone, x, y) <==> Ancestor(p, x, y)
  {
    if Ancestor(p, x, y) {
      var k: nat :| k > 0 && Up(p, y, k) == Some(x);
      UpAfterRemoval(p, gone, y, k);
      assert Up(p - gone, y, k) == Some(x);
    }
    if Ancestor(p - gone, x, y) {
      var k: nat :| k > 0 && Up(p - gone, y, k) == Some(x);
      UpAfterRemoval(p, gone, y, k);
      assert Up(p, y, k) == Some(x);
    }
  }

  /** Every node of a closed acyclic forest hangs below some root. */
  lemma {:induction false} RootExists(p: Parents, y: Id) returns (r: Id)
    requires Acyclic(p) && y in p
    requires forall c :: c in p && p[c].Some? ==> p[c].value in p
    ensures r in p && p[r].None?
    decreases |p.Keys| - Height(p, y)
  {
    if p[y].None? {
      r := y;
    } else {
      HeightDrops(p, y);
      SubsetSize(Descendants(p, Up1(p, y).value), p.Keys);
      r := RootExists(p, Up1(p, y).value);
    }
  }

  /** `q` is `p` without the node `id` and its children, the grandchildren hanging where `id` hung. */
  ghost predicate Contracts(p: Parents, q: Parents, id: Id) {
    && id in p && p[id] != Some(id)
    && (p[id].Some? && p[id].value in p ==> p[p[id].value] != Some(id))
    && q.Keys == p.Keys - {id} - (set c | c in p && p[c] == Some(id))
    && (forall y :: y in q ==> q[y] == if Up1(p, y).Some? && Up1(p, y).value !in q then p[id] else p[y])
  }

  /** One step up in the contraction is one or three steps up before it. */
  lemma ContractedStep(p: Parents, q: Parents, id: Id, y: Id)
    requires Contracts(p, q, id) && y in q
    ensures Up1(p, y).Some? && Up1(p, y).value !in q ==>
              Up1(p, Up1(p, y).value) == Some(id) && Up1(q, y) == Up1(p, id)
    ensures !(Up1(p, y).Some? && Up1(p, y).value !in q) ==> Up1(q, y) == Up1(p, y)
  {
  }

  lemma {:induction false} ContractedPathBefore(p: Parents, q: Parents, id: Id, x: Id, y: Id, k: nat)
    requires Contracts(p, q, id)
    requires k > 0 && Up(q, y, k) == Some(x)
    ensures Ancestor(p, x, y)
    decreases k
  {
    ContractedStep(p, q, id, y);
    var z := Up1(q, y).value;
    ParentIsAncestor(p, y);
    if Up1(p, y) != Some(z) {
      ParentIsAncestor(p, Up1(p, y).value);
      ParentIsAncestor(p, id);
      AncestorTransitive(p, id, Up1(p, y).value, y);
      AncestorTransitive(p, z, id, y);
    }
    if k == 1 {
      assert Up(q, z, 0) == Some(x);
    } else {
      ContractedPathBefore(p, q, id, x, z, k - 1);
      AncestorTransitive(p, x, z, y);
    }
  }

  lemma {:induction false} ContractedPathAfter(p: Parents, q: Parents, id: Id, x: Id, y: Id, k: nat)
    requires Contracts(p, q, id) && x in q && y in q
    requires k > 0 && Up(p, y, k) == Some(x)
    ensures Ancestor(q, x, y)
    decreases k
  {
    ContractedStep(p, q, id, y);
    var z, j := Up1(p, y).value, k - 1;
    assert Up(p, z, j) == Some(x);
    if z !in q {
      assert Up(p, id, j - 1) == Some(x);
      z, j := Up1(p, id).value, j - 2;
    }
    ParentIsAncestor(q, y);
    if j > 0 {
      ContractedPathAfter(p, q, id, x, z, j);
      AncestorTransitive(q, x, z, y);
    }
  }

  lemma ContractionKeepsAncestry(p: Parents, q: Parents, id: Id, x: Id, y: Id)
    requires Contracts(p, q, id) && x in q && y in q
    ensures Ancestor(q, x, y) <==> Ancestor(p, x, y)
  {
    if Ancestor(q, x, y) {
      var k: nat :| k > 0 && Up(q, y, k) == Some(x);
      ContractedPathBefore(p, q, id, x, y, k);
    }
    if Ancestor(p, x, y) {
      var k: nat :| k > 0 && Up(p, y, k) == Some(x);
      ContractedPathAfter(p, q, id, x, y, k);
    }
  }

  lemma ContractionAcyclic(p: Parents, q: Parents, id: Id)
    requires Contracts(p, q, id) && Acyclic(p)
    ensures Acyclic(q)
  {
    forall x | Ancestor(q, x, x) ensures false {
      var k: nat :| k > 0 && Up(q, x, k) == Some(x);
      ContractedPathBefore(p, q, id, x, x, k);
    }
  }

  lemma LexLess(a: nat, b: nat, c: nat, d: nat, w: nat)
    requires d < w && (a < c || (a == c && b < d)) && b < w
    ensures a * w + b < c * w + d
  {
    if a < c {
      assert c * w >= (a + 1) * w == a * w + w;
    }
  }

  /** Two measures, the first decisive and the second below `w`, that drop lexicographically along every edge. */
  lemma LexDropsAcyclic(p: Parents, hi: map<Id, nat>, lo: map<Id, nat>, w: nat)
    requires p.Keys <= hi.Keys && p.Keys <= lo.Keys && forall x :: x in p ==> lo[x] < w
    requires forall y {:trigger Up1(p, y)} :: Up1(p, y).Some? ==>
               hi[y] < hi[Up1(p, y).value] || (hi[y] == hi[Up1(p, y).value] && lo[y] < lo[Up1(p, y).value])
    ensures Acyclic(p)
  {
    var h := map x | x in p :: hi[x] * w + lo[x];
    forall y | Up1(p, y).Some? ensures h[Up1(p, y).value] > h[y] {
      var q := Up1(p, y).value;
      LexLess(hi[y], lo[y], hi[q], lo[q], w);
    }
    DropsAcyclic(p, h);
  }

  // ----- one forest laid over another -----

  ghost function Climb(e: Parents, x: Id): (r: nat) {
    if x in e then
      SubsetSize(Descendants(e, x), e.Keys);
      |e| - Height(e, x) + 1
    else 0
  }

  lemma ClimbDrops(e: Parents, x: Id)
    requires Acyclic(e) && x in e && e[x].Some?
    ensures |e| >= Height(e, x) && Climb(e, e[x].value) < Climb(e, x)
  {
    SubsetSize(Descendants(e, x), e.Keys);
    if e[x].value in e {
      HeightDrops(e, x);
      SubsetSize(Descendants(e, e[x].value), e.Keys);
    }
  }

  /** The first node of `i` at or above `x` along the links of `e`. */
  ghost function Landing(e: Parents, i: Parents, x: Id): (r: Option<Id>)
    requires Acyclic(e)
    ensures r.Some? ==> r.value in i
    decreases Climb(e, x)
  {
    if x in i then Some(x)
    else if x !in e || e[x].None? then None
    else
      ClimbDrops(e, x);
      Landing(e, i, e[x].value)
  }

  /** The nodes of `i` alone: each one's parent, or where the links of `e` lead from there. */
  ghost function Jumps(e: Parents, i: Parents): (r: Parents)
    requires Acyclic(e)
  {
    map c | c in i :: if i[c].Some? then Landing(e, i, i[c].value) else None
  }

  lemma {:induction false} LandingAbove(e: Parents, i: Parents, x: Id)
    requires Acyclic(e) && e.Keys !! i.Keys && Landing(e, i, x).Some?
    ensures x in e + i && (Landing(e, i, x) == Some(x) || Ancestor(e + i, Landing(e, i, x).value, x))
    decreases Climb(e, x)
  {
    if x !in i {
      ClimbDrops(e, x);
      LandingAbove(e, i, e[x].value);
      ParentIsAncestor(e + i, x);
      if Landing(e, i, x) != e[x] {
        AncestorTransitive(e + i, Landing(e, i, x).value, e[x].value, x);
      }
    }
  }

  /** A cycle of jumps would be a cycle of the whole. */
  lemma JumpsAcyclic(e: Parents, i: Parents)
    requires Acyclic(e) && e.Keys !! i.Keys && Acyclic(e + i)
    ensures Acyclic(Jumps(e, i))
  {
    var j := Jumps(e, i);
    var h := HeightsDrop(e + i);
    forall c | Up1(j, c).Some? ensures h[Up1(j, c).value] > h[c] {
      var q := i[c].value;
      LandingAbove(e, i, q);
      ParentIsAncestor(e + i, c);
      if Landing(e, i, q) != Some(q) {
        AncestorTransitive(e + i, Landing(e, i, q).value, q, c);
      }
      var k: nat :| k > 0 && Up(e + i, c, k) == Up1(j, c);
      UpDrops(e + i, h, c, k);
    }
    DropsAcyclic(j, h);
  }

  ghost function LandingHeight(e: Parents, i: Parents, x: Id): (r: nat)
    requires Acyclic(e)
  {
    if Landing(e, i, x).Some? then Height(Jumps(e, i), Landing(e, i, x).value) else |i| + 1
  }

  ghost function OwnHeight(e: Parents, i: Parents, x: Id): (r: nat) {
    if x in i then |e| + 1 else Height(e, x)
  }

  lemma OwnHeightFits(e: Parents, i: Parents, x: Id)
    ensures OwnHeight(e, i, x) < |e| + 2
  {
    SubsetSize(Descendants(e, x), e.Keys);
  }

  lemma OverlaidDrops(e: Parents, i: Parents, y: Id)
    requires Acyclic(e) && e.Keys !! i.Keys && Acyclic(Jumps(e, i)) && Up1(e + i, y).Some?
    ensures var q := Up1(e + i, y).value;
            || LandingHeight(e, i, y) < LandingHeight(e, i, q)
            || (LandingHeight(e, i, y) == LandingHeight(e, i, q) && OwnHeight(e, i, y) < OwnHeight(e, i, q))
  {
    var j, q := Jumps(e, i), Up1(e + i, y).value;
    OverlaidStep(e, i, y);
    if y in i {
      SubsetSize(Descendants(j, y), i.Keys);
      if Landing(e, i, q).Some? {
        HeightDrops(j, y);
      }
    } else {
      SubsetSize(Descendants(e, y), e.Keys);
      if q in e {
        HeightDrops(e, y);
      }
    }
  }

  /** Without one, nodes are ordered by where they land, and below the same landing by their height in `e`. */
  lemma OverlaidAcyclic(e: Parents, i: Parents)
    requires Acyclic(e) && e.Keys !! i.Keys && Acyclic(Jumps(e, i))
    ensures Acyclic(e + i)
  {
    var r := e + i;
    var hi := map x | x in r :: LandingHeight(e, i, x);
    var lo := map x | x in r :: OwnHeight(e, i, x);
    forall x | x in r ensures lo[x] < |e| + 2 {
      OwnHeightFits(e, i, x);
    }
    forall y {:trigger Up1(r, y)} | Up1(r, y).Some?
      ensures hi[y] < hi[Up1(r, y).value] || (hi[y] == hi[Up1(r, y).value] && lo[y] < lo[Up1(r, y).value])
    {
      var q := Up1(r, y).value;
      assert hi[y] == LandingHeight(e, i, y) && hi[q] == LandingHeight(e, i, q);
      assert lo[y] == OwnHeight(e, i, y) && lo[q] == OwnHeight(e, i, q);
      OverlaidDrops(e, i, y);
    }
    LexDropsAcyclic(r, hi, lo, |e| + 2);
  }

  lemma OverlaidStep(e: Parents, i: Parents, y: Id)
    requires Acyclic(e) && e.Keys !! i.Keys && Up1(e + i, y).Some?
    ensures y in i ==>
              i[y] == Up1(e + i, y) && Jumps(e, i)[y] == Landing(e, i, i[y].value) && Landing(e, i, y) == Some(y)
    ensures y !in i ==> e[y] == Up1(e + i, y) && Landing(e, i, y) == Landing(e, i, e[y].value)
  {
  }

  /** Laying one forest over another closes no cycle exactly when jumping among the upper nodes alone has none. */
  lemma OverlayAcyclicIff(e: Parents, i: Parents)
    requires Acyclic(e) && e.Keys !! i.Keys
    ensures Acyclic(e + i) <==> Acyclic(Jumps(e, i))
  {
    if Acyclic(e + i) {
      JumpsAcyclic(e, i);
    } else if Acyclic(Jumps(e, i)) {
      OverlaidAcyclic(e, i);
    }
  }

  /** Part of an acyclic forest is acyclic. */
  lemma PartAcyclic(p: Parents, q: Parents)
    requires Acyclic(q) && p.Keys <= q.Keys && forall x :: x in p ==> p[x] == q[x]
    ensures Acyclic(p)
  {
    var h := HeightsDrop(q);
    forall c | Up1(p, c).Some? ensures h[Up1(p, c).value] > h[c] {
      assert Up1(q, c) == Up1(p, c);
    }
    DropsAcyclic(p, h);
  }

  /** A new node under any other parent closes no cycle, if nothing already named it as parent. */
  lemma AddLeafAcyclic(p: Parents, n: Id, parent: Option<Id>)
    requires Acyclic(p) && n !in p && parent != Some(n)
    requires forall c :: c in p ==> p[c] != Some(n)
    ensures Acyclic(p[n := parent])
  {
    var h := HeightsDrop(p);
    var g := (map x | x in p :: h[x] + 1)[n := 0];
    forall c | Up1(p[n := parent], c).Some? ensures g[Up1(p[n := parent], c).value] > g[c] {
      assert c != n ==> Up1(p, c) == Up1(p[n := parent], c);
    }
    DropsAcyclic(p[n := parent], g);
  }

  ghost predicate ClosedDown(p: Parents, s: set<Id>) {
    forall c :: Up1(p, c).Some? && Up1(p, c).value in s ==> c in s
  }

  /** A set closed under children that holds a node holds its whole subtree. */
  lemma SubtreeWithin(p: Parents, s: set<Id>, x: Id)
    requires ClosedDown(p, s) && x in s
    ensures Subtree(p, x) <= s
  {
    forall y | y in Descendants(p, x) ensures y in s {
      var k: nat :| k > 0 && Up(p, y, k) == Some(x);
      PathWithin(p, s, y, k);
    }
  }

  lemma {:induction false} PathWithin(p: Parents, s: set<Id>, y: Id, k: nat)
    requires ClosedDown(p, s) && Up(p, y, k).Some? && Up(p, y, k).value in s
    ensures y in s
    decreases k
  {
    if k > 0 {
      PathWithin(p, s, Up1(p, y).value, k - 1);
    }
  }

  lemma SubtreeClosedDown(p: Parents, x: Id)
    ensures ClosedDown(p, Subtree(p, x))
  {
    forall c | Up1(p, c).Some? && Up1(p, c).value in Subtree(p, x) ensures c in Subtree(p, x) {
      AncestorStep(p, x, c);
    }
  }

  /** The subtrees of two children of one node do not meet. */
  lemma SiblingsApart(p: Parents, a: Id, b: Id)
    requires Acyclic(p) && a != b && Up1(p, a).Some? && Up1(p, a) == Up1(p, b)
    ensures Subtree(p, a) !! Subtree(p, b)
  {
    forall y | y in Subtree(p, a) && y in Subtree(p, b) ensures false {
      if y != a && y != b {
        AncestorsChain(p, a, b, y);
      }
      ParentIsAncestor(p, a);
      ParentIsAncestor(p, b);
      AncestorStep(p, a, b);
      AncestorStep(p, b, a);
      AncestorStep(p, Up1(p, a).value, a);
      var q := Up1(p, a).value;
      if Ancestor(p, a, q) {
        AncestorTransitive(p, q, a, q);
      } else if Ancestor(p, b, q) {
        AncestorTransitive(p, q, b, q);
      }
    }
  }

  /** Moving a node under a new parent closes a cycle exactly when that parent lies in its own subtree. */
  lemma ReparentAcyclicIff(p: Parents, id: Id, parent: Option<Id>)
    requires Acyclic(p) && id in p
    ensures Acyclic(p[id := parent]) <==> parent.None? || parent.value !in Subtree(p, id)
  {
    if parent.Some? && parent.value in Subtree(p, id) {
      ReparentBelowSelf(p, id, parent.value);
    } else {
      ReparentElsewhere(p, id, parent);
    }
  }

  lemma ReparentBelowSelf(p: Parents, id: Id, parent: Id)
    requires Acyclic(p) && id in p && parent in Subtree(p, id)
    ensures !Acyclic(p[id := Some(parent)])
  {
    var q := p[id := Some(parent)];
    ParentIsAncestor(q, id);
    if parent != id {
      var k: nat :| k > 0 && Up(p, parent, k) == Some(id);
      PathSurvives(p, q, id, parent, k);
      AncestorTransitive(q, id, parent, id);
    }
  }

  /** The path from a descendant up to `id` does not use `id`'s own parent link. */
  lemma {:induction false} PathSurvives(p: Parents, q: Parents, id: Id, y: Id, k: nat)
    requires Acyclic(p) && id in p && q.Keys == p.Keys && (forall c :: c in p && c != id ==> q[c] == p[c])
    requires k > 0 && Up(p, y, k) == Some(id)
    ensures Ancestor(q, id, y)
    decreases k
  {
    assert y != id by { assert Ancestor(p, id, y); }
    assert Up1(q, y) == Up1(p, y);
    ParentIsAncestor(q, y);
    if k == 1 {
      assert Up(p, Up1(p, y).value, 0) == Some(id);
    } else {
      PathSurvives(p, q, id, Up1(p, y).value, k - 1);
      AncestorTransitive(q, id, Up1(p, y).value, y);
    }
  }

  lemma ReparentElsewhere(p: Parents, id: Id, parent: Option<Id>)
    requires Acyclic(p) && id in p && (parent.None? || parent.value !in Subtree(p, id))
    ensures Acyclic(p[id := parent])
  {
    var q := p[id := parent];
    var h := HeightsDrop(p);
    var g := map x | x in p :: if x in Subtree(p, id) then h[x] else h[x] + |p| + 1;
    SubtreeClosedDown(p, id);
    forall c | Up1(q, c).Some? ensures g[Up1(q, c).value] > g[c] {
      SubsetSize(Descendants(p, c), p.Keys);
      if c != id {
        assert Up1(p, c) == Up1(q, c);
        AncestorStep(p, id, c);
      }
    }
    DropsAcyclic(q, g);
  }

  lemma RemovalAcyclic(p: Parents, gone: set<Id>)
    requires Acyclic(p)
    ensures Acyclic(p - gone)
  {
    PartAcyclic(p - gone, p);
  }

  /** The child of `q` through which a path comes up. */
  lemma ChildOnPath(p: Parents, q: Id, y: Id, k: nat) returns (c: Id)
    requires k > 0 && Up(p, y, k) == Some(q)
    ensures Up1(p, c) == Some(q) && y in Subtree(p, c)
  {
    UpShorter(p, y, k - 1, k);
    c := Up(p, y, k - 1).value;
    UpAdd(p, y, k - 1, 1);
    assert Up(p, c, 1) == Some(q);
    assert Up1(p, c).Some? && Up(p, Up1(p, c).value, 0) == Up1(p, c);
    if k > 1 {
      UpStays(p, y, k - 1);
    }
  }

  /** A node that is no one's parent has nothing below it. */
  lemma ChildlessIsBottom(p: Parents, x: Id, y: Id)
    requires forall c :: Up1(p, c) != Some(x)
    ensures !Ancestor(p, x, y)
  {
    if k: nat :| k > 0 && Up(p, y, k) == Some(x) {
      var c := ChildOnPath(p, x, y, k);
    }
  }

  lemma TwoCycle(p: Parents, x: Id, y: Id)
    requires x in p && y in p && p[x] == Some(y) && p[y] == Some(x)
    ensures !Acyclic(p)
  {
    ParentIsAncestor(p, x);
    ParentIsAncestor(p, y);
    AncestorTransitive(p, x, y, x);
  }

  /** A node on a cycle has a child on a cycle. */
  lemma CycleHasChild(p: Parents, y: Id) returns (c: Id)
    requires Ancestor(p, y, y)
    ensures Up1(p, c) == Some(y) && Ancestor(p, c, c)
  {
    var k: nat :| k > 0 && Up(p, y, k) == Some(y);
    UpShorter(p, y, k - 1, k);
    c := Up(p, y, k - 1).value;
    UpAdd(p, y, k - 1, 1);
    assert Up(p, c, 1) == Some(y);
    assert Up1(p, c).Some? && Up(p, Up1(p, c).value, 0) == Up1(p, c);
    UpAdd(p, c, 1, k - 1);
    assert Up(p, c, k) == Some(c);
  }
}
