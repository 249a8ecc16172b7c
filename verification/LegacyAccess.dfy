/** The legacy access-control format and its conversions to and from grants (models/access_grants.py). */
module LegacyAccess {
  import opened Basics
  import opened AccessGrants

  /** Missing lists are empty ones. */
  datatype PermIds = PermIds(groupIds: seq<Id>, userIds: seq<Id>)

  /** `None`, `{}`, or the dictionary with `read` and `write`. */
  datatype Legacy = Null | Empty | Lists(read: PermIds, write: PermIds)

  function Triples(ids: seq<Id>, principalType: string, permission: string): (r: seq<Triple>) {
    if ids == [] then [] else [Triple(principalType, ids[0], permission)] + Triples(ids[1..], principalType, permission)
  }

  function PermTriples(p: PermIds, permission: string): (r: seq<Triple>) {
    Triples(p.groupIds, GROUP, permission) + Triples(p.userIds, USER, permission)
  }

  const PUBLIC_READ := Triple(USER, ANYONE, "read")

  /** `access_control_to_grants`, without the resource every grant repeats. */
  function ToGrants(resourceType: string, l: Legacy): (r: seq<Triple>) {
    match l
    case Null => if resourceType == "file" then [] else [PUBLIC_READ]
    case Empty => []
    case Lists(read, write) => PermTriples(read, "read") + PermTriples(write, "write")
  }

  method AppendTriples(ids: seq<Id>, principalType: string, permission: string, was: seq<Triple>)
    returns (r: seq<Triple>)
    ensures r == was + Triples(ids, principalType, permission)
  {
    r := was;
    var n := 0;
    while n < |ids|
      invariant 0 <= n <= |ids|
      invariant r + Triples(ids[n..], principalType, permission) == was + Triples(ids, principalType, permission)
    {
      assert ids[n..][1..] == ids[n + 1..];
      r := r + [Triple(principalType, ids[n], permission)];
      n := n + 1;
    }
  }

  method AppendPerm(p: PermIds, permission: string, was: seq<Triple>) returns (r: seq<Triple>)
    ensures r == was + PermTriples(p, permission)
  {
    r := AppendTriples(p.groupIds, GROUP, permission, was);
    r := AppendTriples(p.userIds, USER, permission, r);
  }

  method ConvertToGrants(resourceType: string, l: Legacy) returns (r: seq<Triple>)
    ensures r == ToGrants(resourceType, l)
  {
    r := [];
    match l
    case Null =>
      if resourceType != "file" {
        r := [PUBLIC_READ];
      }
    case Empty =>
    case Lists(read, write) =>
      r := AppendPerm(read, "read", []);
      r := AppendPerm(write, "write", r);
  }

  function AppendNew(s: seq<Id>, x: Id): (r: seq<Id>) {
    if x in s then s else s + [x]
  }

  /** The principals of one kind with one permission, each once, in order; a public reader is no user id. */
  function IdsOf(gs: seq<Triple>, principalType: string, permission: string): (r: seq<Id>) {
    if gs == [] then []
    else
      var rest, g := IdsOf(gs[..|gs| - 1], principalType, permission), gs[|gs| - 1];
      if g.principalType == principalType && g.permission == permission && g != PUBLIC_READ
      then AppendNew(rest, g.principalId) else rest
  }

  function Collected(gs: seq<Triple>): (r: Legacy) {
    Lists(PermIds(IdsOf(gs, GROUP, "read"), IdsOf(gs, USER, "read")),
          PermIds(IdsOf(gs, GROUP, "write"), IdsOf(gs, USER, "write")))
  }

  /** `grants_to_access_control`. */
  function FromGrants(gs: seq<Triple>): (r: Legacy) {
    if gs == [] then Empty else if PUBLIC_READ in gs then Null else Collected(gs)
  }

  method ConvertFromGrants(gs: seq<Triple>) returns (r: Legacy)
    ensures r == FromGrants(gs)
  {
    if gs == [] {
      return Empty;
    }
    var read, write := PermIds([], []), PermIds([], []);
    var isPublic := false;
    var n := 0;
    while n < |gs|
      invariant 0 <= n <= |gs|
      invariant isPublic <==> PUBLIC_READ in gs[..n]
      invariant Lists(read, write) == Collected(gs[..n])
    {
      var g := gs[n];
      assert gs[..n + 1] == gs[..n] + [g];
      assert gs[..n + 1][..n] == gs[..n];
      DistinctKinds();
      if g == PUBLIC_READ {
        isPublic := true;
      } else if g.permission == "read" {
        if g.principalType == GROUP {
          read := read.(groupIds := AppendNew(read.groupIds, g.principalId));
        } else if g.principalType == USER {
          read := read.(userIds := AppendNew(read.userIds, g.principalId));
        }
      } else if g.permission == "write" {
        if g.principalType == GROUP {
          write := write.(groupIds := AppendNew(write.groupIds, g.principalId));
        } else if g.principalType == USER {
          write := write.(userIds := AppendNew(write.userIds, g.principalId));
        }
      }
      n := n + 1;
    }
    assert gs[..n] == gs;
    r := if isPublic then Null else Lists(read, write);
  }

  lemma DistinctKinds()
    ensures USER != GROUP && "read" != "write"
  {
    assert USER[0] != GROUP[0] && "read"[0] != "write"[0];
  }

  // ----- there and back -----

  /** Each id at its first place. */
  function Dedup(s: seq<Id>): (r: seq<Id>) {
    if s == [] then [] else AppendNew(Dedup(s[..|s| - 1]), s[|s| - 1])
  }

  lemma {:induction false} DedupExact(s: seq<Id>)
    ensures NoDup(Dedup(s)) && forall x :: x in Dedup(s) <==> x in s
  {
    if s != [] {
      DedupExact(s[..|s| - 1]);
      assert s == s[..|s| - 1] + [s[|s| - 1]];
    }
  }

  /** Collecting continues over concatenation: only new ids are appended. */
  /** Each id keeps its first place: of two different ids, the one seen first comes first. */
  lemma {:induction false} DedupOrder(s: seq<Id>, a: Id, b: Id)
    requires a != b
    ensures Before(Dedup(s), a, b) <==> FirstSeen(s, a, b)
  {
    if s != [] {
      var init, x := s[..|s| - 1], s[|s| - 1];
      assert s == init + [x];
      DedupOrder(init, a, b);
      DedupExact(init);
      DedupExact(s);
      ConcatBefore(Dedup(init), [x], a, b);
      FirstSeenLonger(init, x, a, b);
      BeforeMeansIn(Dedup(init), a, b);
      assert !Before([x], a, b);
    }
  }

  /** `b` occurs, and `a` before its first occurrence. */
  ghost predicate FirstSeen(s: seq<Id>, a: Id, b: Id) {
    exists j :: 0 <= j < |s| && s[j] == b && b !in s[..j] && a in s[..j]
  }

  lemma FirstSeenLonger(s: seq<Id>, x: Id, a: Id, b: Id)
    requires a != b
    ensures FirstSeen(s + [x], a, b) <==> FirstSeen(s, a, b) || (x == b && b !in s && a in s)
  {
    var t := s + [x];
    assert t[..|s|] == s;
    if FirstSeen(t, a, b) {
      var j :| 0 <= j < |t| && t[j] == b && b !in t[..j] && a in t[..j];
      if j < |s| {
        assert t[..j] == s[..j] && s[j] == b;
      }
    }
    if FirstSeen(s, a, b) {
      var j :| 0 <= j < |s| && s[j] == b && b !in s[..j] && a in s[..j];
      assert t[..j] == s[..j] && t[j] == b;
    } else if x == b && b !in s && a in s {
      assert t[|s|] == b;
    }
  }

  function AppendAll(s: seq<Id>, ids: seq<Id>): (r: seq<Id>) {
    if ids == [] then s else AppendNew(AppendAll(s, ids[..|ids| - 1]), ids[|ids| - 1])
  }

  lemma {:induction false} AppendAllDedup(ids: seq<Id>)
    ensures AppendAll([], ids) == Dedup(ids)
  {
    if ids != [] {
      AppendAllDedup(ids[..|ids| - 1]);
    }
  }

  lemma {:induction false} TriplesSnoc(ids: seq<Id>, t: string, p: string)
    requires ids != []
    ensures Triples(ids, t, p) == Triples(ids[..|ids| - 1], t, p) + [Triple(t, ids[|ids| - 1], p)]
  {
    if |ids| > 1 {
      TriplesSnoc(ids[1..], t, p);
      assert ids[1..][..|ids| - 2] == ids[..|ids| - 1][1..];
    } else {
      assert ids[..0] == [] && ids[1..] == [];
    }
  }

  lemma {:induction false} IdsOfTriples(gs: seq<Triple>, ids: seq<Id>, t: string, p: string, t': string, p': string)
    requires t == USER && p == "read" ==> ANYONE !in ids
    ensures IdsOf(gs + Triples(ids, t, p), t', p') ==
            if t == t' && p == p' then AppendAll(IdsOf(gs, t', p'), ids) else IdsOf(gs, t', p')
    decreases |ids|
  {
    if ids == [] {
      assert gs + Triples(ids, t, p) == gs;
    } else {
      var init, last := ids[..|ids| - 1], ids[|ids| - 1];
      TriplesSnoc(ids, t, p);
      IdsOfTriples(gs, init, t, p, t', p');
      var all := gs + Triples(ids, t, p);
      assert all == (gs + Triples(init, t, p)) + [Triple(t, last, p)];
      assert all[..|all| - 1] == gs + Triples(init, t, p);
      assert last in ids;
    }
  }

  lemma {:induction false} TriplesExact(ids: seq<Id>, t: string, p: string)
    ensures |Triples(ids, t, p)| == |ids|
    ensures forall x :: x in Triples(ids, t, p) <==> x.principalType == t && x.permission == p && x.principalId in ids
  {
    if ids != [] {
      TriplesExact(ids[1..], t, p);
    }
  }

  lemma CollectedBack(l: Legacy, principalType: string, permission: string)
    requires l.Lists? && ANYONE !in l.read.userIds
    requires (principalType == GROUP || principalType == USER) && (permission == "read" || permission == "write")
    ensures IdsOf(PermTriples(l.read, "read") + PermTriples(l.write, "write"), principalType, permission) ==
            Dedup(var p := if permission == "read" then l.read else l.write;
                  if principalType == GROUP then p.groupIds else p.userIds)
  {
    DistinctKinds();
    var a, b := Triples(l.read.groupIds, GROUP, "read"), Triples(l.read.userIds, USER, "read");
    var c, d := Triples(l.write.groupIds, GROUP, "write"), Triples(l.write.userIds, USER, "write");
    assert PermTriples(l.read, "read") + PermTriples(l.write, "write") == [] + a + b + c + d;
    IdsOfTriples([], l.read.groupIds, GROUP, "read", principalType, permission);
    IdsOfTriples([] + a, l.read.userIds, USER, "read", principalType, permission);
    IdsOfTriples([] + a + b, l.write.groupIds, GROUP, "write", principalType, permission);
    IdsOfTriples([] + a + b + c, l.write.userIds, USER, "write", principalType, permission);
    AppendAllDedup(l.read.groupIds);
    AppendAllDedup(l.read.userIds);
    AppendAllDedup(l.write.groupIds);
    AppendAllDedup(l.write.userIds);
  }

  predicate NamesNobody(l: Legacy) {
    l.Lists? && l.read.groupIds == [] && l.read.userIds == [] && l.write.groupIds == [] && l.write.userIds == []
  }

  /** What comes back of a legacy value, in every case. A structured value returns as itself, each list
      deduplicated in order, exactly when it names someone and no wildcard reader. */
  lemma LegacyRoundTrip(resourceType: string, l: Legacy)
    ensures FromGrants(ToGrants(resourceType, l)) ==
            match l
            case Null => if resourceType == "file" then Empty else Null
            case Empty => Empty
            case Lists(read, write) =>
              if NamesNobody(l) then Empty
              else if ANYONE in read.userIds then Null
              else Lists(PermIds(Dedup(read.groupIds), Dedup(read.userIds)),
                         PermIds(Dedup(write.groupIds), Dedup(write.userIds)))
  {
    if l.Lists? {
      DistinctKinds();
      TriplesExact(l.read.groupIds, GROUP, "read");
      TriplesExact(l.read.userIds, USER, "read");
      TriplesExact(l.write.groupIds, GROUP, "write");
      TriplesExact(l.write.userIds, USER, "write");
      assert PUBLIC_READ in ToGrants(resourceType, l) <==> ANYONE in l.read.userIds;
      if ANYONE !in l.read.userIds {
        CollectedBack(l, GROUP, "read");
        CollectedBack(l, USER, "read");
        CollectedBack(l, GROUP, "write");
        CollectedBack(l, USER, "write");
      }
    }
  }

  predicate ValidTriple(g: Triple) {
    && (g.principalType == USER || g.principalType == GROUP)
    && (g.permission == "read" || g.permission == "write")
  }

  lemma {:induction false} IdsOfExact(gs: seq<Triple>, t: string, p: string, x: Id)
    ensures x in IdsOf(gs, t, p) <==> Triple(t, x, p) in gs && Triple(t, x, p) != PUBLIC_READ
  {
    if gs != [] {
      assert gs == gs[..|gs| - 1] + [gs[|gs| - 1]];
      IdsOfExact(gs[..|gs| - 1], t, p, x);
    }
  }

  /** Valid grants survive the trip through the legacy form as a set exactly when public read does not occur, or
      comes alone and not for a file. */
  lemma GrantsRoundTrip(resourceType: string, gs: seq<Triple>)
    requires forall g :: g in gs ==> ValidTriple(g)
    ensures (forall g :: g in ToGrants(resourceType, FromGrants(gs)) <==> g in gs) <==>
            (PUBLIC_READ !in gs || (resourceType != "file" && forall g :: g in gs ==> g == PUBLIC_READ))
  {
    if gs != [] && PUBLIC_READ !in gs {
      forall g ensures g in ToGrants(resourceType, FromGrants(gs)) <==> g in gs {
        CollectedExact(gs, g);
      }
    }
  }

  /** A public file becomes private. */
  lemma PublicFileLost()
    ensures ToGrants("file", FromGrants([PUBLIC_READ])) == []
  {
    assert PUBLIC_READ in [PUBLIC_READ];
  }

  /** Public read with a writer beside it: the writer does not come back. */
  lemma WriterLost(u: Id, resourceType: string) returns (gs: seq<Triple>)
    ensures Triple(USER, u, "write") in gs && forall g :: g in gs ==> ValidTriple(g)
    ensures Triple(USER, u, "write") !in ToGrants(resourceType, FromGrants(gs))
  {
    DistinctKinds();
    gs := [PUBLIC_READ, Triple(USER, u, "write")];
    assert gs[0] in gs && gs[1] in gs;
    assert Triple(USER, u, "write") != PUBLIC_READ;
  }

  lemma CollectedExact(gs: seq<Triple>, g: Triple)
    requires PUBLIC_READ !in gs && forall x :: x in gs ==> ValidTriple(x)
    ensures g in ToGrants("", Collected(gs)) <==> g in gs
  {
    DistinctKinds();
    TriplesExact(IdsOf(gs, GROUP, "read"), GROUP, "read");
    TriplesExact(IdsOf(gs, USER, "read"), USER, "read");
    TriplesExact(IdsOf(gs, GROUP, "write"), GROUP, "write");
    TriplesExact(IdsOf(gs, USER, "write"), USER, "write");
    IdsOfExact(gs, g.principalType, g.permission, g.principalId);
    assert g == Triple(g.principalType, g.principalId, g.permission);
  }

  /** The grants of a structured legacy value: its group ids and user ids, each with the permission it is under. */
  lemma GrantsOfLegacy(resourceType: string, read: PermIds, write: PermIds, g: Triple)
    ensures g in ToGrants(resourceType, Lists(read, write)) <==>
            || (g.principalType == "group" && g.permission == "read" && g.principalId in read.groupIds)
            || (g.principalType == "user" && g.permission == "read" && g.principalId in read.userIds)
            || (g.principalType == "group" && g.permission == "write" && g.principalId in write.groupIds)
            || (g.principalType == "user" && g.permission == "write" && g.principalId in write.userIds)
  {
    TriplesExact(read.groupIds, GROUP, "read");
    TriplesExact(read.userIds, USER, "read");
    TriplesExact(write.groupIds, GROUP, "write");
    TriplesExact(write.userIds, USER, "write");
    assert g == Triple(g.principalType, g.principalId, g.permission);
  }

  lemma {:induction false} TriplesAt(ids: seq<Id>, t: string, p: string)
    ensures |Triples(ids, t, p)| == |ids|
    ensures forall i :: 0 <= i < |ids| ==> Triples(ids, t, p)[i] == Triple(t, ids[i], p)
  {
    if ids != [] {
      TriplesAt(ids[1..], t, p);
    }
  }

  /** They come in order: groups before users, readers before writers, each list as it is. */
  lemma GrantsInOrder(resourceType: string, read: PermIds, write: PermIds, i: nat)
    ensures var gs := ToGrants(resourceType, Lists(read, write));
            var rg, ru, wg := |read.groupIds|, |read.userIds|, |write.groupIds|;
            && |gs| == rg + ru + wg + |write.userIds|
            && (i < rg ==> gs[i] == Triple("group", read.groupIds[i], "read"))
            && (i < ru ==> gs[rg + i] == Triple("user", read.userIds[i], "read"))
            && (i < wg ==> gs[rg + ru + i] == Triple("group", write.groupIds[i], "write"))
            && (i < |write.userIds| ==> gs[rg + ru + wg + i] == Triple("user", write.userIds[i], "write"))
  {
    TriplesAt(read.groupIds, GROUP, "read");
    TriplesAt(read.userIds, USER, "read");
    TriplesAt(write.groupIds, GROUP, "write");
    TriplesAt(write.userIds, USER, "write");
  }

  /** No value is public reading, except for files; the empty one is private. */
  lemma GrantsOfSimple(resourceType: string)
    ensures ToGrants(resourceType, Null) == if resourceType == "file" then [] else [Triple("user", "*", "read")]
    ensures ToGrants(resourceType, Empty) == []
  {
  }

  /** The legacy value of grants: none at all if a public reader is among them, else each list holds exactly the
      principals of its kind with its permission. */
  lemma LegacyOfGrants(gs: seq<Triple>, x: Id)
    ensures FromGrants([]) == Empty
    ensures Triple("user", "*", "read") in gs ==> FromGrants(gs) == Null
    ensures gs != [] && Triple("user", "*", "read") !in gs ==>
              var l := FromGrants(gs);
              && l.Lists?
              && (x in l.read.groupIds <==> Triple("group", x, "read") in gs)
              && (x in l.read.userIds <==> Triple("user", x, "read") in gs)
              && (x in l.write.groupIds <==> Triple("group", x, "write") in gs)
              && (x in l.write.userIds <==> Triple("user", x, "write") in gs)
  {
    IdsOfExact(gs, "group", "read", x);
    IdsOfExact(gs, "user", "read", x);
    IdsOfExact(gs, "group", "write", x);
    IdsOfExact(gs, "user", "write", x);
    DistinctKinds();
  }

  // ----- set_access_grants -----

  /** One entry of an `access_grants` payload; a missing or non-string field is "". */
  predicate Acceptable(g: Triple) {
    ValidTriple(g) && g.principalId != ""
  }

  function Normalized(input: seq<Triple>): (r: seq<Triple>) {
    if input == [] then []
    else
      var rest, g := Normalized(input[..|input| - 1]), input[|input| - 1];
      if Acceptable(g) && g !in rest then rest + [g] else rest
  }

  lemma {:induction false} NormalizedExact(input: seq<Triple>)
    ensures NoDup(Normalized(input))
    ensures forall g :: g in Normalized(input) <==>
              && g in input && (g.principalType == "user" || g.principalType == "group")
              && (g.permission == "read" || g.permission == "write") && g.principalId != ""
  {
    if input != [] {
      assert input == input[..|input| - 1] + [input[|input| - 1]];
      NormalizedExact(input[..|input| - 1]);
    }
  }

  function OnResource(resourceType: string, id: Id, t: Triple): (r: Grant) {
    Grant(resourceType, id, t.principalType, t.principalId, t.permission)
  }

  class GrantTable {
    var rows: set<Grant>

    /** `set_access_grants`: replaces the grants of one resource by the valid ones of the payload. */
    method SetAccessGrants(resourceType: string, id: Id, input: seq<Triple>)
      modifies this
      ensures forall kind, who, p :: Grant(resourceType, id, kind, who, p) in rows <==>
                && Triple(kind, who, p) in input && (kind == "user" || kind == "group")
                && (p == "read" || p == "write") && who != ""
      ensures forall g: Grant :: !(g.resourceType == resourceType && g.resourceId == id) ==> (g in rows <==>
                g in old(rows))
    {
      rows := set g | g in rows && !(g.resourceType == resourceType && g.resourceId == id);
      ghost var kept := rows;
      NormalizedExact(input);
      var n := 0;
      var normalized := [];
      while n < |input|
        invariant 0 <= n <= |input|
        invariant normalized == Normalized(input[..n])
      {
        assert input[..n + 1][..n] == input[..n];
        if Acceptable(input[n]) && input[n] !in normalized {
          normalized := normalized + [input[n]];
        }
        n := n + 1;
      }
      assert input[..n] == input;
      n := 0;
      while n < |normalized|
        invariant 0 <= n <= |normalized|
        invariant rows == kept + (set t | t in normalized[..n] :: OnResource(resourceType, id, t))
      {
        assert normalized[..n + 1] == normalized[..n] + [normalized[n]];
        rows := rows + {OnResource(resourceType, id, normalized[n])};
        n := n + 1;
      }
      assert normalized[..n] == normalized;
      forall t ensures OnResource(resourceType, id, t) in rows <==> t in normalized {
        if OnResource(resourceType, id, t) in rows {
          var x :| x in normalized && OnResource(resourceType, id, t) == OnResource(resourceType, id, x);
          assert t == x;
        }
      }
    }
  }
}
