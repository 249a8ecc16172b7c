/** The automation table as a work queue claimed by several workers (models/automations.py). */
module Automations {
  import opened Basics

  datatype Automation = Automation(active: bool, lastRunAt: Option<int>, nextRunAt: Option<int>)

  type Rows = map<Id, Automation>

  predicate IsDue(rows: Rows, now: int, id: Id) {
    id in rows && rows[id].active && rows[id].nextRunAt.Some? && rows[id].nextRunAt.value <= now
  }

  function Due(rows: Rows, now: int): (r: set<Id>) {
    set id | id in rows && IsDue(rows, now, id)
  }

  /** When a due row is due. */
  function DueAt(rows: Rows, id: Id): (r: int) {
    if id in rows && rows[id].nextRunAt.Some? then rows[id].nextRunAt.value else 0
  }

  ghost predicate Sorted(rows: Rows, ids: seq<Id>) {
    forall i, j :: 0 <= i < j < |ids| ==> DueAt(rows, ids[i]) <= DueAt(rows, ids[j])
  }

  /** What the query of `claim_due` may return: up to `limit` due rows that nobody has locked, earliest first. */
  ghost predicate Selection(rows: Rows, locked: set<Id>, now: int, limit: nat, picked: seq<Id>) {
    && NoDup(picked) && |picked| <= limit && Sorted(rows, picked)
    && (forall id :: id in picked ==> id in Due(rows, now) && id !in locked)
    && (forall id :: id in Due(rows, now) && id !in locked && id !in picked ==>
          |picked| == limit && forall p :: p in picked ==> DueAt(rows, p) <= DueAt(rows, id))
  }

  lemma Earliest(rows: Rows, s: set<Id>) returns (m: Id)
    requires s != {}
    ensures m in s && forall id :: id in s ==> DueAt(rows, m) <= DueAt(rows, id)
    decreases |s|
  {
    m :| m in s;
    if s != {m} {
      var rest := Earliest(rows, s - {m});
      if DueAt(rows, rest) < DueAt(rows, m) {
        m := rest;
      }
    }
  }

  /** The query always has an answer. */
  lemma {:induction false} SelectionExists(rows: Rows, locked: set<Id>, now: int, limit: nat) returns (picked: seq<Id>)
    ensures Selection(rows, locked, now, limit, picked)
    decreases limit
  {
    if limit == 0 {
      picked := [];
    } else {
      var init := SelectionExists(rows, locked, now, limit - 1);
      var left := Due(rows, now) - locked - Elems(init);
      if left == {} {
        picked := init;
      } else {
        var m := Earliest(rows, left);
        picked := init + [m];
        ConcatNoDup(init, [m]);
        forall i | 0 <= i < |init| ensures DueAt(rows, init[i]) <= DueAt(rows, m) {
          assert init[i] in init && m in left;
        }
        assert m !in init;
      }
      forall id | id in Due(rows, now) && id !in locked && id !in picked
        ensures |picked| == limit && forall p :: p in picked ==> DueAt(rows, p) <= DueAt(rows, id)
      {
        assert id in left;
      }
    }
  }

  /** A next run is none, or later than the claim. */
  predicate Later(next: Option<int>, than: int) {
    next.None? || next.value > than
  }

  /** The claimed rows advanced: the run recorded and the next one scheduled. */
  function Advanced(rows: Rows, ids: seq<Id>, now: int, nexts: map<Id, Option<int>>): (r: Rows)
    requires forall id :: id in ids ==> id in nexts
  {
    map id | id in rows ::
      if id in ids then rows[id].(lastRunAt := Some(now), nextRunAt := nexts[id]) else rows[id]
  }

  class AutomationTable {
    var rows: Rows

    /** `claim_due` as one atomic call: `picked` is what the query returned, `nexts` the rescheduled times. */
    method ClaimDue(now: int, limit: nat, picked: seq<Id>, nexts: map<Id, Option<int>>) returns (batch: seq<Automation>)
      requires Selection(rows, {}, now, limit, picked)
      requires forall id :: id in picked ==> id in nexts && Later(nexts[id], now)
      modifies this
      ensures rows == Advanced(old(rows), picked, now, nexts)
      ensures |batch| == |picked| && forall i :: 0 <= i < |batch| ==> batch[i] == rows[picked[i]]
      ensures Due(rows, now) == old(Due(rows, now)) - Elems(picked)
      ensures rows.Keys == old(rows).Keys
      ensures forall id :: id in rows ==>
                && rows[id].active == old(rows)[id].active
                && (id in picked ==> rows[id].lastRunAt == Some(now) && rows[id].nextRunAt == nexts[id])
                && (id !in picked ==> rows[id] == old(rows)[id])
    {
      ghost var was := rows;
      var n := 0;
      while n < |picked|
        invariant 0 <= n <= |picked| && rows.Keys == was.Keys
        invariant rows == Advanced(was, picked[..n], now, nexts)
      {
        assert picked[..n + 1] == picked[..n] + [picked[n]];
        assert picked[n] in picked;
        rows := rows[picked[n] := rows[picked[n]].(lastRunAt := Some(now), nextRunAt := nexts[picked[n]])];
        n := n + 1;
      }
      assert picked[..n] == picked;
      var final := rows;
      assert forall i :: 0 <= i < |picked| ==> picked[i] in picked && picked[i] in final;
      batch := seq(|picked|, i requires 0 <= i < |picked| && picked[i] in final => final[picked[i]]);
    }

    /** A step of the worker model, and due exactly if active and the first time has come. */
    method Insert(id: Id, active: bool, next: int)
      requires id !in rows
      modifies this
      ensures rows == old(rows)[id := Automation(active, None, Some(next))]
      ensures forall w: World :: w.rows == old(rows) && Possible(w, Add(id, active, next)) ==>
                rows == After(w, Add(id, active, next)).rows
      ensures forall now :: Due(rows, now) == Due(old(rows), now) + if active && next <= now then {id} else {}
    {
      rows := rows[id := Automation(active, None, Some(next))];
    }

    /** A step of the worker model: the row becomes due exactly if it is active and the given time has come. */
    method UpdateById(id: Id, active: Option<bool>, next: Option<int>) returns (found: bool)
      modifies this
      ensures found == (id in old(rows))
      ensures rows == if found then old(rows)[id := old(rows)[id].(
                active := if active.Some? then active.value else old(rows)[id].active, nextRunAt := next)]
                    else old(rows)
      ensures found ==> forall w: World :: w.rows == old(rows) && Possible(w, Change(id, rows[id].active, next)) ==>
                rows == After(w, Change(id, rows[id].active, next)).rows
      ensures found ==> DueExactly(old(rows), rows, id, rows[id].active, next)
    {
      found := id in rows;
      if found {
        var row := rows[id];
        if active.Some? {
          row := row.(active := active.value);
        }
        rows := rows[id := row.(nextRunAt := next)];
      }
    }

    /** A step of the worker model: a row toggled off is never due, one toggled on when the given time has come. */
    method Toggle(id: Id, next: Option<int>) returns (found: bool)
      modifies this
      ensures found == (id in old(rows))
      ensures rows == if found then old(rows)[id := old(rows)[id].(active := !old(rows)[id].active,
                nextRunAt := if !old(rows)[id].active then next else None)] else old(rows)
      ensures found ==> forall w: World :: w.rows == old(rows) && Possible(w, Toggled(old(rows), id, next)) ==>
                rows == After(w, Toggled(old(rows), id, next)).rows
      ensures found ==> DueExactly(old(rows), rows, id, !old(rows)[id].active, next)
    {
      found := id in rows;
      if found {
        var row := rows[id].(active := !rows[id].active);
        rows := rows[id := row.(nextRunAt := if row.active then next else None)];
      }
    }
  }

  /** The row `id` is due in `rows` exactly if it is active and its time has come; no other row's dueness changes. */
  ghost predicate DueExactly(was: Rows, rows: Rows, id: Id, active: bool, next: Option<int>) {
    forall now, k :: IsDue(rows, now, k) <==>
      if k == id then active && next.Some? && next.value <= now else IsDue(was, now, k)
  }

  function Toggled(rows: Rows, id: Id, next: Option<int>): (e: Event)
    requires id in rows
  {
    Change(id, !rows[id].active, if rows[id].active then None else next)
  }

  // ----- several workers -----

  type WorkerId = nat

  datatype Claim = Claim(now: int, ids: seq<Id>)

  /** The table, the rows each worker has locked, and for every automation the times it was claimed. */
  datatype World = World(rows: Rows, held: map<WorkerId, Claim>, log: map<Id, seq<int>>)

  datatype Event =
    | Lock(worker: WorkerId, now: int, limit: nat, picked: seq<Id>)
    | Commit(worker: WorkerId, nexts: map<Id, Option<int>>)
    | Add(id: Id, active: bool, first: int)
    | Change(id: Id, active: bool, next: Option<int>)
    | Remove(id: Id)

  ghost function Locked(w: World): (r: set<Id>) {
    set k, id | k in w.held && id in w.held[k].ids :: id
  }

  function LogOf(log: map<Id, seq<int>>, id: Id): (r: seq<int>) {
    if id in log then log[id] else []
  }

  /** Locked rows are skipped by other claims, and any other write to them waits. Writes schedule runs after the last
      claim. */
  ghost predicate Possible(w: World, e: Event) {
    match e
    case Lock(k, now, limit, picked) => k !in w.held && Selection(w.rows, Locked(w), now, limit, picked)
    case Commit(k, nexts) =>
      k in w.held && forall id :: id in w.held[k].ids ==> id in nexts && Later(nexts[id], w.held[k].now)
    case Add(id, _, _) => id !in w.rows && LogOf(w.log, id) == []
    case Change(id, _, next) =>
      id in w.rows && id !in Locked(w)
      && (w.rows[id].lastRunAt.Some? ==> Later(next, w.rows[id].lastRunAt.value))
    case Remove(id) => id in w.rows && id !in Locked(w)
  }

  ghost function After(w: World, e: Event): (r: World)
    requires Possible(w, e)
  {
    match e
    case Lock(k, now, limit, picked) => w.(held := w.held[k := Claim(now, picked)])
    case Commit(k, nexts) =>
      var c := w.held[k];
      World(Advanced(w.rows, c.ids, c.now, nexts), w.held - {k},
            map id | id in w.log.Keys + Elems(c.ids) :: LogOf(w.log, id) + if id in c.ids then [c.now] else [])
    case Add(id, active, first) => w.(rows := w.rows[id := Automation(active, None, Some(first))])
    case Change(id, active, next) => w.(rows := w.rows[id := w.rows[id].(active := active, nextRunAt := next)])
    case Remove(id) => w.(rows := w.rows - {id})
  }

  /** An atomic claim is a lock followed by its commit, with no other worker holding rows. */
  lemma ClaimIsLockThenCommit(w: World, k: WorkerId, now: int, limit: nat, picked: seq<Id>, nexts: map<Id, Option<int>>)
    requires w.held == map[] && Selection(w.rows, {}, now, limit, picked)
    requires forall id :: id in picked ==> id in nexts && Later(nexts[id], now)
    ensures Locked(w) == {} && Possible(w, Lock(k, now, limit, picked))
    ensures var locked := After(w, Lock(k, now, limit, picked));
            && Possible(locked, Commit(k, nexts))
            && After(locked, Commit(k, nexts)).rows == Advanced(w.rows, picked, now, nexts)
            && After(locked, Commit(k, nexts)).held == map[]
  {
    assert Locked(w) == {};
  }

  ghost predicate Increasing(s: seq<int>) {
    forall i, j :: 0 <= i < j < |s| ==> s[i] < s[j]
  }

  /** The record of one automation: claims in increasing order, the last of them on the row, the next run after it. */
  ghost predicate RecordOk(w: World, id: Id) {
    var s := LogOf(w.log, id);
    && Increasing(s)
    && (id in w.rows ==>
          && w.rows[id].lastRunAt == (if s == [] then None else Some(s[|s| - 1]))
          && (s != [] ==> Later(w.rows[id].nextRunAt, s[|s| - 1])))
  }

  ghost predicate Exclusive(w: World) {
    forall k, l, id :: k in w.held && l in w.held && id in w.held[k].ids && id in w.held[l].ids ==> k == l
  }

  /** Locked rows are still there and still due for the claim that locked them. */
  ghost predicate HeldDue(w: World) {
    forall k, id :: k in w.held && id in w.held[k].ids ==>
      id in w.rows && w.rows[id].nextRunAt.Some? && w.rows[id].nextRunAt.value <= w.held[k].now
  }

  ghost predicate Safe(w: World) {
    Exclusive(w) && HeldDue(w) && forall id :: RecordOk(w, id)
  }

  lemma CommitRecord(w: World, e: Event, id: Id)
    requires Safe(w) && Possible(w, e) && e.Commit?
    ensures RecordOk(After(w, e), id)
  {
    var c := w.held[e.worker];
    var s := LogOf(w.log, id);
    assert RecordOk(w, id);
    if id in c.ids {
      assert LogOf(After(w, e).log, id) == s + [c.now];
    } else {
      assert LogOf(After(w, e).log, id) == s;
    }
  }

  lemma StepKeepsSafe(w: World, e: Event)
    requires Safe(w) && Possible(w, e)
    ensures Safe(After(w, e))
  {
    var n := After(w, e);
    match e
    case Lock(k, now, limit, picked) =>
      assert forall id :: RecordOk(w, id) ==> RecordOk(n, id);
    case Commit(k, nexts) =>
      forall id ensures RecordOk(n, id) {
        CommitRecord(w, e, id);
      }
    case Add(id, _, _) =>
      forall i ensures RecordOk(n, i) {
        assert RecordOk(w, i);
      }
    case Change(id, _, _) =>
      forall i ensures RecordOk(n, i) {
        assert RecordOk(w, i);
      }
    case Remove(id) =>
      forall i ensures RecordOk(n, i) {
        assert RecordOk(w, i);
      }
  }

  ghost predicate Run(ws: seq<World>, es: seq<Event>) {
    && |ws| == |es| + 1
    && forall i :: 0 <= i < |es| ==> Possible(ws[i], es[i]) && ws[i + 1] == After(ws[i], es[i])
  }

  lemma {:induction false} RunSafe(ws: seq<World>, es: seq<Event>, n: nat)
    requires Run(ws, es) && n < |ws| && Safe(ws[0])
    ensures Safe(ws[n])
  {
    if n > 0 {
      RunSafe(ws, es, n - 1);
      StepKeepsSafe(ws[n - 1], es[n - 1]);
    }
  }

  /** Claims are exclusive: over any interleaving from an unclaimed table no two workers hold one automation,
      and the successive claims of each automation have strictly increasing times. */
  lemma ClaimsExclusive(ws: seq<World>, es: seq<Event>, n: nat)
    requires Run(ws, es) && n < |ws|
    requires ws[0].held == map[] && ws[0].log == map[] && forall id :: id in ws[0].rows ==>
              ws[0].rows[id].lastRunAt.None?
    ensures Exclusive(ws[n]) && forall id :: Increasing(LogOf(ws[n].log, id))
  {
    assert Safe(ws[0]) by {
      forall id ensures RecordOk(ws[0], id) {
      }
    }
    RunSafe(ws, es, n);
    forall id ensures Increasing(LogOf(ws[n].log, id)) {
      assert RecordOk(ws[n], id);
    }
  }

  // ----- draining -----

  /** Successive atomic claims at one time with one limit. */
  ghost predicate Drain(states: seq<Rows>, batches: seq<seq<Id>>, now: int, limit: nat) {
    && |states| == |batches| + 1
    && forall i :: 0 <= i < |batches| ==> DrainStep(states[i], batches[i], now, limit, states[i + 1])
  }

  ghost predicate DrainStep(rows: Rows, batch: seq<Id>, now: int, limit: nat, next: Rows) {
    && Selection(rows, {}, now, limit, batch)
    && exists nexts ::
         && (forall id :: id in batch ==> id in nexts && Later(nexts[id], now))
         && next == Advanced(rows, batch, now, nexts)
  }

  function Joined(batches: seq<seq<Id>>): (r: seq<Id>) {
    if batches == [] then [] else Joined(batches[..|batches| - 1]) + batches[|batches| - 1]
  }

  /** After some calls: what was claimed, in order, and what is left. */
  ghost predicate Drained(start: Rows, rows: Rows, claimed: seq<Id>, now: int) {
    && NoDup(claimed) && Sorted(start, claimed) && Elems(claimed) <= Due(start, now)
    && Due(rows, now) == Due(start, now) - Elems(claimed)
    && (forall id :: id in Due(rows, now) ==> rows[id] == start[id])
    && (forall id, p :: id in Due(rows, now) && p in claimed ==> DueAt(start, p) <= DueAt(start, id))
  }

  lemma DueAdvanced(rows: Rows, batch: seq<Id>, now: int, limit: nat, next: Rows)
    requires DrainStep(rows, batch, now, limit, next)
    ensures Due(next, now) == Due(rows, now) - Elems(batch)
    ensures forall id :: id in Due(next, now) ==> next[id] == rows[id]
  {
  }

  /** A claim takes `limit` rows or all that are left. */
  lemma BatchSize(rows: Rows, batch: seq<Id>, now: int, limit: nat, next: Rows)
    requires DrainStep(rows, batch, now, limit, next)
    ensures |batch| == if |Due(rows, now)| < limit then |Due(rows, now)| else limit
    ensures |Due(next, now)| == |Due(rows, now)| - |batch|
  {
    NoDupSize(batch);
    DueAdvanced(rows, batch, now, limit, next);
    assert Elems(batch) <= Due(rows, now);
    SubsetSize(Elems(batch), Due(rows, now));
    if |batch| < limit {
      assert Due(rows, now) == Elems(batch);
    }
  }

  /** The batch is sorted at its old due times, and nothing claimed before was due later. */
  lemma StillSorted(start: Rows, rows: Rows, claimed: seq<Id>, batch: seq<Id>)
    requires Sorted(start, claimed) && Sorted(rows, batch)
    requires forall id :: id in batch ==> DueAt(rows, id) == DueAt(start, id)
    requires forall id, p :: id in batch && p in claimed ==> DueAt(start, p) <= DueAt(start, id)
    ensures Sorted(start, claimed + batch)
  {
  }

  lemma DrainStepDrains(start: Rows, rows: Rows, claimed: seq<Id>, batch: seq<Id>, now: int, limit: nat, next: Rows)
    requires Drained(start, rows, claimed, now) && DrainStep(rows, batch, now, limit, next)
    ensures Drained(start, next, claimed + batch, now)
  {
    ConcatNoDup(claimed, batch);
    DueAdvanced(rows, batch, now, limit, next);
    StillSorted(start, rows, claimed, batch);
    assert Elems(claimed + batch) == Elems(claimed) + Elems(batch);
    forall id, p | id in Due(next, now) && p in claimed + batch ensures DueAt(start, p) <= DueAt(start, id) {
      if p in batch {
        assert DueAt(rows, p) <= DueAt(rows, id);
      }
    }
  }

  lemma {:induction false} DrainProgress(states: seq<Rows>, batches: seq<seq<Id>>, now: int, limit: nat, n: nat)
    requires Drain(states, batches, now, limit) && n < |states|
    ensures Drained(states[0], states[n], Joined(batches[..n]), now)
  {
    if n > 0 {
      DrainProgress(states, batches, now, limit, n - 1);
      assert batches[..n][..n - 1] == batches[..n - 1];
      DrainStepDrains(states[0], states[n - 1], Joined(batches[..n - 1]), batches[n - 1], now, limit, states[n]);
    }
  }

  lemma {:induction false} DrainCount(states: seq<Rows>, batches: seq<seq<Id>>, now: int, limit: nat, n: nat)
    requires Drain(states, batches, now, limit) && n < |states|
    ensures |Due(states[n], now)| == Left(|Due(states[0], now)|, limit, n)
  {
    if n > 0 {
      var m: nat := n - 1;
      DrainCount(states, batches, now, limit, m);
      assert DrainStep(states[m], batches[m], now, limit, states[m + 1]);
      BatchSize(states[m], batches[m], now, limit, states[m + 1]);
    }
  }

  /** What is left of `total` after `calls` times at most `limit` were taken. */
  function Left(total: nat, limit: nat, calls: nat): (r: nat)
    decreases calls
  {
    if calls == 0 then total
    else
      var rest := Left(total, limit, calls - 1);
      if rest < limit then 0 else rest - limit
  }

  lemma {:induction false} LeftIs(total: nat, limit: nat, calls: nat)
    ensures Left(total, limit, calls) == if total < calls * limit then 0 else total - calls * limit
    decreases calls
  {
    if calls > 0 {
      LeftIs(total, limit, calls - 1);
      assert calls * limit == (calls - 1) * limit + limit;
    }
  }

  lemma NothingLeftIff(total: nat, limit: nat, calls: nat)
    requires limit >= 1
    ensures Left(total, limit, calls) == 0 <==> calls >= (total + limit - 1) / limit
  {
    LeftIs(total, limit, calls);
    CeilEnough(total, limit, calls);
  }

  /** No row is claimed twice by a drain, and rows are claimed earliest first. */
  lemma DrainsInOrder(states: seq<Rows>, batches: seq<seq<Id>>, now: int, limit: nat)
    requires Drain(states, batches, now, limit)
    ensures NoDup(Joined(batches)) && Sorted(states[0], Joined(batches)) &&
              Elems(Joined(batches)) <= Due(states[0], now)
    ensures Due(states[|batches|], now) == Due(states[0], now) - Elems(Joined(batches))
  {
    DrainProgress(states, batches, now, limit, |batches|);
    assert batches[..|batches|] == batches;
  }

  lemma AllClaimedIff(states: seq<Rows>, batches: seq<seq<Id>>, now: int, limit: nat)
    requires Drain(states, batches, now, limit)
    ensures Elems(Joined(batches)) == Due(states[0], now) <==> Left(|Due(states[0], now)|, limit, |batches|) == 0
  {
    var all, claimed, left := Due(states[0], now), Elems(Joined(batches)), Due(states[|batches|], now);
    assert claimed <= all && left == all - claimed by { DrainsInOrder(states, batches, now, limit); }
    assert |left| == Left(|all|, limit, |batches|) by { DrainCount(states, batches, now, limit, |batches|); }
    assert claimed == all <==> left == {};
  }

  /** Every row due at the start has been claimed exactly when at least ceil(n / L) calls were made. */
  lemma DrainsInCeil(states: seq<Rows>, batches: seq<seq<Id>>, now: int, limit: nat)
    requires limit >= 1 && Drain(states, batches, now, limit)
    ensures Elems(Joined(batches)) == Due(states[0], now) <==>
            |batches| >= (|Due(states[0], now)| + limit - 1) / limit
  {
    AllClaimedIff(states, batches, now, limit);
    NothingLeftIff(|Due(states[0], now)|, limit, |batches|);
  }

  lemma CeilEnough(total: nat, limit: nat, k: nat)
    requires limit >= 1
    ensures k >= (total + limit - 1) / limit <==> total <= k * limit
  {
    var c := (total + limit - 1) / limit;
    assert c * limit <= total + limit - 1 < (c + 1) * limit;
    if k >= c {
      assert k * limit >= c * limit;
    } else {
      assert k * limit <= (c - 1) * limit;
    }
  }
}
