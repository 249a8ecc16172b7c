/** The in-process task registry (tasks.py) with the chat finalizer of main.py. */
module Tasks {
  import opened Basics

  type TaskId = string
  type Item = Option<string>

  /** The two module-level dictionaries. */
  datatype Registry = Registry(tasks: set<TaskId>, items: map<Item, seq<TaskId>>)

  predicate Truthy(i: Item) {
    i.Some? && i.value != ""
  }

  function ListOf(r: Registry, i: Item): (ids: seq<TaskId>) {
    if i in r.items then r.items[i] else []
  }

  /** `list.remove`: drops the first occurrence. */
  function RemoveFirst(s: seq<TaskId>, t: TaskId): (r: seq<TaskId>) {
    if s == [] then [] else if s[0] == t then s[1..] else [s[0]] + RemoveFirst(s[1..], t)
  }

  function Created(r: Registry, t: TaskId, i: Item): (n: Registry) {
    Registry(r.tasks + {t}, r.items[i := ListOf(r, i) + [t]])
  }

  function Cleaned(r: Registry, t: TaskId, i: Item): (n: Registry) {
    Registry(r.tasks - {t},
             if Truthy(i) && t in ListOf(r, i)
             then (var rest := RemoveFirst(ListOf(r, i), t); if rest == [] then r.items - {i} else r.items[i := rest])
             else r.items)
  }

  function Stopped(r: Registry, t: TaskId): (n: Registry) {
    r.(tasks := r.tasks - {t})
  }

  class TaskRegistry {
    var tasks: set<TaskId>
    var itemTasks: map<Item, seq<TaskId>>

    constructor ()
      ensures View() == Registry({}, map[])
    {
      tasks, itemTasks := {}, map[];
    }

    ghost function View(): (r: Registry)
      reads this
    {
      Registry(tasks, itemTasks)
    }

    /** `create_task`; the id is a fresh uuid. */
    method CreateTask(t: TaskId, i: Item)
      modifies this
      ensures View() == Created(old(View()), t, i)
    {
      tasks := tasks + {t};
      if i in itemTasks && itemTasks[i] != [] {
        itemTasks := itemTasks[i := itemTasks[i] + [t]];
      } else {
        assert ListOf(View(), i) + [t] == [t];
        itemTasks := itemTasks[i := [t]];
      }
    }

    /** `cleanup_task`. */
    method CleanupTask(t: TaskId, i: Item)
      modifies this
      ensures View() == Cleaned(old(View()), t, i)
    {
      tasks := tasks - {t};
      if Truthy(i) && i in itemTasks && t in itemTasks[i] {
        itemTasks := itemTasks[i := RemoveFirst(itemTasks[i], t)];
        if itemTasks[i] == [] {
          itemTasks := itemTasks - {i};
        }
      }
    }

    /** `stop_task`, up to the cancellation: the item list is left for the clean-up. */
    method StopTask(t: TaskId) returns (found: bool)
      modifies this
      ensures View() == Stopped(old(View()), t) && found == (t in old(tasks))
    {
      found := t in tasks;
      tasks := tasks - {t};
    }

    method HasActiveTasks(i: Item) returns (active: bool)
      ensures active <==> ListOf(View(), i) != []
    {
      active := i in itemTasks && |itemTasks[i]| > 0;
    }

    /** The end of `process_chat`: clean up, then report whether the chat has become inactive. */
    method FinishChatTask(t: TaskId, chat: Item) returns (inactive: bool)
      requires Truthy(chat)
      modifies this
      ensures View() == Cleaned(old(View()), t, chat)
      ensures inactive <==> ListOf(View(), chat) == []
    {
      CleanupTask(t, chat);
      var active := HasActiveTasks(chat);
      inactive := !active;
    }
  }

  // ----- interleavings -----

  /** Create, stop, the finalizer of a task and its done-callback, in any order. */
  datatype Event = Create(t: TaskId, i: Item) | Stop(t: TaskId) | Finalize(t: TaskId) | Done(t: TaskId)

  /** The registry with what has happened so far: tasks in creation order and their items, and which were stopped or
      cleaned. */
  datatype World = World(
    reg: Registry, order: seq<TaskId>, item: map<TaskId, Item>, stopped: set<TaskId>, cleaned: set<TaskId>)

  const START: World := World(Registry({}, map[]), [], map[], {}, {})

  /** A created task has a fresh id; the other events concern tasks that were created. Only tasks of a chat have the
      finalizer. */
  predicate Possible(w: World, e: Event) {
    match e
    case Create(t, _) => t !in w.item
    case Finalize(t) => t in w.item && Truthy(w.item[t])
    case _ => e.t in w.item
  }

  function After(w: World, e: Event): (n: World)
    requires Possible(w, e)
  {
    match e
    case Create(t, i) => w.(reg := Created(w.reg, t, i), order := w.order + [t], item := w.item[t := i])
    case Stop(t) => w.(reg := Stopped(w.reg, t), stopped := w.stopped + {t})
    case _ => w.(reg := Cleaned(w.reg, e.t, w.item[e.t]), cleaned := w.cleaned + {e.t})
  }

  /** The tasks of an item still to be cleaned; a falsy item is never cleaned. */
  ghost function Pending(w: World, i: Item): (r: set<TaskId>) {
    set t | t in w.item && w.item[t] == i && (Truthy(i) ==> t !in w.cleaned)
  }

  /** Each item lists exactly its pending tasks, in creation order; the task table holds the rest. */
  ghost predicate Consistent(w: World) {
    && NoDup(w.order) && (forall t :: t in w.order <==> t in w.item)
    && (forall i :: ListOf(w.reg, i) == Within(w.order, Pending(w, i)))
    && (forall i :: i in w.reg.items ==> w.reg.items[i] != [])
    && w.reg.tasks == w.item.Keys - w.stopped - w.cleaned
    && w.stopped <= w.item.Keys && w.cleaned <= w.item.Keys
  }

  lemma {:induction false} RemoveFirstIsFilter(s: seq<TaskId>, keep: set<TaskId>, t: TaskId)
    requires NoDup(s)
    ensures RemoveFirst(Within(s, keep), t) == Within(s, keep - {t})
  {
    if s == [] {
    } else if s[0] == t {
      WithinSame(s[1..], keep, keep - {t});
      RemoveFirstIsFilter(s[1..], keep, t);
      RemoveAbsent(Within(s[1..], keep), t);
    } else {
      RemoveFirstIsFilter(s[1..], keep, t);
    }
  }

  lemma {:induction false} RemoveAbsent(s: seq<TaskId>, t: TaskId)
    requires t !in s
    ensures RemoveFirst(s, t) == s
  {
    if s != [] {
      RemoveAbsent(s[1..], t);
    }
  }

  lemma CreatedPending(w: World, t: TaskId, i: Item, j: Item)
    requires t !in w.item && t !in w.cleaned
    ensures Pending(After(w, Create(t, i)), j) == if i == j then Pending(w, j) + {t} else Pending(w, j)
  {
  }

  lemma CreatedList(w: World, t: TaskId, i: Item, j: Item)
    requires Consistent(w) && t !in w.item
    ensures var n := After(w, Create(t, i)); ListOf(n.reg, j) == Within(n.order, Pending(n, j))
  {
    var was := Pending(w, j);
    CreatedPending(w, t, i, j);
    assert ListOf(w.reg, j) == Within(w.order, was);
    if i == j {
      WithinConcat(w.order, [t], was + {t});
      WithinSame(w.order, was + {t}, was);
    } else {
      WithinConcat(w.order, [t], was);
    }
  }

  lemma CreateKeepsConsistent(w: World, t: TaskId, i: Item)
    requires Consistent(w) && t !in w.item
    ensures Consistent(After(w, Create(t, i)))
  {
    ConcatNoDup(w.order, [t]);
    forall j ensures var n := After(w, Create(t, i)); ListOf(n.reg, j) == Within(n.order, Pending(n, j)) {
      CreatedList(w, t, i, j);
    }
  }

  lemma CleanKeepsConsistent(w: World, e: Event)
    requires Consistent(w) && (e.Finalize? || e.Done?) && Possible(w, e)
    ensures Consistent(After(w, e))
  {
    var n, t := After(w, e), e.t;
    var i := w.item[t];
    forall j ensures ListOf(n.reg, j) == Within(n.order, Pending(n, j)) {
      if j == i && Truthy(i) {
        assert Pending(n, i) == Pending(w, i) - {t};
        RemoveFirstIsFilter(w.order, Pending(w, i), t);
        if t !in ListOf(w.reg, i) {
          RemoveAbsent(ListOf(w.reg, i), t);
        }
      } else {
        assert Pending(n, j) == Pending(w, j);
      }
    }
  }

  lemma StepKeepsConsistent(w: World, e: Event)
    requires Consistent(w) && Possible(w, e)
    ensures Consistent(After(w, e))
  {
    match e
    case Create(t, i) => CreateKeepsConsistent(w, t, i);
    case Stop(t) =>
      forall j ensures Pending(After(w, e), j) == Pending(w, j) {
      }
    case _ => CleanKeepsConsistent(w, e);
  }

  ghost predicate Run(ws: seq<World>, es: seq<Event>) {
    && |ws| == |es| + 1
    && forall k :: 0 <= k < |es| ==> Possible(ws[k], es[k]) && ws[k + 1] == After(ws[k], es[k])
  }

  lemma {:induction false} RunConsistent(ws: seq<World>, es: seq<Event>, n: nat)
    requires Run(ws, es) && Consistent(ws[0]) && n < |ws|
    ensures Consistent(ws[n])
  {
    if n > 0 {
      RunConsistent(ws, es, n - 1);
      StepKeepsConsistent(ws[n - 1], es[n - 1]);
    }
  }

  /** Over every interleaving: item lists are non-empty, duplicate-free and disjoint, and every task not yet
      cleaned is listed under its own item. */
  lemma RegistryInvariant(ws: seq<World>, es: seq<Event>, n: nat)
    requires Run(ws, es) && ws[0] == START && n < |ws|
    ensures var w := ws[n];
            && (forall i :: i in w.reg.items ==> w.reg.items[i] != [] && NoDup(w.reg.items[i]))
            && (forall i, j, t :: i != j && t in ListOf(w.reg, i) ==> t !in ListOf(w.reg, j))
            && (forall t :: t in w.item && t !in w.cleaned ==> t in ListOf(w.reg, w.item[t]))
            && (forall i: Item, t :: i.Some? && i.value != "" && t in ListOf(w.reg, i) ==>
                  t in w.item && w.item[t] == i && t !in w.cleaned)
  {
    RunConsistent(ws, es, n);
    var w := ws[n];
    forall i | i in w.reg.items ensures NoDup(w.reg.items[i]) {
      WithinNoDup(w.order, Pending(w, i));
      assert w.reg.items[i] == ListOf(w.reg, i);
    }
  }

  /** A second clean-up of a task changes nothing. */
  lemma CleanTwice(w: World, t: TaskId)
    requires Consistent(w) && t in w.item
    ensures Cleaned(Cleaned(w.reg, t, w.item[t]), t, w.item[t]) == Cleaned(w.reg, t, w.item[t])
  {
    var n := After(w, Done(t));
    StepKeepsConsistent(w, Done(t));
    assert Truthy(w.item[t]) ==> t !in ListOf(n.reg, w.item[t]);
  }

  /** A falsy item lists every task ever created for it. */
  lemma FalsyListsAll(w: World, i: Item)
    requires Consistent(w) && !Truthy(i)
    ensures forall t :: t in ListOf(w.reg, i) <==> t in w.item && w.item[t] == i
  {
  }

  /** A task created without an item stays listed under it, whatever happens afterwards. */
  lemma FalsyStaysListed(ws: seq<World>, es: seq<Event>, m: nat, n: nat, t: TaskId)
    requires Run(ws, es) && Consistent(ws[0]) && m <= n < |ws|
    requires t in ws[m].item && (ws[m].item[t] == None || ws[m].item[t] == Some(""))
    ensures t in ListOf(ws[n].reg, ws[m].item[t])
  {
    ItemKept(ws, es, m, n, t);
    RunConsistent(ws, es, n);
    FalsyListsAll(ws[n], ws[m].item[t]);
  }

  lemma {:induction false} ItemKept(ws: seq<World>, es: seq<Event>, m: nat, n: nat, t: TaskId)
    requires Run(ws, es) && m <= n < |ws| && t in ws[m].item
    ensures t in ws[n].item && ws[n].item[t] == ws[m].item[t]
    decreases n
  {
    if m < n {
      ItemKept(ws, es, m, n - 1, t);
      assert Possible(ws[n - 1], es[n - 1]) && ws[n - 1 + 1] == After(ws[n - 1], es[n - 1]);
    }
  }

  /** When every task has been cleaned the task table is empty, and so is every list but those of falsy items: both
      tables are empty exactly when every task had an item. */
  lemma QuiescentEmpty(w: World)
    requires Consistent(w) && w.cleaned == w.item.Keys
    ensures w.reg.tasks == {} && forall i :: i in w.reg.items ==> !Truthy(i)
    ensures (w.reg.tasks == {} && w.reg.items == map[]) <==>
            forall t :: t in w.item ==> w.item[t].Some? && w.item[t].value != ""
  {
    forall i | i in w.reg.items && Truthy(i) ensures false {
      WithinNone(w.order, Pending(w, i));
    }
    forall t | t in w.item && !Truthy(w.item[t]) ensures w.item[t] in w.reg.items {
      FalsyListsAll(w, w.item[t]);
    }
    forall i | i in w.reg.items ensures exists t :: t in w.item && w.item[t] == i && !Truthy(i) {
      FalsyListsAll(w, i);
      var t := w.reg.items[i][0];
      assert t in ListOf(w.reg, i);
    }
  }

  // ----- a fan-out of chat tasks -----

  /** Between `ws[0]` and the end no task is created for the chat, and a done-callback of one of its tasks comes
      only after the task's own finalizer has run. */
  ghost predicate FanOut(ws: seq<World>, es: seq<Event>, chat: Item, fan: set<TaskId>) {
    && Run(ws, es) && Consistent(ws[0]) && Truthy(chat) && fan == Pending(ws[0], chat)
    && (forall k :: 0 <= k < |es| && es[k].Create? ==> es[k].i != chat)
    && (forall k :: 0 <= k < |es| && es[k].Done? && es[k].t in fan ==> Finalized(es, k, es[k].t))
  }

  ghost predicate Finalized(es: seq<Event>, n: int, t: TaskId) {
    exists k :: 0 <= k < n && k < |es| && es[k] == Finalize(t)
  }

  lemma {:induction false} FanPending(ws: seq<World>, es: seq<Event>, chat: Item, fan: set<TaskId>, n: nat)
    requires FanOut(ws, es, chat, fan) && n < |ws|
    ensures forall t :: t in Pending(ws[n], chat) <==> t in fan && !Finalized(es, n, t)
    ensures forall t :: t in fan ==> t in ws[n].item && ws[n].item[t] == chat
  {
    if n > 0 {
      FanPending(ws, es, chat, fan, n - 1);
      var e, w := es[n - 1], ws[n - 1];
      assert ws[n - 1 + 1] == After(w, e);
      forall t ensures Finalized(es, n, t) <==> Finalized(es, n - 1, t) || e == Finalize(t) {
      }
      if e.Done? && e.t in fan {
        assert Finalized(es, n - 1, e.t);
      }
    }
  }

  /** Of the fanned-out tasks exactly the last finalizer finds the chat inactive: a finalizer leaves the chat's
      list empty if and only if every task of the fan has by then been finalized. */
  lemma LastFinalizerReports(ws: seq<World>, es: seq<Event>, chat: Item, fan: set<TaskId>, n: nat)
    requires FanOut(ws, es, chat, fan) && n < |es| && es[n].Finalize? && es[n].t in fan
    requires forall t :: t in fan ==> Finalized(es, |es|, t)
    requires forall j, k :: 0 <= j < k < |es| && es[j].Finalize? && es[j].t in fan ==> es[j] != es[k]
    ensures ListOf(ws[n + 1].reg, chat) == [] <==>
            forall k :: n < k < |es| && es[k].Finalize? ==> es[k].t !in fan
  {
    FanPending(ws, es, chat, fan, n + 1);
    RunConsistent(ws, es, n + 1);
    var w := ws[n + 1];
    if k :| n < k < |es| && es[k].Finalize? && es[k].t in fan {
      assert !Finalized(es, n + 1, es[k].t) by {
        forall j | 0 <= j < n + 1 ensures es[j] != Finalize(es[k].t) {
        }
      }
      assert es[k].t in Pending(w, chat) && es[k].t in w.order;
      assert es[k].t in Within(w.order, Pending(w, chat));
    } else {
      forall t | t in fan ensures Finalized(es, n + 1, t) {
        var k :| 0 <= k < |es| && es[k] == Finalize(t);
      }
      WithinNone(w.order, Pending(w, chat));
    }
  }
}
