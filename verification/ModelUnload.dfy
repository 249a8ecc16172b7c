/** Following base models to one a provider owns (the loop of `unload_model` in main.py). */
module ModelUnload {
  import opened Basics

  type ModelId = string

  /** The base model a stored model names, if any. */
  function Base(models: map<ModelId, Option<ModelId>>, m: ModelId): (r: Option<ModelId>) {
    if m in models && models[m].Some? && models[m].value != "" then models[m] else None
  }

  /** `k` steps along the base-model chain. */
  function Chain(models: map<ModelId, Option<ModelId>>, m: ModelId, k: nat): (r: Option<ModelId>)
  {
    if k == 0 then Some(m)
    else match Chain(models, m, k - 1)
      case None => None
      case Some(x) => Base(models, x)
  }

  /** The chain goes on exactly to the non-empty base a stored model names. */
  lemma ChainStep(models: map<ModelId, Option<ModelId>>, m: ModelId, k: nat, x: ModelId, y: ModelId)
    requires Chain(models, m, k) == Some(x)
    ensures Chain(models, m, 0) == Some(m)
    ensures Chain(models, m, k + 1) == Some(y) <==> x in models && models[x] == Some(y) && y != ""
  {
  }

  /** Where the chain first meets an owned model. */
  ghost predicate FirstOwned(owned: set<ModelId>, models: map<ModelId, Option<ModelId>>, m: ModelId, r: ModelId) {
    exists k: nat :: Chain(models, m, k) == Some(r) && r in owned
      && forall j: nat :: j < k ==> Chain(models, m, j).Some? && Chain(models, m, j).value !in owned
  }

  ghost predicate NoneOwned(owned: set<ModelId>, models: map<ModelId, Option<ModelId>>, m: ModelId) {
    forall k: nat :: Chain(models, m, k).Some? ==> Chain(models, m, k).value !in owned
  }

  /** The first `k` models of the chain. */
  ghost function Visited(models: map<ModelId, Option<ModelId>>, m: ModelId, k: nat): (r: set<ModelId>) {
    set j: nat | j < k && Chain(models, m, j).Some? :: Chain(models, m, j).value
  }

  lemma {:induction false} CycleCovers(models: map<ModelId, Option<ModelId>>, m: ModelId, k: nat, i: nat)
    requires Chain(models, m, k).Some? && Chain(models, m, k).value in Visited(models, m, k)
    requires Chain(models, m, i).Some?
    ensures Chain(models, m, i).value in Visited(models, m, k)
  {
    if i >= k && i > 0 {
      CycleCovers(models, m, k, i - 1);
      var j: nat :| j < k && Chain(models, m, j) == Chain(models, m, i - 1);
      assert Chain(models, m, j + 1) == Chain(models, m, i);
    }
  }

  lemma {:induction false} ChainEnded(models: map<ModelId, Option<ModelId>>, m: ModelId, k: nat, i: nat)
    requires Chain(models, m, k).None? && k <= i
    ensures Chain(models, m, i).None?
  {
    if k < i {
      ChainEnded(models, m, k, i - 1);
    }
  }

  /** The loop stops on every chain, cyclic ones too, and finds the first owned model exactly when there is one. */
  method ResolveOwned(owned: set<ModelId>, models: map<ModelId, Option<ModelId>>, start: ModelId) returns (id: ModelId)
    ensures id in owned ==> FirstOwned(owned, models, start, id)
    ensures id !in owned <==> NoneOwned(owned, models, start)
  {
    id := start;
    var seen: set<ModelId> := {};
    ghost var k: nat := 0;
    while id !in owned && id !in seen
      invariant Chain(models, start, k) == Some(id)
      invariant seen == Visited(models, start, k) && seen <= models.Keys
      invariant forall j: nat :: j < k ==> Chain(models, start, j).Some? && Chain(models, start, j).value !in owned
      decreases models.Keys - seen
    {
      seen := seen + {id};
      if Base(models, id).None? {
        assert Chain(models, start, k + 1) == None;
        forall i: nat | Chain(models, start, i).Some? ensures Chain(models, start, i).value !in owned {
          if i > k {
            ChainEnded(models, start, k + 1, i);
          }
        }
        return;
      }
      id := Base(models, id).value;
      k := k + 1;
    }
    if id !in owned {
      forall i: nat | Chain(models, start, i).Some? ensures Chain(models, start, i).value !in owned {
        CycleCovers(models, start, k, i);
      }
    }
  }
}
