/** Replacing the product's bootstrap directory on every backend
    (internal/directory/directory.go). */
module Directory {
  import opened Wrappers
  import opened Documents
  import opened Backends
  import opened Commit
  import opened Publishing
  import opened PublishRun

  predicate LegibleDirectory(item: Item, trusts: string -> bool) {
    item.DirectoryPointer? && trusts(item.seal)
  }

  /** The highest sequence any backend holds, once all hold the same directory. */
  method ReadBaseSequence(cluster: Cluster, trusts: string -> bool) returns (r: Result<int, Failure>)
    requires cluster.Valid()
    modifies cluster`attempts
    ensures old(cluster.attempts) <= cluster.attempts
    ensures r.Ok? ==> Agree(cluster.stores, DirectoryKey)
    ensures r.Ok? ==> var base := Base(At(cluster.stores[0], DirectoryKey)); r.value == if base > 0 then base else 0
    ensures r.Ok? ==> forall b, item | 0 <= b < |cluster.stores| && At(cluster.stores[b], DirectoryKey) == Some(item) ::
      item.DirectoryPointer? && trusts(item.seal)
    ensures r.Err? ==> r.error in {Unreadable, Divergent, Interrupted}
    ensures r == Err(Divergent) ==> !Agree(cluster.stores, DirectoryKey)
    ensures r == Err(Interrupted) ==> !cluster.Smooth(old(cluster.attempts), cluster.attempts)
    ensures r == Err(Unreadable) && cluster.Smooth(old(cluster.attempts), cluster.attempts) ==>
      exists b, item :: 0 <= b < |cluster.stores| && At(cluster.stores[b], DirectoryKey) == Some(item) &&
        !LegibleDirectory(item, trusts)
  {
    var base := 0;
    var raw: seq<Option<Item>> := [];
    for b := 0 to |cluster.stores|
      invariant old(cluster.attempts) <= cluster.attempts
      invariant |raw| == b && forall i | 0 <= i < b :: raw[i] == At(cluster.stores[i], DirectoryKey)
      invariant forall i | 0 <= i < b && raw[i].Some? ::
        raw[i].value.DirectoryPointer? && trusts(raw[i].value.seal)
      invariant base >= 0 && forall i | 0 <= i < b :: Base(raw[i]) <= base
      invariant base > 0 ==> exists i :: 0 <= i < b && Base(raw[i]) == base
    {
      var reply, found := cluster.Get(b, DirectoryKey);
      if reply != Acked {
        return Err(if reply == Stopped then Interrupted else Unreadable);
      }
      raw := raw + [found];
      if found.None? {
        continue;
      }
      if !LegibleDirectory(found.value, trusts) {
        return Err(Unreadable);
      }
      if found.value.sequence > base {
        base := found.value.sequence;
      }
    }
    for b := 1 to |raw|
      invariant forall i | 0 <= i < b :: raw[i] == raw[0]
    {
      if raw[0] != raw[b] {
        return Err(Divergent);
      }
    }
    r := Ok(base);
  }

  function DirectoryPlan(pointer: Option<Item>): Plan {
    Plan(DirectoryKey, pointer, "", [], None, {})
  }

  lemma ReplacingStep(
    measure: Measure, before: seq<Store>, after: seq<Store>, base: int, services: seq<string>, seal: string)
    requires |before| == |after| > 0 && Agree(before, DirectoryKey)
    requires base == (if Base(At(before[0], DirectoryKey)) > 0 then Base(At(before[0], DirectoryKey)) else 0)
    requires OnlyPut(DirectoryKey, DirectoryPointer(NextSequence(base), services, seal), before, after)
    ensures Step(
      measure, DirectoryPlan(Some(DirectoryPointer(NextSequence(base), services, seal))), before, after)
  {}

  /** Writes the backends in order and gives up at the first failure, after which
      the ones before it are reported. */
  method Set(
    cluster: Cluster, services: seq<string>, trusts: string -> bool, clientsVerify: bool, seal: string, dryRun: bool)
    returns (r: Result<int, Failure>, ghost plan: Plan)
    requires cluster.Valid()
    modifies cluster
    ensures cluster.Valid() && plan == DirectoryPlan(plan.pointer)
    ensures Step(cluster.measure, plan, old(cluster.stores), cluster.stores)
    ensures r.Ok? ==>
      && Agree(old(cluster.stores), DirectoryKey)
      && (match At(old(cluster.stores)[0], DirectoryKey)
          case None => r.value == NextSequence(0)
          case Some(item) =>
            item.DirectoryPointer? && trusts(item.seal) &&
            r.value == NextSequence(if item.sequence > 0 then item.sequence else 0))
    ensures dryRun ==> plan.pointer.None?
    ensures r.Ok? && !dryRun ==>
      && clientsVerify && plan.pointer == Some(DirectoryPointer(r.value, services, seal))
      && forall b | 0 <= b < |cluster.stores| :: At(cluster.stores[b], DirectoryKey) == plan.pointer
    ensures r.Err? && r.error.WriteFailed? ==>
      && plan.pointer.Some? && |r.error.written| < |cluster.stores|
      && (forall b | 0 <= b < |r.error.written| ::
            r.error.written[b] == b && At(cluster.stores[b], DirectoryKey) == plan.pointer)
      && forall b | |r.error.written| < b < |cluster.stores| :: cluster.stores[b] == old(cluster.stores)[b]
    ensures dryRun || (r.Err? && !r.error.WriteFailed? && !r.error.Interrupted?) ==>
      cluster.stores == old(cluster.stores)
    ensures r == Err(Divergent) ==> !Agree(old(cluster.stores), DirectoryKey)
    ensures r == Err(ClientsWouldReject) ==> !clientsVerify
    ensures r.Err? && cluster.Smooth(old(cluster.attempts), cluster.attempts) ==>
      r.error in {Divergent, ClientsWouldReject, Unreadable}
  {
    hide Step, Within, OnlyPut, Agree;
    plan := DirectoryPlan(None);
    IdleStep(cluster.measure, plan, cluster.stores);
    ghost var start := cluster.stores;
    var base := ReadBaseSequence(cluster, trusts);
    if base.Err? {
      return Err(base.error), plan;
    }
    var sequence := NextSequence(base.value);
    if dryRun {
      return Ok(sequence), plan;
    }
    var item := DirectoryPointer(sequence, services, seal);
    if !clientsVerify {
      return Err(ClientsWouldReject), plan;
    }
    plan := DirectoryPlan(Some(item));
    var put, written := PutEverywhere(cluster, DirectoryKey, item);
    ReplacingStep(cluster.measure, start, cluster.stores, base.value, services, seal);
    if put.Err? {
      r := Err(if put.error.Interrupted? then Interrupted
               else WriteFailed(seq(written, b requires 0 <= b < written => b)));
      return;
    }
    r := Ok(sequence);
  }
}
