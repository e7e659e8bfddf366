/**
 A pool of reusable objects that periodically discards the surplus nobody needed.

 The ghost history of a pool is the window of available counts since construction or the last reclaim,
 and, for every object, where it is now. `minAvailable` is exactly the window's minimum.
 */
module ObjectPool {
  import opened Bytes

  /** Least element of a nonempty sequence of counts. */
  function Least(counts: seq<nat>): (r: nat)
    requires counts != []
    ensures r in counts && forall i :: 0 <= i < |counts| ==> r <= counts[i]
  {
    var last := counts[|counts| - 1];
    if |counts| == 1 then last
    else
      var rest := Least(counts[..|counts| - 1]);
      Min(rest, last)
  }

  class Pool<T(==)> {
    var available: seq<T>
    var minAvailable: nat

    ghost var window: seq<nat>           // available counts after each operation of this window
    ghost var put: multiset<T>           // everything ever returned to the pool
    ghost var taken: multiset<T>         // everything ever handed out from the pool
    ghost var discarded: multiset<T>     // everything ever reclaimed

    ghost predicate Valid()
      reads this
    {
      && window != []
      && window[|window| - 1] == |available|
      && minAvailable == Least(window)
      && Conserved(put, available, taken, discarded)
    }

    constructor ()
      ensures Valid() && available == [] && window == [0]
      ensures put == taken == discarded == multiset{}
    {
      available, minAvailable := [], 0;
      window, put, taken, discarded := [0], multiset{}, multiset{}, multiset{};
    }

    /** Takes the most recently returned object, if any. */
    method TryTake() returns (r: Option<T>)
      requires Valid()
      modifies this
      ensures Valid()
      ensures put == old(put) && discarded == old(discarded)
      ensures old(available) == [] ==> r == None && available == [] && taken == old(taken)
      ensures old(available) != [] ==> r == Some(old(available[|available| - 1]))
      ensures old(available) != [] ==> available == old(available[..|available| - 1]) && taken == old(taken) + multiset{r.value}
      ensures window == old(window) + [|available|]
    {
      hide Least, Conserved;
      r := None;
      if available != [] {
        LastTaken(put, available, taken, discarded);
        var item := available[|available| - 1];
        available := available[..|available| - 1];
        taken := taken + multiset{item};
        r := Some(item);
      }
      LeastAppend(window, |available|);
      minAvailable := Min(minAvailable, |available|);
      window := window + [|available|];
    }

    /** Falls back to a new object exactly when the pool is empty. */
    method TakeOrElse(created: T) returns (r: T)
      requires Valid()
      modifies this
      ensures Valid()
      ensures put == old(put) && discarded == old(discarded)
      ensures old(available) == [] ==> r == created && available == [] && taken == old(taken)
      ensures old(available) != [] ==>
                && r == old(available)[|old(available)| - 1]
                && available == old(available)[..|old(available)| - 1]
                && taken == old(taken) + multiset{r}
      ensures window == old(window) + [|available|]
    {
      var pooled := TryTake();
      r := match pooled
           case Some(item) => item
           case None => created;
    }

    method Put(item: T)
      requires Valid()
      modifies this
      ensures Valid()
      ensures available == old(available) + [item]
      ensures put == old(put) + multiset{item} && taken == old(taken) && discarded == old(discarded)
      ensures window == old(window) + [|available|]
    {
      LeastAtMostLast(window);
      available := available + [item];
      put := put + multiset{item};
      LeastAppend(window, |available|);
      window := window + [|available|];
    }

    /** Discards the window's minimum, newest first, keeps the oldest prefix and opens a new window. */
    method ReclaimUnused() returns (removed: nat)
      requires Valid()
      modifies this
      ensures Valid()
      ensures removed == Least(old(window)) <= |old(available)|
      ensures available == old(available)[..|old(available)| - removed]
      ensures put == old(put) && taken == old(taken)
      ensures discarded == old(discarded) + multiset(old(available)[|old(available)| - removed..])
      ensures window == [|available|]
    {
      hide Conserved;
      LeastAtMostLast(window);
      removed := minAvailable;
      var retain := |available| - removed;
      minAvailable := retain;
      RestDiscarded(put, available, taken, discarded, retain);
      discarded := discarded + multiset(available[retain..]);
      available := available[..retain];
      window := [retain];
    }
  }

  /** Every object put in is exactly once available, taken or discarded. */
  ghost predicate Conserved<T>(put: multiset<T>, available: seq<T>, taken: multiset<T>, discarded: multiset<T>) {
    put == multiset(available) + taken + discarded
  }

  lemma LastTaken<T>(put: multiset<T>, available: seq<T>, taken: multiset<T>, discarded: multiset<T>)
    requires available != [] && Conserved(put, available, taken, discarded)
    ensures Conserved(put, available[..|available| - 1], taken + multiset{available[|available| - 1]}, discarded)
  {
    assert available == available[..|available| - 1] + [available[|available| - 1]];
  }

  lemma RestDiscarded<T>(put: multiset<T>, available: seq<T>, taken: multiset<T>, discarded: multiset<T>, retain: nat)
    requires retain <= |available| && Conserved(put, available, taken, discarded)
    ensures Conserved(put, available[..retain], taken, discarded + multiset(available[retain..]))
  {
    assert available == available[..retain] + available[retain..];
  }

  /** Since checkouts track every decrease, the minimum never exceeds the current count. */
  lemma LeastAtMostLast(window: seq<nat>)
    requires window != []
    ensures Least(window) <= window[|window| - 1]
  {
  }

  // ---------- Whole runs ----------

  datatype Operation<T> = Take | Return(item: T) | Reclaim

  /** The objects available after a run and the counts seen in its current window. */
  datatype Summary<T> = Summary(available: seq<T>, window: seq<nat>, reclaimed: seq<nat>)

  function Run<T>(operations: seq<Operation<T>>): (r: Summary<T>)
    ensures r.window != [] && r.window[|r.window| - 1] == |r.available|
  {
    if operations == [] then Summary([], [0], [])
    else
      var before := Run(operations[..|operations| - 1]);
      match operations[|operations| - 1]
      case Take =>
        var available := if before.available == [] then [] else before.available[..|before.available| - 1];
        before.(available := available, window := before.window + [|available|])
      case Return(item) =>
        before.(available := before.available + [item], window := before.window + [|before.available| + 1])
      case Reclaim =>
        var removed := Least(before.window);
        LeastAtMostLast(before.window);
        var available := before.available[..|before.available| - removed];
        Summary(available, [|available|], before.reclaimed + [removed])
  }

  /** The pool carries out any run of operations as summarized. */
  method Perform<T(==)>(operations: seq<Operation<T>>) returns (available: seq<T>, reclaimed: seq<nat>)
    ensures available == Run(operations).available
    ensures reclaimed == Run(operations).reclaimed
  {
    hide Least;
    var pool := new Pool<T>();
    reclaimed := [];
    for i := 0 to |operations|
      invariant fresh(pool) && pool.Valid()
      invariant Summary(pool.available, pool.window, reclaimed) == Run(operations[..i])
    {
      assert operations[..i + 1][..i] == operations[..i];
      match operations[i]
      case Take => var _ := pool.TryTake();
      case Return(item) => pool.Put(item);
      case Reclaim =>
        var removed := pool.ReclaimUnused();
        reclaimed := reclaimed + [removed];
    }
    assert operations[..|operations|] == operations;
    available := pool.available;
  }

  /** Without any checkout in a window, everything that was there when it began is surplus. */
  lemma {:induction false} IdleWindowReclaimsItsStart<T>(operations: seq<Operation<T>>, begin: nat)
    requires begin <= |operations|
    requires begin == 0 || operations[begin - 1].Reclaim?
    requires forall i :: begin <= i < |operations| ==> operations[i].Return?
    ensures Least(Run(operations).window) == |Run(operations[..begin]).available|
    ensures Run(operations[..begin]).available <= Run(operations).available
    decreases |operations| - begin
  {
    hide Least;
    if begin == |operations| {
      SingleLeast(|Run(operations).available|);
      assert operations[..begin] == operations;
    } else {
      var shorter := operations[..|operations| - 1];
      IdleWindowReclaimsItsStart(shorter, begin);
      assert shorter[..begin] == operations[..begin];
      LeastAppend(Run(shorter).window, |Run(operations).available|);
    }
  }

  lemma SingleLeast(count: nat)
    ensures Least([count]) == count
  {
  }

  lemma LeastAppend(window: seq<nat>, count: nat)
    requires window != []
    ensures Least(window + [count]) == Min(Least(window), count)
  {
    assert (window + [count])[..|window|] == window;
  }
}
