/**
  Sending the batches from a pool of threads: every chunk is sent, in any order, and the result is
  that of sending them one after the other.
*/
module Pool {
  import opened Wire
  import opened Migration
  import Decimal

  ghost function Chunk(objs: seq<Obj>, cuts: seq<nat>, j: nat): multiset<Obj>
    requires Increasing(cuts, |objs|) && j + 1 < |cuts|
  {
    multiset(objs[cuts[j]..cuts[j + 1]])
  }

  /** The objects of the chunks that were not sent yet, of the first `n` chunks. */
  ghost function Waiting(objs: seq<Obj>, cuts: seq<nat>, pending: set<nat>, n: nat): multiset<Obj>
    requires Increasing(cuts, |objs|) && n < |cuts|
  {
    if n == 0 then multiset{}
    else
      Waiting(objs, cuts, pending, n - 1)
      + if n - 1 in pending then Chunk(objs, cuts, n - 1) else multiset{}
  }

  /** The objects sent so far, in the order of sending, and those that wait are all objects. */
  ghost predicate Done(objs: seq<Obj>, cuts: seq<nat>, pending: set<nat>, done: seq<Obj>)
  {
    Increasing(cuts, |objs|) && multiset(done) + Waiting(objs, cuts, pending, |cuts| - 1) == multiset(objs)
  }

  function UpTo(n: nat): (r: set<nat>)
    ensures forall j: nat :: j in r <==> j < n
  {
    if n == 0 then {} else UpTo(n - 1) + {n - 1}
  }

  lemma {:induction false} AllWaiting(objs: seq<Obj>, cuts: seq<nat>, pending: set<nat>, n: nat)
    requires Increasing(cuts, |objs|) && n < |cuts| && forall j: nat :: j < n ==> j in pending
    ensures cuts[n] <= |objs| && Waiting(objs, cuts, pending, n) == multiset(objs[..cuts[n]])
  {
    if n > 0 {
      AllWaiting(objs, cuts, pending, n - 1);
      assert cuts[n - 1] < cuts[n] <= |objs|;
      assert objs[..cuts[n]] == objs[..cuts[n - 1]] + objs[cuts[n - 1]..cuts[n]];
    }
  }

  lemma NothingDone(objs: seq<Obj>, cuts: seq<nat>)
    requires Increasing(cuts, |objs|) && cuts[|cuts| - 1] == |objs|
    ensures Done(objs, cuts, UpTo(|cuts| - 1), [])
  {
    hide Waiting, Chunk;
    AllWaiting(objs, cuts, UpTo(|cuts| - 1), |cuts| - 1);
    assert objs[..|objs|] == objs;
  }

  lemma {:induction false} OneLessWaiting(objs: seq<Obj>, cuts: seq<nat>, pending: set<nat>, j: nat, n: nat)
    requires Increasing(cuts, |objs|) && n < |cuts| && j in pending && j + 1 < |cuts|
    ensures Waiting(objs, cuts, pending, n) ==
      Waiting(objs, cuts, pending - {j}, n) + if j < n then Chunk(objs, cuts, j) else multiset{}
  {
    hide Chunk, Increasing;
    if n > 0 { OneLessWaiting(objs, cuts, pending, j, n - 1); }
  }

  lemma {:induction false} NoneWaiting(objs: seq<Obj>, cuts: seq<nat>, n: nat)
    requires Increasing(cuts, |objs|) && n < |cuts|
    ensures Waiting(objs, cuts, {}, n) == multiset{}
  {
    if n > 0 { NoneWaiting(objs, cuts, n - 1); }
  }

  /** Sending one more chunk. */
  lemma ChunkDone(objs: seq<Obj>, cuts: seq<nat>, pending: set<nat>, done: seq<Obj>, j: nat)
    requires Done(objs, cuts, pending, done) && j in pending && j + 1 < |cuts| && cuts[j] <= cuts[j + 1] <= |objs|
    ensures Done(objs, cuts, pending - {j}, done + objs[cuts[j]..cuts[j + 1]])
  {
    OneLessWaiting(objs, cuts, pending, j, |cuts| - 1);
  }

  lemma AllDone(objs: seq<Obj>, cuts: seq<nat>, done: seq<Obj>)
    requires Done(objs, cuts, {}, done)
    ensures Permuted(done, objs)
  {
    NoneWaiting(objs, cuts, |cuts| - 1);
  }

  lemma CutsOrdered(cuts: seq<nat>, n: nat, j: nat)
    requires Increasing(cuts, n) && j + 1 < |cuts|
    ensures cuts[j] <= cuts[j + 1] <= n
  {}

  /** The first loop of `BatchSendWithThreadPool_SlotsRestore`: all arguments, and where the chunks begin and end. */
  method SplitAll(objs: seq<Obj>) returns (argv: seq<Bytes>, cuts: seq<nat>)
    requires |objs| > 0
    ensures argv == Args(objs) && IsSplit(objs, cuts)
  {
    hide Args, SplitSoFar, TotalSize, IsSplit, Decimal.Print;
    argv, cuts := [], [0];
    var cmdSize, startPos := 0, 0;
    BatchStart(objs);
    var i := 0;
    while i < |objs|
      invariant startPos <= i <= |objs| && argv == Args(objs[..i])
      invariant cmdSize == TotalSize(objs[startPos..i]) && SplitSoFar(objs, cuts, startPos, i)
    {
      if cmdSize > CMD_PARAMS_SIZE {
        CutHere(objs, cuts, startPos, i);
        cuts := cuts + [i];
        cmdSize, startPos := 0, i;
      } else {
        OneMoreObject(objs, cuts, startPos, i);
      }
      ArgsNext(objs, i);
      var text := ObjText(objs, i);
      argv := argv + [objs[i].key, text, objs[i].val];
      cmdSize := cmdSize + |objs[i].key| + |text| + |objs[i].val|;
      i := i + 1;
    }
    assert objs[..i] == objs;
    LastCut(objs, cuts, startPos);
    cuts := cuts + [|objs|];
  }

  /** Every object of these chunks, or one with the same key, has arrived. */
  ghost predicate ChunksArrived(dest: Store, objs: seq<Obj>, cuts: seq<nat>, missing: set<nat>)
  {
    forall j: nat, i :: j + 1 < |cuts| && j !in missing && cuts[j] <= i < cuts[j + 1] && i < |objs| ==>
      Arrived(dest, Target(objs[i]), objs)
  }

  lemma ChunksStay(m: Moment, m': Moment, objs: seq<Obj>, cuts: seq<nat>, missing: set<nat>)
    requires Partly(m, m', objs) && ChunksArrived(m.dest, objs, cuts, missing)
    ensures ChunksArrived(m'.dest, objs, cuts, missing)
  {
    hide Target, Arrival, Notified;
    forall j: nat, i | j + 1 < |cuts| && j !in missing && cuts[j] <= i < cuts[j + 1] && i < |objs|
      ensures Arrived(m'.dest, Target(objs[i]), objs)
    {
      var k := Target(objs[i]);
      assert Arrived(m.dest, k, objs) && k in m'.dest;
      assert Unchanged(m.dest, m'.dest, k) || Arrived(m'.dest, k, objs);
    }
  }

  lemma ChunkArrives(now: Moment, objs: seq<Obj>, cuts: seq<nat>, j: nat, missing: set<nat>)
    requires j + 1 < |cuts| && cuts[j] <= cuts[j + 1] <= |objs|
    requires var m := Received(now, objs[cuts[j]..cuts[j + 1]]); ChunksArrived(m.dest, objs, cuts, missing)
    ensures var m := Received(now, objs[cuts[j]..cuts[j + 1]]); ChunksArrived(m.dest, objs, cuts, missing - {j})
  {
    var part := objs[cuts[j]..cuts[j + 1]];
    var m := Received(now, part);
    ReceivedIs(now, part);
    hide Target, Arrival, Notified, Received, Restored;
    forall i | cuts[j] <= i < cuts[j + 1]
      ensures Arrived(m.dest, Target(objs[i]), objs)
    {
      var k := Target(objs[i]);
      RestoredAt(now.dest, part, k);
      assert part[i - cuts[j]] == objs[i];
      var n := Writer(part, k);
      assert part[n] == objs[cuts[j] + n];
    }
  }

  /** `BatchSendWithThreadPool_SlotsRestore`: all chunks are sent, in an order that is not known; an error of one does not
      keep the others back: only the chunks `lost` have failed. `done` is all objects in the order of their arrival. */
  method BatchSendWithThreadPool(w: World, objs: seq<Obj>)
    returns (ret: int, ghost done: seq<Obj>, ghost cuts: seq<nat>, ghost lost: set<nat>)
    requires |objs| > 0
    modifies w`dest, w`indexed, w`history, w`failures
    ensures ret == ERR || (ret == |objs| && Permuted(done, objs) && w.Now() == Received(old(w.Now()), done))
    ensures ret != ERR && Compatible(objs) ==> w.Now() == Received(old(w.Now()), objs)
    ensures (ret == ERR <==> w.failures > old(w.failures)) && w.failures >= old(w.failures) + |lost|
    ensures IsSplit(objs, cuts) && ChunksArrived(w.dest, objs, cuts, lost)
    ensures Partly(old(w.Now()), w.Now(), objs)
    ensures old(w.history) <= w.history && Sending(w.history, |old(w.history)|, old(w.Now()), objs)
  {
    var argv, split := SplitAll(objs);
    cuts := split;
    ghost var start, before := w.Now(), w.history;
    done, lost := [], {};
    hide Received, Sending, Args, TotalSize, Partly, Permuted, Compatible, ChunksArrived, PoolState, IsSplit;
    NothingRestored(start, objs, 0, before);
    var failed, pending := false, UpTo(|split| - 1);
    PoolStart(start, objs, cuts);
    while pending != {}
      invariant pending <= UpTo(|cuts| - 1) && PoolState(start, w.Now(), objs, cuts, pending, done, lost, failed)
      invariant w.failures >= old(w.failures) + |lost| && (failed <==> w.failures > old(w.failures))
      invariant before <= w.history && Sending(w.history, |before|, start, objs)
      decreases |pending|
    {
      var j :| j in pending;
      CutsOrdered(cuts, |objs|, j);
      ArgsSlice(objs, split[j], split[j + 1]);
      ghost var now, history := w.Now(), w.history;
      PoolSoFar(start, now, objs, cuts, pending, done, lost, failed);
      var ok := RunTask(w, argv, split[j], split[j + 1], objs, start);
      SendingFurther(|before|, history, w.history, start, now, objs);
      PoolNext(start, now, w.Now(), objs, cuts, pending, done, lost, failed, j, ok);
      if !ok {
        failed := true;
        lost := lost + {j};
      } else {
        done := done + objs[cuts[j]..cuts[j + 1]];
      }
      pending := pending - {j};
    }
    PoolEnd(start, w.Now(), objs, cuts, done, lost, failed);
    if failed {
      return ERR, done, cuts, lost;
    }
    if Compatible(objs) { PoolIsBatch(start, objs, done); }
    return |objs|, done, cuts, lost;
  }

  /** Where the pool is: what has arrived, unless a chunk has failed, is the chunks sent so far; and every chunk that is not
      pending or lost has arrived. */
  ghost predicate PoolState(start: Moment, now: Moment, objs: seq<Obj>, cuts: seq<nat>, pending: set<nat>, done: seq<Obj>,
                            lost: set<nat>, failed: bool)
  {
    && Partly(start, now, objs) && ChunksArrived(now.dest, objs, cuts, pending + lost)
    && (failed || (now == Received(start, done) && Done(objs, cuts, pending, done)))
  }

  lemma PoolStart(start: Moment, objs: seq<Obj>, cuts: seq<nat>)
    requires Increasing(cuts, |objs|) && cuts[|cuts| - 1] == |objs|
    ensures PoolState(start, start, objs, cuts, UpTo(|cuts| - 1), [], {}, false)
  {
    NothingDone(objs, cuts);
    PartlyRefl(start, objs);
  }

  lemma PoolSoFar(start: Moment, now: Moment, objs: seq<Obj>, cuts: seq<nat>, pending: set<nat>, done: seq<Obj>,
                  lost: set<nat>, failed: bool)
    requires PoolState(start, now, objs, cuts, pending, done, lost, failed)
    ensures Partly(start, now, objs)
  {}

  /** One task more. */
  lemma PoolNext(start: Moment, before: Moment, now: Moment, objs: seq<Obj>, cuts: seq<nat>, pending: set<nat>,
                 done: seq<Obj>, lost: set<nat>, failed: bool, j: nat, ok: bool)
    requires PoolState(start, before, objs, cuts, pending, done, lost, failed) && j in pending
    requires j + 1 < |cuts| && cuts[j] <= cuts[j + 1] <= |objs| && Partly(before, now, objs) && Partly(start, now, objs)
    requires ok ==> now == Received(before, objs[cuts[j]..cuts[j + 1]])
    ensures ok ==>
      PoolState(start, now, objs, cuts, pending - {j}, done + objs[cuts[j]..cuts[j + 1]], lost, failed)
    ensures !ok ==> PoolState(start, now, objs, cuts, pending - {j}, done, lost + {j}, true)
  {
    ChunksStay(before, now, objs, cuts, pending + lost);
    hide Partly, Received, Done;
    if ok {
      ChunkArrives(before, objs, cuts, j, pending + lost);
      FewerMissing(now.dest, objs, cuts, pending + lost - {j}, pending - {j} + lost);
      if !failed {
        ReceivedCat(start, done, objs[cuts[j]..cuts[j + 1]]);
        ChunkDone(objs, cuts, pending, done, j);
      }
    } else {
      FewerMissing(now.dest, objs, cuts, pending + lost, pending - {j} + (lost + {j}));
    }
  }

  lemma PoolEnd(start: Moment, now: Moment, objs: seq<Obj>, cuts: seq<nat>, done: seq<Obj>, lost: set<nat>, failed: bool)
    requires PoolState(start, now, objs, cuts, {}, done, lost, failed)
    ensures Partly(start, now, objs) && ChunksArrived(now.dest, objs, cuts, lost)
    ensures !failed ==> now == Received(start, done) && Permuted(done, objs)
  {
    if !failed { AllDone(objs, cuts, done); }
    assert {} + lost == lost;
  }

  lemma FewerMissing(dest: Store, objs: seq<Obj>, cuts: seq<nat>, missing: set<nat>, missing': set<nat>)
    requires ChunksArrived(dest, objs, cuts, missing) && missing <= missing'
    ensures ChunksArrived(dest, objs, cuts, missing')
  {
    hide Arrived;
  }

  /** One task of the pool. */
  method RunTask(w: World, argv: seq<Bytes>, start: nat, end: nat, ghost objs: seq<Obj>, ghost m0: Moment)
    returns (ok: bool)
    requires start <= end <= |objs|
    requires 3 * end <= |argv| && argv[3 * start..3 * end] == Args(objs[start..end])
    requires Partly(m0, w.Now(), objs)
    modifies w`dest, w`indexed, w`history, w`failures
    ensures Partly(m0, w.Now(), objs) && Partly(old(w.Now()), w.Now(), objs)
    ensures ok ==> w.Now() == Received(old(w.Now()), objs[start..end])
    ensures (ok <==> w.failures == old(w.failures)) && w.failures >= old(w.failures)
    ensures old(w.history) <= w.history && Sending(w.history, |old(w.history)|, old(w.Now()), objs)
  {
    hide Received, Sending, Args, Partly;
    ghost var now, m := w.Now(), 0;
    var ret;
    var reached := w.Reach();
    PartlyRefl(now, objs);
    NothingRestored(now, objs, start, w.history);
    if !reached {
      return false;
    }
    ret, m := SendPart(w, argv, start, end, objs);
    PartlyReceived(m0, now, objs, objs[start..start + m]);
    PartlyReceived(now, now, objs, objs[start..start + m]);
    ok := ret != ERR;
  }

  /** When objects for the same key bring the same, the pool leaves what sending one after the other leaves. */
  lemma PoolIsBatch(m: Moment, objs: seq<Obj>, done: seq<Obj>)
    requires Compatible(objs) && Permuted(done, objs)
    ensures Received(m, done) == Received(m, objs)
  {
    ReceivedIs(m, done);
    ReceivedIs(m, objs);
    OrderFree(m.dest, objs, done);
    hide Restored, Compatible;
    forall o
      ensures o in done <==> o in objs
    {
      assert o in multiset(done) <==> o in multiset(objs);
    }
  }
}
