/** The freed entries and the thread pool: who destroys what. */
module Reclaiming {
  import opened Semantics
  import opened Entries
  import opened Databases
  import opened ThreadPool

  /** Exactly the large ones among the freed entries are queued. */
  lemma {:induction false} QueuedAreLarge(freed: seq<Freed>, e: Entry)
    ensures e in Queued(freed) <==> exists i :: 0 <= i < |freed| && freed[i].entry == e && IsLarge(freed[i].value)
  {
    if freed != [] {
      var front := freed[..|freed| - 1];
      QueuedAreLarge(front, e);
      assert forall i | 0 <= i < |front| :: freed[i] == front[i];
    }
  }

  ghost predicate FreedOnce(freed: seq<Freed>) {
    forall i, j | 0 <= i < j < |freed| :: freed[i].entry != freed[j].entry
  }

  /** An entry that is freed once is queued at most once. */
  lemma {:induction false} QueuedOnce(freed: seq<Freed>)
    requires FreedOnce(freed)
    ensures forall k, l | 0 <= k < l < |Queued(freed)| :: Queued(freed)[k] != Queued(freed)[l]
  {
    if freed != [] {
      var front, last := freed[..|freed| - 1], freed[|freed| - 1];
      QueuedOnce(front);
      QueuedAreLarge(front, last.entry);
      assert forall k | 0 <= k < |Queued(front)| :: Queued(front)[k] in Queued(front);
    }
  }

  /** Move number j is the end of entry_del_func() on the entry, in some worker. */
  ghost predicate Destroys(ps: seq<Pool<Entry>>, moves: seq<Move<Entry>>, j: nat, e: Entry)
    requires |ps| == |moves| + 1
  {
    exists k: nat :: Executes(ps, moves, j, k) && k < |ps[j].submitted| && ps[j].submitted[k] == e
  }

  ghost predicate AllAsleep(p: Pool<Entry>) {
    p.producer.Away? && forall i | 0 <= i < |p.workers| :: p.workers[i].Sleeping?
  }

  /** A sorted set of more than ten members. */
  predicate MoreThanTen(v: Value) {
    v.Scored? && |v.scores| > 10
  }

  lemma LargeIsMoreThanTen()
    ensures forall v :: IsLarge(v) <==> MoreThanTen(v)
  {
  }

  /**
   When the jobs of the pool are the tasks of the database, no worker ever destroys a live entry or a small one, and a
   large entry that was freed is destroyed by one worker, once: at most once at any time, and for certain when all
   workers sleep.
   */
  lemma DestroyedByOneWorker(d: Database, ps: seq<Pool<Entry>>, moves: seq<Move<Entry>>, threads: nat, n: nat)
    requires d.Owned() && IsRun(ps, moves, threads) && n <= |moves| && ps[n].submitted == d.tasks
    ensures forall e, j: nat | e in d.entries && j < n :: !Destroys(ps, moves, j, e)
    ensures forall i, j: nat | 0 <= i < |d.freed| && !MoreThanTen(d.freed[i].value) && j < n ::
              !Destroys(ps, moves, j, d.freed[i].entry)
    ensures forall e, i: nat, j: nat | i < n && j < n && Destroys(ps, moves, i, e) && Destroys(ps, moves, j, e) ::
            i == j
    ensures AllAsleep(ps[n]) ==> forall i | 0 <= i < |d.freed| && MoreThanTen(d.freed[i].value) ::
              exists j: nat :: j < n && Destroys(ps, moves, j, d.freed[i].entry)
  {
    hide Database.Owned, Enabled, ThreadPool.After, Executes, IsLarge, Queued;
    d.OwnedIsAccounted();
    LargeIsMoreThanTen();
    QueuedOnce(d.freed);
    forall e, j: nat | j < n && Destroys(ps, moves, j, e)
      ensures exists i :: 0 <= i < |d.freed| && d.freed[i].entry == e && IsLarge(d.freed[i].value)
    {
      DestroyedWasLarge(d, ps, moves, threads, n, e, j);
    }
    forall e, i: nat, j: nat | i < n && j < n && Destroys(ps, moves, i, e) && Destroys(ps, moves, j, e) ensures i == j {
      DestroyedOnce(d, ps, moves, threads, n, e, i, j);
    }
    if AllAsleep(ps[n]) {
      forall i | 0 <= i < |d.freed| && IsLarge(d.freed[i].value)
        ensures exists j: nat :: j < n && Destroys(ps, moves, j, d.freed[i].entry)
      {
        LargeIsDestroyed(d, ps, moves, threads, n, i);
      }
    }
  }

  lemma DestroyedWasLarge(d: Database, ps: seq<Pool<Entry>>, moves: seq<Move<Entry>>, threads: nat, n: nat, e: Entry,
                          j: nat)
    requires IsRun(ps, moves, threads) && j < n <= |moves| && ps[n].submitted == d.tasks && Destroys(ps, moves, j, e)
    requires Accounted(d.created, d.entries, d.freed, d.tasks)
    ensures exists i :: 0 <= i < |d.freed| && d.freed[i].entry == e && IsLarge(d.freed[i].value)
  {
    hide Enabled, ThreadPool.After, Executes, IsLarge, Queued;
    var k: nat :| Executes(ps, moves, j, k) && k < |ps[j].submitted| && ps[j].submitted[k] == e;
    ExecutedWasSubmitted(ps, moves, threads, j, k, n);
    assert d.tasks[k] == e;
    QueuedAreLarge(d.freed, e);
  }

  lemma DestroyedOnce(d: Database, ps: seq<Pool<Entry>>, moves: seq<Move<Entry>>, threads: nat, n: nat, e: Entry,
                      i: nat, j: nat)
    requires IsRun(ps, moves, threads) && i < n <= |moves| && j < n && ps[n].submitted == d.tasks
    requires Destroys(ps, moves, i, e) && Destroys(ps, moves, j, e)
    requires forall k, l | 0 <= k < l < |d.tasks| :: d.tasks[k] != d.tasks[l]
    ensures i == j
  {
    hide Enabled, ThreadPool.After, Executes;
    var k: nat :| Executes(ps, moves, i, k) && k < |ps[i].submitted| && ps[i].submitted[k] == e;
    var l: nat :| Executes(ps, moves, j, l) && l < |ps[j].submitted| && ps[j].submitted[l] == e;
    ExecutedWasSubmitted(ps, moves, threads, i, k, n);
    ExecutedWasSubmitted(ps, moves, threads, j, l, n);
    assert d.tasks[k] == e == d.tasks[l];
    ExecutedOnce(ps, moves, threads, i, j, k);
  }

  lemma LargeIsDestroyed(d: Database, ps: seq<Pool<Entry>>, moves: seq<Move<Entry>>, threads: nat, n: nat, i: nat)
    requires IsRun(ps, moves, threads) && n <= |moves| && ps[n].submitted == d.tasks && AllAsleep(ps[n])
    requires Accounted(d.created, d.entries, d.freed, d.tasks) && i < |d.freed| && IsLarge(d.freed[i].value)
    ensures exists j: nat :: j < n && Destroys(ps, moves, j, d.freed[i].entry)
  {
    hide Enabled, ThreadPool.After, Executes, IsLarge, Queued, Inv;
    var e := d.freed[i].entry;
    QueuedAreLarge(d.freed, e);
    var k: nat :| k < |d.tasks| && d.tasks[k] == e;
    InvAlways(ps, moves, threads, n);
    AllAsleepMeansDone(ps[n], k);
    DoneIsExecuted(ps, moves, threads, n, k);
    var j: nat :| j < n && Executes(ps, moves, j, k);
    ExecutedWasSubmitted(ps, moves, threads, j, k, n);
    assert ps[j].submitted[k] == d.tasks[k] == e;
    assert Destroys(ps, moves, j, e);
  }
}
