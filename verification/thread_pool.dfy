/** thread_pool.cc: workers that share a queue under a mutex and a condition variable, in every interleaving. */
module ThreadPool {

  /** Where a worker is in its loop. */
  datatype Worker =
    | AtLock               // before pthread_mutex_lock()
    | Checking             // holds the mutex, before the test of queue.empty()
    | Sleeping             // inside pthread_cond_wait()
    | Woken                // woken up, but not yet holding the mutex again
    | Running(job: nat)    // has unlocked the mutex and executes the job with this number

  /** Where the event loop is in thread_pool_queue(). */
  datatype Producer = Away | Locked | Pushed | Signalled

  datatype Mutex = Free | HeldBy(worker: nat) | HeldByProducer

  /** The jobs are numbered in the order in which they were queued; `taken` of them have left the queue. */
  datatype Pool<T> = Pool(queue: seq<T>, workers: seq<Worker>, producer: Producer, mutex: Mutex,
                          submitted: seq<T>, taken: nat, done: set<nat>)

  datatype Move<T> =
    | Lock(worker: nat)
    | Sleep(worker: nat)
    | Take(worker: nat)
    | Finish(worker: nat)
    | WakeSpuriously(worker: nat)
    | ProducerLock
    | Push(job: T)
    | Signal(woken: set<nat>)
    | ProducerUnlock

  predicate Sleeps<T>(p: Pool<T>, i: nat) {
    i < |p.workers| && p.workers[i].Sleeping?
  }

  /** The moves that are possible; a signal wakes at least one of the sleeping workers, if there are any. */
  ghost predicate Enabled<T>(p: Pool<T>, m: Move<T>) {
    match m
    case Lock(i) => i < |p.workers| && (p.workers[i].AtLock? || p.workers[i].Woken?) && p.mutex.Free?
    case Sleep(i) => i < |p.workers| && p.workers[i].Checking? && p.queue == []
    case Take(i) => i < |p.workers| && p.workers[i].Checking? && p.queue != []
    case Finish(i) => i < |p.workers| && p.workers[i].Running?
    case WakeSpuriously(i) => Sleeps(p, i)
    case ProducerLock => p.producer.Away? && p.mutex.Free?
    case Push(_) => p.producer.Locked?
    case Signal(woken) =>
      p.producer.Pushed? && (forall i | i in woken :: Sleeps(p, i)) && (woken == {} ==> forall i: nat :: !Sleeps(p, i))
    case ProducerUnlock => p.producer.Signalled?
  }

  ghost function After<T>(p: Pool<T>, m: Move<T>): Pool<T>
    requires Enabled(p, m)
  {
    match m
    case Lock(i) => p.(workers := p.workers[i := Checking], mutex := HeldBy(i))
    case Sleep(i) => p.(workers := p.workers[i := Sleeping], mutex := Free)
    case Take(i) => p.(workers := p.workers[i := Running(p.taken)], mutex := Free, queue := p.queue[1..],
      taken := p.taken + 1)
    case Finish(i) => p.(workers := p.workers[i := AtLock], done := p.done + {p.workers[i].job})
    case WakeSpuriously(i) => p.(workers := p.workers[i := Woken])
    case ProducerLock => p.(producer := Locked, mutex := HeldByProducer)
    case Push(job) => p.(producer := Pushed, queue := p.queue + [job], submitted := p.submitted + [job])
    case Signal(woken) =>
      p.(producer := Signalled,
         workers := seq(|p.workers|, i requires 0 <= i < |p.workers| => if i in woken then Woken else p.workers[i]))
    case ProducerUnlock => p.(producer := Away, mutex := Free)
  }

  /** thread_pool_init() */
  function Initial<T>(threads: nat): Pool<T> {
    var n := if threads < 4 then 4 else threads;
    Pool([], seq(n, _ => AtLock), Away, Free, [], 0, {})
  }

  /** Only the holder of the mutex looks at the queue. */
  ghost predicate Exclusive<T>(p: Pool<T>) {
    && (forall i | 0 <= i < |p.workers| :: p.workers[i].Checking? <==> p.mutex == HeldBy(i))
    && (p.mutex.HeldBy? ==> p.mutex.worker < |p.workers|)
    && (p.producer.Away? <==> !p.mutex.HeldByProducer?)
  }

  /** The queue holds the jobs not yet taken, in the order in which they were queued. */
  ghost predicate Fifo<T>(p: Pool<T>) {
    p.taken <= |p.submitted| && p.queue == p.submitted[p.taken..]
  }

  /** Every job taken has been executed or is being executed, by one worker only. */
  ghost predicate ExactlyOnce<T>(p: Pool<T>) {
    && (forall k | k in p.done :: k < p.taken)
    && (forall i | 0 <= i < |p.workers| && p.workers[i].Running? ::
       p.workers[i].job < p.taken && p.workers[i].job !in p.done)
    && (forall i, j | 0 <= i < j < |p.workers| && p.workers[i].Running? && p.workers[j].Running? ::
       p.workers[i] != p.workers[j])
    && forall k: nat | k < p.taken && k !in p.done :: exists i :: 0 <= i < |p.workers| && p.workers[i] == Running(k)
  }

  /** No lost wake-up: unless the producer is about to signal, a queued job finds some worker awake. */
  ghost predicate NoLostWakeup<T>(p: Pool<T>) {
    p.queue != [] && !p.producer.Pushed? ==> exists i :: 0 <= i < |p.workers| && !p.workers[i].Sleeping?
  }

  ghost predicate Inv<T>(p: Pool<T>) {
    |p.workers| > 0 && Exclusive(p) && Fifo(p) && ExactlyOnce(p) && NoLostWakeup(p)
  }

  lemma InitialInv<T>(threads: nat)
    ensures Inv(Initial<T>(threads))
  {
  }

  lemma ExclusiveKept<T>(p: Pool<T>, m: Move<T>)
    requires Inv(p) && Enabled(p, m)
    ensures Exclusive(After(p, m))
  {
  }

  lemma FifoKept<T>(p: Pool<T>, m: Move<T>)
    requires Inv(p) && Enabled(p, m)
    ensures Fifo(After(p, m))
  {
  }

  lemma ExactlyOnceKept<T>(p: Pool<T>, m: Move<T>)
    requires Inv(p) && Enabled(p, m)
    ensures ExactlyOnce(After(p, m))
  {
    var p' := After(p, m);
    forall k: nat | k < p'.taken && k !in p'.done
      ensures exists i :: 0 <= i < |p'.workers| && p'.workers[i] == Running(k)
    {
      if m.Take? && k == p.taken {
        assert p'.workers[m.worker] == Running(k);
      } else {
        var i :| 0 <= i < |p.workers| && p.workers[i] == Running(k);
        assert p'.workers[i] == Running(k);
      }
    }
  }

  lemma WakeupKept<T>(p: Pool<T>, m: Move<T>)
    requires Inv(p) && Enabled(p, m)
    ensures NoLostWakeup(After(p, m))
  {
    var p' := After(p, m);
    if p'.queue != [] && !p'.producer.Pushed? {
      if m.Signal? {
        if m.woken == {} {
          assert !Sleeps(p, 0);
          assert !p'.workers[0].Sleeping?;
        } else {
          var i :| i in m.woken;
          assert Sleeps(p, i);
          assert p'.workers[i].Woken?;
        }
      } else {
        var i :| 0 <= i < |p.workers| && !p.workers[i].Sleeping?;
        assert !p'.workers[i].Sleeping?;
      }
    }
  }

  ghost predicate IsRun<T>(ps: seq<Pool<T>>, moves: seq<Move<T>>, threads: nat) {
    && |ps| == |moves| + 1 && ps[0] == Initial(threads)
    && forall k | 0 <= k < |moves| :: Enabled(ps[k], moves[k]) && ps[k + 1] == After(ps[k], moves[k])
  }

  /** In every state of every interleaving. */
  lemma {:induction false} InvAlways<T>(ps: seq<Pool<T>>, moves: seq<Move<T>>, threads: nat, n: nat)
    requires IsRun(ps, moves, threads) && n <= |moves|
    ensures Inv(ps[n])
  {
    if n == 0 {
      InitialInv<T>(threads);
    } else {
      InvAlways(ps, moves, threads, n - 1);
      ExclusiveKept(ps[n - 1], moves[n - 1]);
      FifoKept(ps[n - 1], moves[n - 1]);
      ExactlyOnceKept(ps[n - 1], moves[n - 1]);
      WakeupKept(ps[n - 1], moves[n - 1]);
    }
  }

  // ---- executions ----

  /** Move number j is the end of the execution of job number k. */
  ghost predicate Executes<T>(ps: seq<Pool<T>>, moves: seq<Move<T>>, j: nat, k: nat)
    requires |ps| == |moves| + 1
  {
    && j < |moves| && moves[j].Finish? && moves[j].worker < |ps[j].workers|
    && ps[j].workers[moves[j].worker] == Running(k)
  }

  lemma {:induction false} OnlyMore<T>(ps: seq<Pool<T>>, moves: seq<Move<T>>, threads: nat, m: nat, n: nat)
    requires IsRun(ps, moves, threads) && m <= n <= |moves|
    ensures ps[m].done <= ps[n].done && ps[m].submitted <= ps[n].submitted
  {
    if m < n {
      OnlyMore(ps, moves, threads, m, n - 1);
    }
  }

  /** A job is done exactly when a move has ended its execution. */
  lemma {:induction false} DoneIsExecuted<T>(ps: seq<Pool<T>>, moves: seq<Move<T>>, threads: nat, n: nat, k: nat)
    requires IsRun(ps, moves, threads) && n <= |moves|
    ensures k in ps[n].done <==> exists j: nat :: j < n && Executes(ps, moves, j, k)
  {
    if n > 0 {
      DoneIsExecuted(ps, moves, threads, n - 1, k);
      assert Enabled(ps[n - 1], moves[n - 1]) && ps[n] == After(ps[n - 1], moves[n - 1]);
      if k in ps[n].done && k !in ps[n - 1].done {
        assert Executes(ps, moves, n - 1, k);
      }
    }
  }

  /** No job is executed twice, by whatever workers. */
  lemma ExecutedOnce<T>(ps: seq<Pool<T>>, moves: seq<Move<T>>, threads: nat, i: nat, j: nat, k: nat)
    requires IsRun(ps, moves, threads) && Executes(ps, moves, i, k) && Executes(ps, moves, j, k)
    ensures i == j
  {
    if i != j {
      var first, second := if i < j then i else j, if i < j then j else i;
      DoneIsExecuted(ps, moves, threads, first + 1, k);
      OnlyMore(ps, moves, threads, first + 1, second);
      InvAlways(ps, moves, threads, second);
    }
  }

  /** What is executed had been submitted under its number. */
  lemma ExecutedWasSubmitted<T>(ps: seq<Pool<T>>, moves: seq<Move<T>>, threads: nat, j: nat, k: nat, n: nat)
    requires IsRun(ps, moves, threads) && Executes(ps, moves, j, k) && j < n <= |moves|
    ensures k < |ps[j].submitted| && ps[j].submitted <= ps[n].submitted
  {
    InvAlways(ps, moves, threads, j);
    OnlyMore(ps, moves, threads, j, n);
  }

  /** When all workers sleep and no job is being queued, the queue is empty. */
  lemma AllAsleepMeansEmpty<T>(p: Pool<T>)
    requires Inv(p) && p.producer.Away? && forall i | 0 <= i < |p.workers| :: p.workers[i].Sleeping?
    ensures p.queue == []
  {
  }

  /** When all workers sleep, every job ever queued has been executed. */
  lemma AllAsleepMeansDone<T>(p: Pool<T>, k: nat)
    requires Inv(p) && p.producer.Away? && (forall i | 0 <= i < |p.workers| :: p.workers[i].Sleeping?)
    requires k < |p.submitted|
    ensures k in p.done
  {
  }

  /** The moves are possible one after the other and lead from p to q. */
  ghost predicate Leads<T>(p: Pool<T>, moves: seq<Move<T>>, q: Pool<T>)
    decreases |moves|
  {
    if moves == [] then p == q else Enabled(p, moves[0]) && Leads(After(p, moves[0]), moves[1..], q)
  }

  /** From any such state a queued job can be taken by at most three moves of one worker, without any further signal. */
  lemma QueuedJobCanBeTaken<T>(p: Pool<T>) returns (moves: seq<Move<T>>, q: Pool<T>)
    requires Inv(p) && p.producer.Away? && p.queue != []
    ensures Leads(p, moves, q) && |moves| <= 3 && q.taken == p.taken + 1 && q.queue == p.queue[1..]
    ensures exists i :: forall m | m in moves :: m == Finish(i) || m == Lock(i) || m == Take(i)
  {
    if p.mutex.HeldBy? {
      var i := p.mutex.worker;
      moves := [Take(i)];
      q := After(p, Take(i));
      assert moves[1..] == [];
    } else {
      var i: nat :| i < |p.workers| && !p.workers[i].Sleeping?;
      var p1 := if p.workers[i].Running? then After(p, Finish(i)) else p;
      var p2 := After(p1, Lock(i));
      q := After(p2, Take(i));
      var rest := [Lock(i), Take(i)];
      assert rest[1..] == [Take(i)] && rest[1..][1..] == [];
      assert Leads(p1, rest, q);
      moves := if p.workers[i].Running? then [Finish(i)] + rest else rest;
      assert p.workers[i].Running? ==> moves[1..] == rest;
    }
  }
}
