/**
 The bounded queue shared by threads (bytes/mthreadqueue.h). Each thread runs through its call in atomic steps:
 a producer looks at the length before it takes the lock, a consumer takes a token of the semaphore before it does.
 Any number of producers and consumers are interleaved in any order.
 */
module MThreadQueue {
  /** Where a producer stands in `enqueue`. */
  datatype Producer<T> = Outside | NotFull(value: T) | Locked(value: T) | Pushed | Released

  /** Where a consumer stands in `dequeue`. */
  datatype Consumer<T> = Away | HasToken | InLock | Took(value: T)

  datatype Owner = Free | ByProducer(p: nat) | ByConsumer(c: nat)

  datatype State<T> = State(
    queue: seq<T>,
    tokens: nat,
    owner: Owner,
    producers: seq<Producer<T>>,
    consumers: seq<Consumer<T>>,
    maxSize: nat,
    fault: bool,
    pushed: seq<T>,
    popped: seq<T>)

  /** One atomic step of one thread. A consumer whose wait for a token times out takes no step. */
  datatype Event<T> =
    | Check(p: nat, value: T) | Lock(p: nat) | Push(p: nat) | Release(p: nat) | Unlock(p: nat)
    | Acquire(c: nat) | LockToTake(c: nat) | Take(c: nat) | UnlockTaken(c: nat)

  function ProducerStep<T>(s: State<T>, e: Event<T>): State<T>
    requires e.Check? || e.Lock? || e.Push? || e.Release? || e.Unlock?
  {
    if e.p >= |s.producers| then s
    else
      var me := s.producers[e.p];
      match e
      case Check(p, v) =>
        if me.Outside? && |s.queue| < s.maxSize then s.(producers := s.producers[p := NotFull(v)]) else s
      case Lock(p) =>
        if me.NotFull? && s.owner == Free then
          s.(producers := s.producers[p := Locked(me.value)], owner := ByProducer(p))
        else s
      case Push(p) =>
        if me.Locked? then
          s.(producers := s.producers[p := Pushed], queue := s.queue + [me.value], pushed := s.pushed + [me.value])
        else s
      case Release(p) =>
        if me.Pushed? then s.(producers := s.producers[p := Released], tokens := s.tokens + 1) else s
      case Unlock(p) =>
        if me.Released? then s.(producers := s.producers[p := Outside], owner := Free) else s
  }

  function ConsumerStep<T>(s: State<T>, e: Event<T>): State<T>
    requires e.Acquire? || e.LockToTake? || e.Take? || e.UnlockTaken?
  {
    if e.c >= |s.consumers| then s
    else
      var me := s.consumers[e.c];
      match e
      case Acquire(c) =>
        if me.Away? && s.tokens > 0 then s.(consumers := s.consumers[c := HasToken], tokens := s.tokens - 1) else s
      case LockToTake(c) =>
        if me.HasToken? && s.owner == Free then s.(consumers := s.consumers[c := InLock], owner := ByConsumer(c)) else s
      case Take(c) =>
        if !me.InLock? then s
        else if s.queue == [] then s.(fault := true)
        else
          s.(consumers := s.consumers[c := Took(s.queue[0])], queue := s.queue[1..], popped := s.popped + [s.queue[0]])
      case UnlockTaken(c) =>
        if me.Took? then s.(consumers := s.consumers[c := Away], owner := Free) else s
  }

  /** A step that is not possible where the thread stands, or while another holds the lock, changes nothing. */
  function Step<T>(s: State<T>, e: Event<T>): State<T> {
    if e.Check? || e.Lock? || e.Push? || e.Release? || e.Unlock? then ProducerStep(s, e) else ConsumerStep(s, e)
  }

  /** Whoever holds the lock, a producer finds room and a consumer takes a token; only going on from there waits
      for the lock. */
  lemma OutsideTheLock<T>(s: State<T>, p: nat, v: T, c: nat, owner: Owner)
    requires p < |s.producers| && s.producers[p].Outside? && c < |s.consumers| && s.consumers[c].Away?
    ensures var t := s.(owner := owner);
            var admitted, served := Step(t, Check(p, v)), Step(t, Acquire(c));
            && (if |s.queue| < s.maxSize then admitted == t.(producers := admitted.producers) else admitted == t)
            && (|s.queue| < s.maxSize <==> admitted.producers[p] == NotFull(v))
            && (s.tokens > 0 <==> served.consumers[c].HasToken?) && served.owner == owner
            && (|s.queue| < s.maxSize && owner == Free <==> Step(admitted, Lock(p)).producers[p] == Locked(v))
            && (s.tokens > 0 && owner == Free <==> Step(served, LockToTake(c)).consumers[c].InLock?)
  {
  }

  function Run<T>(s: State<T>, es: seq<Event<T>>): State<T>
    decreases |es|
  {
    if es == [] then s else Run(Step(s, es[0]), es[1..])
  }

  function Initial<T>(maxSize: nat, producers: nat, consumers: nat): State<T> {
    State([], 0, Free, seq(producers, _ => Outside), seq(consumers, _ => Away), maxSize, false, [], [])
  }

  // ----- what every step keeps -----

  /** Consumers that have taken a token but not yet a value. */
  function Holders<T>(cs: seq<Consumer<T>>): nat {
    if cs == [] then 0 else (if cs[0].HasToken? || cs[0].InLock? then 1 else 0) + Holders(cs[1..])
  }

  /** Producers that found room but have not yet inserted. */
  function Admitted<T>(ps: seq<Producer<T>>): (n: nat)
    ensures n <= |ps|
  {
    if ps == [] then 0 else (if ps[0].NotFull? || ps[0].Locked? then 1 else 0) + Admitted(ps[1..])
  }

  /** 1 while a value is inserted and its token not yet released. */
  function Owed<T>(s: State<T>): nat {
    if s.owner.ByProducer? && s.owner.p < |s.producers| && s.producers[s.owner.p].Pushed? then 1 else 0
  }

  /** The lock has one owner, and it is the thread that is inside. */
  ghost predicate Exclusive<T>(s: State<T>) {
    && (forall p | 0 <= p < |s.producers| ::
          (s.producers[p].Locked? || s.producers[p].Pushed? || s.producers[p].Released?) <==> s.owner == ByProducer(p))
    && (forall c | 0 <= c < |s.consumers| ::
          (s.consumers[c].InLock? || s.consumers[c].Took?) <==> s.owner == ByConsumer(c))
    && (s.owner.ByProducer? ==> s.owner.p < |s.producers|)
    && (s.owner.ByConsumer? ==> s.owner.c < |s.consumers|)
  }

  /** How long the queue can become with `producers` producing threads. */
  function Bound(maxSize: nat, producers: nat): nat {
    if maxSize == 0 || producers == 0 then 0 else maxSize + producers - 1
  }

  ghost predicate Inv<T>(s: State<T>) {
    && Exclusive(s) && !s.fault
    && s.tokens + Holders(s.consumers) + Owed(s) == |s.queue|
    && |s.queue| + Admitted(s.producers) <= Bound(s.maxSize, |s.producers|)
    && s.pushed == s.popped + s.queue
  }

  lemma {:induction false} HoldersAfter<T>(cs: seq<Consumer<T>>, c: nat, me: Consumer<T>)
    requires c < |cs|
    ensures Holders(cs[c := me]) + (if cs[c].HasToken? || cs[c].InLock? then 1 else 0)
            == Holders(cs) + if me.HasToken? || me.InLock? then 1 else 0
  {
    if c > 0 {
      HoldersAfter(cs[1..], c - 1, me);
      assert cs[c := me][1..] == cs[1..][c - 1 := me];
    } else {
      assert cs[c := me][1..] == cs[1..];
    }
  }

  lemma {:induction false} AdmittedAfter<T>(ps: seq<Producer<T>>, p: nat, me: Producer<T>)
    requires p < |ps|
    ensures Admitted(ps[p := me]) + (if ps[p].NotFull? || ps[p].Locked? then 1 else 0)
            == Admitted(ps) + if me.NotFull? || me.Locked? then 1 else 0
  {
    if p > 0 {
      AdmittedAfter(ps[1..], p - 1, me);
      assert ps[p := me][1..] == ps[1..][p - 1 := me];
    } else {
      assert ps[p := me][1..] == ps[1..];
    }
  }

  lemma ProducerStepKeeps<T>(s: State<T>, e: Event<T>)
    requires Inv(s) && (e.Check? || e.Lock? || e.Push? || e.Release? || e.Unlock?)
    ensures Inv(ProducerStep(s, e))
  {
    hide Holders, Admitted;
    var t := ProducerStep(s, e);
    if e.p < |s.producers| {
      AdmittedAfter(s.producers, e.p, t.producers[e.p]);
    }
  }

  lemma {:induction false} HolderCounted<T>(cs: seq<Consumer<T>>, c: nat)
    requires c < |cs| && (cs[c].HasToken? || cs[c].InLock?)
    ensures Holders(cs) > 0
  {
    if c > 0 {
      HolderCounted(cs[1..], c - 1);
    }
  }

  lemma ConsumerStepKeeps<T>(s: State<T>, e: Event<T>)
    requires Inv(s) && (e.Acquire? || e.LockToTake? || e.Take? || e.UnlockTaken?)
    ensures Inv(ConsumerStep(s, e))
  {
    hide Holders, Admitted;
    var t := ConsumerStep(s, e);
    if e.c < |s.consumers| {
      HoldersAfter(s.consumers, e.c, t.consumers[e.c]);
      if s.consumers[e.c].InLock? {
        HolderCounted(s.consumers, e.c);
      }
    }
  }

  lemma {:induction false} RunKeeps<T>(s: State<T>, es: seq<Event<T>>)
    requires Inv(s)
    ensures Inv(Run(s, es))
    ensures Run(s, es).maxSize == s.maxSize && |Run(s, es).producers| == |s.producers|
    ensures |Run(s, es).consumers| == |s.consumers|
    decreases |es|
  {
    hide Inv;
    if es != [] {
      var e := es[0];
      if e.Check? || e.Lock? || e.Push? || e.Release? || e.Unlock? {
        ProducerStepKeeps(s, e);
      } else {
        ConsumerStepKeeps(s, e);
      }
      RunKeeps(Step(s, e), es[1..]);
    }
  }

  lemma {:induction false} NobodyInside<T>(producers: nat, consumers: nat)
    ensures Holders(seq(consumers, _ => Consumer<T>.Away)) == 0
    ensures Admitted(seq(producers, _ => Producer<T>.Outside)) == 0
    decreases producers + consumers
  {
    if producers > 0 {
      NobodyInside<T>(producers - 1, consumers);
      assert seq(producers, _ => Producer<T>.Outside)[1..] == seq(producers - 1, _ => Producer<T>.Outside);
    } else if consumers > 0 {
      NobodyInside<T>(producers, consumers - 1);
      assert seq(consumers, _ => Consumer<T>.Away)[1..] == seq(consumers - 1, _ => Consumer<T>.Away);
    }
  }

  lemma InitialInv<T>(maxSize: nat, producers: nat, consumers: nat)
    ensures Inv(Initial<T>(maxSize, producers, consumers))
  {
    NobodyInside<T>(producers, consumers);
  }

  /**
   After any interleaving of any number of threads: no consumer ever found the queue empty, tokens, consumers on
   their way and the value whose token is still owed account for the whole queue, its length never exceeds the
   bound, and values come out in the order they went in, none lost.
   */
  lemma QueueSafe<T>(maxSize: nat, producers: nat, consumers: nat, es: seq<Event<T>>)
    ensures var s := Run(Initial(maxSize, producers, consumers), es);
            && !s.fault
            && s.tokens + Holders(s.consumers) + Owed(s) == |s.queue|
            && (!s.owner.ByProducer? ==> s.tokens + Holders(s.consumers) == |s.queue|)
            && |s.queue| <= Bound(maxSize, producers)
            && s.pushed == s.popped + s.queue
  {
    InitialInv<T>(maxSize, producers, consumers);
    RunKeeps(Initial(maxSize, producers, consumers), es);
  }

  /** A consumer that has come inside with its token finds a value. */
  lemma TokenMeansValue<T>(maxSize: nat, producers: nat, consumers: nat, es: seq<Event<T>>, c: nat)
    requires c < consumers
    ensures var s := Run(Initial(maxSize, producers, consumers), es);
            |s.consumers| == consumers && (s.consumers[c].HasToken? || s.consumers[c].InLock? ==> s.queue != [])
  {
    InitialInv<T>(maxSize, producers, consumers);
    RunKeeps(Initial(maxSize, producers, consumers), es);
    var s := Run(Initial(maxSize, producers, consumers), es);
    if s.consumers[c].HasToken? || s.consumers[c].InLock? {
      HolderCounted(s.consumers, c);
    }
  }

  /** Unless every thread is outside its call, some thread inside can take a step. */
  lemma SomebodyMoves<T>(s: State<T>)
    requires Inv(s)
    requires (exists p :: 0 <= p < |s.producers| && !s.producers[p].Outside?)
             || exists c :: 0 <= c < |s.consumers| && !s.consumers[c].Away?
    ensures exists e: Event<T> :: !e.Check? && !e.Acquire? && Step(s, e) != s
  {
    hide Holders, Admitted;
    var e: Event<T>;
    match s.owner {
      case ByProducer(p) =>
        e := if s.producers[p].Locked? then Push(p) else if s.producers[p].Pushed? then Release(p) else Unlock(p);
      case ByConsumer(c) =>
        e := if s.consumers[c].InLock? then Take(c) else UnlockTaken(c);
      case Free =>
        if p: nat :| p < |s.producers| && !s.producers[p].Outside? {
          e := Lock(p);
        } else {
          var c: nat :| c < |s.consumers| && !s.consumers[c].Away?;
          e := LockToTake(c);
        }
    }
    assert Step(s, e) != s;
  }

  // ----- the bound is reached -----

  lemma {:induction false} RunAppend<T>(s: State<T>, a: seq<Event<T>>, b: seq<Event<T>>)
    ensures Run(s, a + b) == Run(Run(s, a), b)
    decreases |a|
  {
    hide Step;
    if a == [] {
      assert a + b == b;
    } else {
      RunAppend(Step(s, a[0]), a[1..], b);
      assert (a + b)[1..] == a[1..] + b;
    }
  }

  /** A producer that found room goes through the rest of its call undisturbed. */
  lemma InsertAlone<T>(s: State<T>, p: nat)
    requires p < |s.producers| && s.producers[p].NotFull? && s.owner == Free
    ensures Run(s, [Lock(p), Push(p), Release(p), Unlock(p)])
            == var v := s.producers[p].value;
               s.(producers := s.producers[p := Outside], queue := s.queue + [v], tokens := s.tokens + 1,
                  pushed := s.pushed + [v])
  {
    var s1 := Step(s, Lock(p));
    var s2 := Step(s1, Push(p));
    var s3 := Step(s2, Release(p));
    var s4 := Step(s3, Unlock(p));
    RunFour(s, Lock(p), Push(p), Release(p), Unlock(p));
    assert s4.producers == s.producers[p := Outside];
  }

  lemma RunFour<T>(s: State<T>, a: Event<T>, b: Event<T>, c: Event<T>, d: Event<T>)
    ensures Run(s, [a, b, c, d]) == Step(Step(Step(Step(s, a), b), c), d)
  {
    hide Step;
    assert [a, b, c, d][1..] == [b, c, d] && [b, c, d][1..] == [c, d] && [c, d][1..] == [d] && [d][1..] == [];
    assert Run(s, [a, b, c, d]) == Run(Step(s, a), [b, c, d]);
    var s2 := Step(Step(s, a), b);
    assert Run(Step(s, a), [b, c, d]) == Run(s2, [c, d]);
    assert Run(s2, [c, d]) == Run(Step(s2, c), [d]) == Step(Step(s2, c), d);
  }

  /** One undisturbed call of `enqueue`. */
  lemma EnqueueAlone<T>(s: State<T>, p: nat, v: T)
    requires p < |s.producers| && s.producers[p].Outside? && s.owner == Free
    ensures Run(s, [Check(p, v)] + [Lock(p), Push(p), Release(p), Unlock(p)])
            == if |s.queue| < s.maxSize then
                 s.(queue := s.queue + [v], tokens := s.tokens + 1, pushed := s.pushed + [v])
               else s
  {
    var rest := [Lock(p), Push(p), Release(p), Unlock(p)];
    assert ([Check(p, v)] + rest)[1..] == rest;
    var s1 := Step(s, Check(p, v));
    if |s.queue| < s.maxSize {
      InsertAlone(s1, p);
      assert s1.producers[p := Outside] == s.producers;
    } else {
      RunFour(s, Lock(p), Push(p), Release(p), Unlock(p));
    }
  }

  lemma ComeInside<T>(s: State<T>, c: nat)
    requires c < |s.consumers| && s.consumers[c].Away? && s.owner == Free && s.tokens > 0
    ensures Step(Step(s, Acquire(c)), LockToTake(c))
            == s.(consumers := s.consumers[c := InLock], tokens := s.tokens - 1, owner := ByConsumer(c))
  {
    assert s.consumers[c := HasToken][c := InLock] == s.consumers[c := InLock];
  }

  lemma TakeAndLeave<T>(s: State<T>, c: nat)
    requires c < |s.consumers| && s.consumers[c].InLock? && s.queue != []
    ensures Step(Step(s, Take(c)), UnlockTaken(c))
            == s.(consumers := s.consumers[c := Away], queue := s.queue[1..], popped := s.popped + [s.queue[0]],
                  owner := Free)
  {
    assert s.consumers[c := Took(s.queue[0])][c := Away] == s.consumers[c := Away];
  }

  lemma NoToken<T>(s: State<T>, c: nat)
    requires c < |s.consumers| && s.consumers[c].Away? && s.tokens == 0
    ensures Step(s, Acquire(c)) == Step(s, LockToTake(c)) == Step(s, Take(c)) == Step(s, UnlockTaken(c)) == s
  {
  }

  /** One undisturbed call of `dequeue`. */
  lemma DequeueAlone<T>(s: State<T>, c: nat)
    requires c < |s.consumers| && s.consumers[c].Away? && s.owner == Free && s.tokens == |s.queue|
    ensures Run(s, [Acquire(c), LockToTake(c), Take(c), UnlockTaken(c)])
            == if s.queue == [] then s
               else s.(queue := s.queue[1..], tokens := s.tokens - 1, popped := s.popped + [s.queue[0]])
  {
    hide Step;
    RunFour(s, Acquire(c), LockToTake(c), Take(c), UnlockTaken(c));
    if s.queue == [] {
      NoToken(s, c);
    } else {
      ComeInside(s, c);
      TakeAndLeave(s.(consumers := s.consumers[c := InLock], tokens := s.tokens - 1, owner := ByConsumer(c)), c);
      assert s.consumers[c := InLock][c := Away] == s.consumers;
    }
  }

  lemma {:induction false} Fill<T>(s: State<T>, n: nat, v: T) returns (es: seq<Event<T>>)
    requires s.producers != [] && s.producers[0].Outside? && s.owner == Free && |s.queue| + n <= s.maxSize
    ensures var t := Run(s, es);
            t.producers == s.producers && t.owner == Free && |t.queue| == |s.queue| + n && t.maxSize == s.maxSize
    decreases n
  {
    if n == 0 {
      es := [];
    } else {
      var call := [Check(0, v)] + [Lock(0), Push(0), Release(0), Unlock(0)];
      EnqueueAlone(s, 0, v);
      var rest := Fill(Run(s, call), n - 1, v);
      RunAppend(s, call, rest);
      es := call + rest;
    }
  }

  lemma {:induction false} AdmitAll<T>(s: State<T>, k: nat, v: T) returns (es: seq<Event<T>>)
    requires k <= |s.producers| && s.owner == Free && |s.queue| < s.maxSize
    requires forall p | 0 <= p < |s.producers| :: s.producers[p] == if p < k then NotFull(v) else Outside
    ensures var t := Run(s, es);
            t == s.(producers := t.producers) && |t.producers| == |s.producers|
            && forall p | 0 <= p < |t.producers| :: t.producers[p] == NotFull(v)
    decreases |s.producers| - k
  {
    if k == |s.producers| {
      es := [];
    } else {
      var rest := AdmitAll(Step(s, Check(k, v)), k + 1, v);
      es := [Check(k, v)] + rest;
      assert es[1..] == rest;
    }
  }

  lemma {:induction false} InsertAll<T>(s: State<T>, k: nat) returns (es: seq<Event<T>>)
    requires k <= |s.producers| && s.owner == Free
    requires forall p | k <= p < |s.producers| :: s.producers[p].NotFull?
    ensures |Run(s, es).queue| == |s.queue| + |s.producers| - k
    decreases |s.producers| - k
  {
    if k == |s.producers| {
      es := [];
    } else {
      var call := [Lock(k), Push(k), Release(k), Unlock(k)];
      InsertAlone(s, k);
      var rest := InsertAll(Run(s, call), k + 1);
      RunAppend(s, call, rest);
      es := call + rest;
    }
  }

  /** The bound is not slack: some interleaving makes the queue exactly that long. */
  lemma BoundReached<T>(maxSize: nat, producers: nat, consumers: nat, v: T) returns (es: seq<Event<T>>)
    ensures |Run(Initial(maxSize, producers, consumers), es).queue| == Bound(maxSize, producers)
  {
    hide Step;
    var s := Initial<T>(maxSize, producers, consumers);
    if maxSize == 0 || producers == 0 {
      es := [];
    } else {
      var a := Fill(s, maxSize - 1, v);
      var b := AdmitAll(Run(s, a), 0, v);
      var c := InsertAll(Run(Run(s, a), b), 0);
      RunAppend(s, a, b);
      RunAppend(s, a + b, c);
      es := a + b + c;
    }
  }

  // ----- the object -----

  datatype Option<T> = None | Some(value: T)

  class ThreadSafeQueue<T> {
    var mQueue: seq<T>
    var mSem: nat
    var mMaxSize: nat

    ghost predicate Valid()
      reads this
    {
      mSem == |mQueue|
    }

    constructor (maxSize: nat)
      ensures Valid() && mQueue == [] && mMaxSize == maxSize
    {
      mQueue, mSem, mMaxSize := [], 0, maxSize;
    }

    /** `enqueue` without other threads: the state `EnqueueAlone` ends in. */
    method Enqueue(value: T)
      requires Valid()
      modifies this`mQueue, this`mSem
      ensures Valid() && mQueue == if |old(mQueue)| < mMaxSize then old(mQueue) + [value] else old(mQueue)
    {
      if !(|mQueue| >= mMaxSize) {
        mQueue := mQueue + [value];
        mSem := mSem + 1;
      }
    }

    /** `dequeue` without other threads: the state `DequeueAlone` ends in. */
    method Dequeue() returns (value: Option<T>)
      requires Valid()
      modifies this`mQueue, this`mSem
      ensures Valid()
      ensures if old(mQueue) == [] then value == None && mQueue == []
              else value.Some? && old(mQueue) == [value.value] + mQueue
    {
      if mSem > 0 {
        mSem := mSem - 1;
        value := Some(mQueue[0]);
        mQueue := mQueue[1..];
      } else {
        value := None;
      }
    }
  }
}
