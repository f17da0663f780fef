/**
 The blocking protocol of the ring buffer. A waiter remembers the signal channel it saw while it
 held the lock; signalling closes that channel and replaces it. Each critical section is one step,
 and any number of readers and writers interleave.
 */
module Wakeup {
  import opened Bytes

  /** What a goroutine is doing: running, or waiting on the channel of generation `gen`. */
  datatype Waiter = Running | Waiting(gen: nat)

  /** Fill level, capacity, the closed flag, the two current channel generations, and all callers. */
  datatype Buf = Buf(len: nat, cap: nat, closed: bool, notEmpty: nat, notFull: nat,
                     readers: map<nat, Waiter>, writers: map<nat, Waiter>)

  /** Fill level after reading into a slice of `k` bytes; `k == 0` empties a full buffer. */
  function AfterRead(b: Buf, k: nat): (len: nat) {
    if k == 0 && b.len == b.cap then 0 else b.len - Min(k, b.len)
  }

  /** Fill level after writing `m` bytes; `m == 0` fills an empty buffer. */
  function AfterWrite(b: Buf, m: nat): (len: nat)
    requires b.len <= b.cap
  {
    if m == 0 && b.len == 0 then b.cap else b.len + Min(m, b.cap - b.len)
  }

  ghost predicate Init(b: Buf) {
    b.len == 0 < b.cap && !b.closed && b.readers == map[] && b.writers == map[]
  }

  /** One pass of `Read` through its critical section. */
  ghost predicate ReadPass(b: Buf, b': Buf, id: nat, k: nat) {
    if b.len > 0 then b' == b.(len := AfterRead(b, k), notFull := b.notFull + 1, readers := b.readers[id := Running])
    else if b.closed then b' == b.(readers := b.readers[id := Running])
    else b' == b.(readers := b.readers[id := Waiting(b.notEmpty)])
  }

  /** One pass of `Write` through its critical section, with `m > 0` bytes still to write. */
  ghost predicate WritePass(b: Buf, b': Buf, id: nat, m: nat) {
    && m > 0 && b.len <= b.cap
    && if b.closed then b' == b.(writers := b.writers[id := Running])
       else if b.len == b.cap then b' == b.(writers := b.writers[id := Waiting(b.notFull)])
       else b' == b.(len := AfterWrite(b, m), notEmpty := b.notEmpty + 1, writers := b.writers[id := Running])
  }

  /** `ReadNoBlock` and `WriteNoBlock`, called by the connection itself. */
  ghost predicate ReadNoBlock(b: Buf, b': Buf, k: nat) {
    b' == if b.len == 0 then b else b.(len := AfterRead(b, k), notFull := b.notFull + 1)
  }

  ghost predicate WriteNoBlock(b: Buf, b': Buf, m: nat) {
    && b.len <= b.cap
    && b' == if b.closed || b.len == b.cap then b else b.(len := AfterWrite(b, m), notEmpty := b.notEmpty + 1)
  }

  ghost predicate Grow(b: Buf, b': Buf, cap: nat) {
    b' == if cap <= b.cap then b else b.(cap := cap, notFull := b.notFull + 1)
  }

  ghost predicate CloseWrite(b: Buf, b': Buf) {
    b' == b.(closed := true, notEmpty := b.notEmpty + 1)
  }

  /** A waiter gives up because the connection is done, or leaves because its channel was closed. */
  ghost predicate Leave(b: Buf, b': Buf, id: nat) {
    b' == b.(readers := b.readers[id := Running]) || b' == b.(writers := b.writers[id := Running])
  }

  ghost predicate Next(b: Buf, b': Buf) {
    || (exists id, k :: ReadPass(b, b', id, k))
    || (exists id, m :: WritePass(b, b', id, m))
    || (exists k :: ReadNoBlock(b, b', k))
    || (exists m :: WriteNoBlock(b, b', m))
    || (exists cap :: Grow(b, b', cap))
    || CloseWrite(b, b')
    || (exists id :: Leave(b, b', id))
  }

  /** The caller waits on a channel that is still open. */
  ghost predicate Blocked(callers: map<nat, Waiter>, id: nat, gen: nat) {
    id in callers && callers[id] == Waiting(gen)
  }

  /** No channel is from the future; whoever is blocked has reason to be. */
  ghost predicate Inv(b: Buf) {
    && b.len <= b.cap && b.cap > 0
    && (forall id :: id in b.readers && b.readers[id].Waiting? ==> b.readers[id].gen <= b.notEmpty)
    && (forall id :: id in b.writers && b.writers[id].Waiting? ==> b.writers[id].gen <= b.notFull)
    && (forall id :: Blocked(b.readers, id, b.notEmpty) ==> b.len == 0 && !b.closed)
    && (forall id :: Blocked(b.writers, id, b.notFull) ==> b.len == b.cap)
  }

  /** A step that signals one side leaves nobody blocked there. */
  lemma SignalFrees(callers: map<nat, Waiter>, now: nat, id: nat)
    requires forall i :: i in callers && callers[i].Waiting? ==> callers[i].gen <= now
    ensures !Blocked(callers, id, now + 1)
  {
  }

  /** Only the caller that takes the step changes what it is doing. */
  lemma StepBlocks(callers: map<nat, Waiter>, id: nat, w: Waiter, i: nat, gen: nat)
    ensures Blocked(callers[id := w], i, gen) <==> if i == id then w == Waiting(gen) else Blocked(callers, i, gen)
  {
  }

  lemma CallerKeeps(b: Buf, b': Buf, id: nat)
    requires Inv(b)
    requires (exists k :: ReadPass(b, b', id, k)) || (exists m :: WritePass(b, b', id, m)) || Leave(b, b', id)
    ensures Inv(b')
  {
    forall i
      ensures Blocked(b'.readers, i, b'.notEmpty) ==> b'.len == 0 && !b'.closed
      ensures Blocked(b'.writers, i, b'.notFull) ==> b'.len == b'.cap
    {
      SignalFrees(b.readers, b.notEmpty, i);
      SignalFrees(b.writers, b.notFull, i);
      if id in b'.readers {
        StepBlocks(b.readers, id, b'.readers[id], i, b'.notEmpty);
      }
      if id in b'.writers {
        StepBlocks(b.writers, id, b'.writers[id], i, b'.notFull);
      }
    }
  }

  lemma OwnerKeeps(b: Buf, b': Buf)
    requires Inv(b)
    requires (exists k :: ReadNoBlock(b, b', k)) || (exists m :: WriteNoBlock(b, b', m)) ||
             (exists c :: Grow(b, b', c)) || CloseWrite(b, b')
    ensures Inv(b')
  {
    forall i
      ensures Blocked(b'.readers, i, b'.notEmpty) ==> b'.len == 0 && !b'.closed
      ensures Blocked(b'.writers, i, b'.notFull) ==> b'.len == b'.cap
    {
      SignalFrees(b.readers, b.notEmpty, i);
      SignalFrees(b.writers, b.notFull, i);
    }
  }

  lemma NextKeeps(b: Buf, b': Buf)
    requires Inv(b) && Next(b, b')
    ensures Inv(b')
  {
    hide Inv, ReadPass, WritePass, ReadNoBlock, WriteNoBlock, Grow, CloseWrite, Leave;
    if id, k :| ReadPass(b, b', id, k) {
      CallerKeeps(b, b', id);
    } else if id, m :| WritePass(b, b', id, m) {
      CallerKeeps(b, b', id);
    } else if id :| Leave(b, b', id) {
      CallerKeeps(b, b', id);
    } else {
      OwnerKeeps(b, b');
    }
  }

  ghost predicate IsRun(run: seq<Buf>) {
    run != [] && Init(run[0]) && forall i :: 0 < i < |run| ==> Next(run[i - 1], run[i])
  }

  lemma {:induction false} RunKeeps(run: seq<Buf>, n: nat)
    requires IsRun(run) && n < |run|
    ensures Inv(run[n])
  {
    if n > 0 {
      RunKeeps(run, n - 1);
      NextKeeps(run[n - 1], run[n]);
    }
  }

  /**
   No wake-up is lost, over every interleaving: a reader waiting on a channel that is still open
   faces an empty buffer that is not closed, and a waiting writer faces a full one.
   */
  lemma NoLostWakeup(run: seq<Buf>, n: nat, id: nat)
    requires IsRun(run) && n < |run|
    ensures Blocked(run[n].readers, id, run[n].notEmpty) ==> run[n].len == 0 && !run[n].closed
    ensures Blocked(run[n].writers, id, run[n].notFull) ==> run[n].len == run[n].cap
  {
    RunKeeps(run, n);
  }

  /** Closing does not signal writers: one that waits on a full buffer goes on waiting. */
  lemma CloseLeavesWriters(b: Buf, b': Buf, id: nat)
    requires CloseWrite(b, b')
    ensures Blocked(b'.writers, id, b'.notFull) <==> Blocked(b.writers, id, b.notFull)
    ensures Inv(b) ==> !Blocked(b'.readers, id, b'.notEmpty)
  {
  }
}
