/**
 * The bounded job queue of A2/job_queue.c. All of its state is guarded by one mutex, so what
 * a thread does between taking the mutex and releasing it (or going to sleep) is one step.
 * Each method below is one such step of the ring buffer; module WorkerPool interleaves them.
 */
module JobQueue {
  import opened Arithmetic

  /** Jobs are opaque pointers. */
  type Job = int

  /** What the mutex guards, without the ring: the waiting jobs in order. */
  datatype Monitor = Monitor(size: nat, contents: seq<Job>, destroy: bool, freed: bool)

  predicate PushSleeps(m: Monitor) { |m.contents| == m.size }

  predicate PopSleeps(m: Monitor) { m.contents == [] && !m.destroy }

  function Pushed(m: Monitor, job: Job): Monitor {
    m.(contents := m.contents + [job])
  }

  function Popped(m: Monitor): Monitor
    requires m.contents != []
  {
    m.(contents := m.contents[1..])
  }

  /** One completed operation of some thread. */
  datatype Op = PushOp(job: Job) | PopOp

  /** The jobs pushed, in order. */
  function JobsOf(ops: seq<Op>): (r: seq<Job>)
    ensures |r| <= |ops|
  {
    if ops == [] then []
    else JobsOf(ops[..|ops| - 1]) + if ops[|ops| - 1].PushOp? then [ops[|ops| - 1].job] else []
  }

  /**
   * The monitor after any interleaving of completed pushes and pops: what was popped, in
   * order, followed by what still waits is what waited before followed by what was pushed.
   */
  function Completed(m: Monitor, ops: seq<Op>): (r: (Monitor, seq<Job>, seq<Job>))
    ensures r.2 + r.0.contents == m.contents + r.1
    ensures r.0.size == m.size
  {
    if ops == [] then (m, [], [])
    else
      var (m1, pushed, popped) := Completed(m, ops[..|ops| - 1]);
      match ops[|ops| - 1]
      case PushOp(job) =>
        assert popped + (m1.contents + [job]) == (m.contents + pushed) + [job];
        (Pushed(m1, job), pushed + [job], popped)
      case PopOp =>
        if m1.contents == [] then (m1, pushed, popped)
        else
          assert m1.contents == [m1.contents[0]] + m1.contents[1..];
          (Popped(m1), pushed, popped + [m1.contents[0]])
  }

  lemma {:induction false} CompletedJobs(m: Monitor, ops: seq<Op>)
    ensures Completed(m, ops).1 == JobsOf(ops)
  {
    if ops != [] { CompletedJobs(m, ops[..|ops| - 1]); }
  }

  /** With enough jobs before each pop no pop goes without one: the jobs popped are the earliest ones. */
  lemma {:induction false} EveryPopServed(m: Monitor, ops: seq<Op>)
    requires forall k :: 0 <= k <= |ops| ==> k <= |m.contents| + 2 * |JobsOf(ops[..k])|
    ensures |Completed(m, ops).2| == |ops| - |JobsOf(ops)|
    ensures Completed(m, ops).2 <= m.contents + JobsOf(ops)
  {
    if ops != [] {
      var front := ops[..|ops| - 1];
      forall k | 0 <= k <= |front| ensures k <= |m.contents| + 2 * |JobsOf(front[..k])| {
        assert front[..k] == ops[..k];
      }
      EveryPopServed(m, front);
      assert ops[..|ops|] == ops;
    }
    CompletedJobs(m, ops);
  }

  datatype PopResult = Asleep | Failed | Got(job: Job)

  function RingAt(ring: seq<Job>, tail: nat, i: nat): Job
    requires tail < |ring| && i < |ring|
  {
    ring[Wrap(tail + i, |ring|)]
  }

  function RingContents(ring: seq<Job>, tail: nat, filled: nat): (s: seq<Job>)
    requires filled <= |ring| && (filled == 0 || tail < |ring|)
    ensures |s| == filled
    ensures forall i :: 0 <= i < filled ==> s[i] == RingAt(ring, tail, i)
  {
    seq(filled, i requires 0 <= i < filled => RingAt(ring, tail, i))
  }

  class JobQueue {
    var size: nat
    var head: nat
    var tail: nat
    var filled: nat
    var destroy: bool
    var buffer: array?<Job>

    ghost predicate Valid()
      reads this, buffer
    {
      && (buffer == null ==> filled == 0 && destroy)
      && (buffer != null ==> buffer.Length == size)
      && filled <= size
      && (if size == 0 then head == tail == 0 else head < size && tail < size && head == Wrap(tail + filled, size))
    }

    ghost function View(): Monitor
      requires Valid()
      reads this, buffer
    {
      Monitor(size, if buffer == null then [] else RingContents(buffer[..], tail, filled), destroy, buffer == null)
    }

    /** The head is where the tail gets after filled steps around the ring. */
    lemma HeadPosition()
      requires Valid() && size > 0
      ensures head == (tail + filled) % size
    {
      ModWrap(tail + filled, size);
    }

    constructor (capacity: nat)
      ensures Valid() && View() == Monitor(capacity, [], false, false) && fresh(buffer)
    {
      buffer := new Job[capacity];
      head, tail, filled := 0, 0, 0;
      destroy := false;
      size := capacity;
    }

    /** One round of push: sleep when full, otherwise enqueue. Pushing after destroy is an error of the caller. */
    method Push(data: Job) returns (asleep: bool)
      requires Valid() && !destroy
      modifies this, buffer
      ensures Valid() && buffer == old(buffer)
      ensures asleep <==> |old(View()).contents| == old(size)
      ensures View() == if asleep then old(View()) else old(View()).(contents := old(View()).contents + [data])
    {
      if filled == size { return true; }
      ghost var ring := buffer[..];
      buffer[head] := data;
      RingPush(ring, tail, filled, data);
      assert buffer[..] == ring[head := data];
      ModWrap(head + 1, size);
      head := (head + 1) % size;
      filled := filled + 1;
      asleep := false;
    }

    /** One round of pop: sleep when empty, fail when empty and destroyed, otherwise dequeue. */
    method Pop() returns (r: PopResult)
      requires Valid()
      modifies this
      ensures Valid() && buffer == old(buffer)
      ensures r.Asleep? <==> old(View()).contents == [] && !old(View()).destroy
      ensures r.Failed? <==> old(View()).contents == [] && old(View()).destroy
      ensures r.Got? ==> old(View()).contents == [r.job] + View().contents
      ensures View() == if r.Got? then old(View()).(contents := View().contents) else old(View())
    {
      if filled == 0 && !destroy { return Asleep; }
      if filled == 0 { return Failed; }
      r := Got(buffer[tail]);
      RingPop(buffer[..], tail, filled);
      ModWrap(tail + 1, size);
      tail := (tail + 1) % size;
      filled := filled - 1;
    }

    /** Entering destroy: the flag is raised, then the first check for emptiness. */
    method Destroy() returns (asleep: bool)
      requires Valid() && !destroy
      modifies this
      ensures Valid()
      ensures asleep == (old(View()).contents != [])
      ensures View() == old(View()).(destroy := true, freed := !asleep)
    {
      destroy := true;
      asleep := DestroyCheck();
    }

    /** One round of the draining loop: sleep while jobs remain, otherwise free the array. */
    method DestroyCheck() returns (asleep: bool)
      requires Valid() && destroy && buffer != null
      modifies this
      ensures Valid()
      ensures asleep == (old(View()).contents != [])
      ensures View() == old(View()).(freed := !asleep)
    {
      if filled > 0 { return true; }
      buffer := null;
      asleep := false;
    }
  }

  /** Writing at the head appends to the contents and keeps the rest. */
  lemma RingPush(ring: seq<Job>, tail: nat, filled: nat, data: Job)
    requires |ring| > 0 && tail < |ring| && filled < |ring|
    ensures var head := Wrap(tail + filled, |ring|);
      && RingContents(ring[head := data], tail, filled + 1) == RingContents(ring, tail, filled) + [data]
      && Wrap(head + 1, |ring|) == Wrap(tail + (filled + 1), |ring|)
  {}

  /** Advancing the tail drops the first of the contents. */
  lemma RingPop(ring: seq<Job>, tail: nat, filled: nat)
    requires |ring| > 0 && tail < |ring| && 0 < filled <= |ring|
    ensures var tail' := Wrap(tail + 1, |ring|);
      && RingContents(ring, tail, filled)[0] == ring[tail]
      && RingContents(ring, tail', filled - 1) == RingContents(ring, tail, filled)[1..]
      && Wrap(tail' + (filled - 1), |ring|) == Wrap(tail + filled, |ring|)
  {}
}
