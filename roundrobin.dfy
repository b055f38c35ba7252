/**
 * The round-robin scheduler of r_r.ts.
 *
 * The caller's processes are copied into a queue. Until the queue is empty,
 * the process at the front is taken off; if its remaining burst time is
 * larger than the time slice it runs for one slice, loses that much burst
 * time and goes to the back of the queue, otherwise it runs for what it has
 * left, is finished, and its burst time becomes 0. Each turn prints one
 * line; here each turn appends one Event to a returned trace.
 *
 * The value model works on a queue of jobs, each the index of a process in
 * the caller's array and its remaining burst time. Schedule is the list of
 * slices the loop runs, and the lemmas below state what the loop promises
 * about it.
 */
module RoundRobin {

  class Process {
    var name: string
    var burstTime: int

    constructor (name: string, burstTime: int)
      ensures this.name == name && this.burstTime == burstTime
    {
      this.name := name;
      this.burstTime := burstTime;
    }
  }

  /** One printed line: who ran, for how many units, and whether it finished. */
  datatype Event = Event(name: string, units: int, finished: bool)

  /** A queue entry: the index of a process and its remaining burst time. */
  datatype Job = Job(id: nat, burst: int)

  /** One turn of the loop: which process ran, for how long, and whether it finished. */
  datatype Slice = Slice(id: nat, units: int, finished: bool)

  // ---------------------------------------------------------------------------
  // The loop as a value
  // ---------------------------------------------------------------------------

  /**
   * The loop ends: with a positive slice every burst shrinks, and with any
   * other slice every process must finish on its first turn.
   */
  predicate Terminates(queue: seq<Job>, slice: int) {
    slice > 0 || forall k :: 0 <= k < |queue| ==> queue[k].burst <= slice
  }

  /** One turn on a non-empty queue: the slice that runs and the queue afterwards. */
  function Turn(queue: seq<Job>, slice: int): (Slice, seq<Job>)
    requires queue != []
  {
    var j := queue[0];
    if j.burst > slice then (Slice(j.id, slice, false), queue[1..] + [Job(j.id, j.burst - slice)])
    else (Slice(j.id, j.burst, true), queue[1..])
  }

  /** The number of turns a job with this burst time takes. */
  function Rounds(burst: int, slice: int): (n: nat)
    requires slice > 0 || burst <= slice
    ensures n >= 1
    decreases burst
  {
    if burst > slice then 1 + Rounds(burst - slice, slice) else 1
  }

  /** The number of turns left for the whole queue. */
  function Work(queue: seq<Job>, slice: int): nat
    requires Terminates(queue, slice)
  {
    if queue == [] then 0 else Rounds(queue[0].burst, slice) + Work(queue[1..], slice)
  }

  lemma {:induction false} WorkAppend(a: seq<Job>, b: seq<Job>, slice: int)
    requires Terminates(a, slice) && Terminates(b, slice)
    ensures Terminates(a + b, slice)
    ensures Work(a + b, slice) == Work(a, slice) + Work(b, slice)
    decreases |a|
  {
    if a != [] {
      assert (a + b)[1..] == a[1..] + b;
      WorkAppend(a[1..], b, slice);
    } else {
      assert a + b == b;
    }
  }

  /** Every turn keeps the loop terminating and leaves one turn less to do. */
  lemma TurnProgress(queue: seq<Job>, slice: int)
    requires queue != [] && Terminates(queue, slice)
    ensures Terminates(Turn(queue, slice).1, slice)
    ensures Work(Turn(queue, slice).1, slice) == Work(queue, slice) - 1
  {
    var j := queue[0];
    if j.burst > slice {
      var last := Job(j.id, j.burst - slice);
      assert Work([last], slice) == Rounds(j.burst - slice, slice);
      WorkAppend(queue[1..], [last], slice);
    }
  }

  /** The slices the loop runs, in order, starting from `queue`. */
  function Schedule(queue: seq<Job>, slice: int): seq<Slice>
    requires Terminates(queue, slice)
    decreases Work(queue, slice)
  {
    if queue == [] then []
    else
      TurnProgress(queue, slice);
      var (s, rest) := Turn(queue, slice);
      [s] + Schedule(rest, slice)
  }

  /** The queue after `n` turns, or the empty queue once it has drained. */
  function Iterate(queue: seq<Job>, slice: int, n: nat): seq<Job>
    decreases n
  {
    if n == 0 || queue == [] then queue else Iterate(Turn(queue, slice).1, slice, n - 1)
  }

  // ---------------------------------------------------------------------------
  // What the loop promises
  // ---------------------------------------------------------------------------

  /** Some job has more burst time than the slice. */
  predicate Stuck(queue: seq<Job>, slice: int) {
    exists k :: 0 <= k < |queue| && queue[k].burst > slice
  }

  lemma StuckTurn(queue: seq<Job>, slice: int, k: nat)
    requires slice <= 0 && k < |queue| && queue[k].burst > slice
    ensures Stuck(Turn(queue, slice).1, slice)
  {
    var rest := Turn(queue, slice).1;
    if k == 0 {
      assert rest[|rest| - 1].burst == queue[0].burst - slice;
    } else {
      assert rest[k - 1] == queue[k];
    }
  }

  /**
   * With a slice that is not positive, a process with more burst time than
   * the slice never leaves the queue: the loop does not end.
   */
  lemma {:induction false} Diverges(queue: seq<Job>, slice: int, n: nat)
    requires slice <= 0 && Stuck(queue, slice)
    ensures Iterate(queue, slice, n) != [] && Stuck(Iterate(queue, slice, n), slice)
    decreases n
  {
    if n > 0 {
      var k :| 0 <= k < |queue| && queue[k].burst > slice;
      StuckTurn(queue, slice, k);
      Diverges(Turn(queue, slice).1, slice, n - 1);
    }
  }

  /**
   * With a positive slice, a job runs for as many turns as it takes slices
   * to cover its burst time: the last turn is the first whose slices reach it.
   */
  lemma {:induction false} RoundsCoverBurst(burst: int, slice: int)
    requires slice > 0 && burst > 0
    ensures (Rounds(burst, slice) - 1) * slice < burst <= Rounds(burst, slice) * slice
    decreases burst
  {
    if burst > slice {
      var n := Rounds(burst - slice, slice);
      RoundsCoverBurst(burst - slice, slice);
      assert (n + 1) * slice == n * slice + slice;
      assert n * slice == (n - 1) * slice + slice;
    }
  }

  /** The loop runs exactly as many turns as the jobs' rounds add up to. */
  lemma {:induction false} ScheduleLength(queue: seq<Job>, slice: int)
    requires Terminates(queue, slice)
    ensures |Schedule(queue, slice)| == Work(queue, slice)
    decreases Work(queue, slice)
  {
    if queue != [] {
      TurnProgress(queue, slice);
      ScheduleLength(Turn(queue, slice).1, slice);
    }
  }

  /** How often `id` stands in the queue. */
  function Occurrences(queue: seq<Job>, id: nat): nat {
    if queue == [] then 0 else (if queue[0].id == id then 1 else 0) + Occurrences(queue[1..], id)
  }

  /** The burst time the queue holds for `id`. */
  function BurstOf(queue: seq<Job>, id: nat): int {
    if queue == [] then 0 else (if queue[0].id == id then queue[0].burst else 0) + BurstOf(queue[1..], id)
  }

  /** The number of finishing slices of `id`. */
  function Finishes(s: seq<Slice>, id: nat): nat {
    if s == [] then 0 else (if s[0].id == id && s[0].finished then 1 else 0) + Finishes(s[1..], id)
  }

  /** The units `id` ran for, over all its slices. */
  function Units(s: seq<Slice>, id: nat): int {
    if s == [] then 0 else (if s[0].id == id then s[0].units else 0) + Units(s[1..], id)
  }

  lemma {:induction false} OccurrencesSnoc(queue: seq<Job>, x: Job, id: nat)
    ensures Occurrences(queue + [x], id) == Occurrences(queue, id) + (if x.id == id then 1 else 0)
    decreases |queue|
  {
    if queue != [] {
      assert (queue + [x])[1..] == queue[1..] + [x];
      OccurrencesSnoc(queue[1..], x, id);
    } else {
      assert queue + [x] == [x];
    }
  }

  lemma {:induction false} BurstOfSnoc(queue: seq<Job>, x: Job, id: nat)
    ensures BurstOf(queue + [x], id) == BurstOf(queue, id) + (if x.id == id then x.burst else 0)
    decreases |queue|
  {
    if queue != [] {
      assert (queue + [x])[1..] == queue[1..] + [x];
      BurstOfSnoc(queue[1..], x, id);
    } else {
      assert queue + [x] == [x];
    }
  }

  /** Every job finishes exactly once: one finishing slice per queue entry. */
  lemma {:induction false} FinishesOnce(queue: seq<Job>, slice: int, id: nat)
    requires Terminates(queue, slice)
    ensures Finishes(Schedule(queue, slice), id) == Occurrences(queue, id)
    decreases Work(queue, slice)
  {
    if queue != [] {
      TurnProgress(queue, slice);
      var rest := Turn(queue, slice).1;
      FinishesOnce(rest, slice, id);
      if queue[0].burst > slice {
        OccurrencesSnoc(queue[1..], Job(queue[0].id, queue[0].burst - slice), id);
      }
    }
  }

  /** The units each process runs for add up to the burst time it had. */
  lemma {:induction false} UnitsAddUp(queue: seq<Job>, slice: int, id: nat)
    requires Terminates(queue, slice)
    ensures Units(Schedule(queue, slice), id) == BurstOf(queue, id)
    decreases Work(queue, slice)
  {
    if queue != [] {
      TurnProgress(queue, slice);
      var rest := Turn(queue, slice).1;
      UnitsAddUp(rest, slice, id);
      if queue[0].burst > slice {
        BurstOfSnoc(queue[1..], Job(queue[0].id, queue[0].burst - slice), id);
      }
    }
  }

  /** A slice that does not finish runs exactly the time slice; a finishing one runs at most that. */
  lemma {:induction false} SliceLengths(queue: seq<Job>, slice: int)
    requires Terminates(queue, slice)
    ensures var s := Schedule(queue, slice);
      forall i :: 0 <= i < |s| ==> (if s[i].finished then s[i].units <= slice else s[i].units == slice)
    decreases Work(queue, slice)
  {
    if queue != [] {
      TurnProgress(queue, slice);
      var rest := Turn(queue, slice).1;
      SliceLengths(rest, slice);
      var s := Schedule(queue, slice);
      assert forall i :: 1 <= i < |s| ==> s[i] == Schedule(rest, slice)[i - 1];
    }
  }

  /** First in, first out: the first turns serve the queue in its initial order. */
  lemma {:induction false} FirstRoundInOrder(queue: seq<Job>, slice: int)
    requires Terminates(queue, slice)
    ensures |queue| <= |Schedule(queue, slice)|
    ensures forall i :: 0 <= i < |queue| ==> Schedule(queue, slice)[i].id == queue[i].id
    decreases Work(queue, slice)
  {
    if queue != [] {
      TurnProgress(queue, slice);
      var rest := Turn(queue, slice).1;
      FirstRoundInOrder(rest, slice);
      assert forall i :: 1 <= i < |queue| ==> rest[i - 1] == queue[i];
    }
  }

  /** Every slice belongs to a job of the queue. */
  lemma {:induction false} SliceIds(queue: seq<Job>, slice: int, n: nat)
    requires Terminates(queue, slice)
    requires forall k :: 0 <= k < |queue| ==> queue[k].id < n
    ensures forall i :: 0 <= i < |Schedule(queue, slice)| ==> Schedule(queue, slice)[i].id < n
    decreases Work(queue, slice)
  {
    if queue != [] {
      TurnProgress(queue, slice);
      SliceIds(Turn(queue, slice).1, slice, n);
    }
  }

  // ---------------------------------------------------------------------------
  // The loop over the caller's objects
  // ---------------------------------------------------------------------------

  /** The initial queue: every process of the array, in order, with its burst time. */
  function Jobs(bursts: seq<int>): (queue: seq<Job>)
    ensures |queue| == |bursts|
    ensures forall i :: 0 <= i < |bursts| ==> queue[i] == Job(i, bursts[i])
  {
    seq(|bursts|, i requires 0 <= i < |bursts| => Job(i, bursts[i]))
  }

  /** Each index stands in the initial queue once, holding that process's burst time. */
  lemma {:induction false} JobsCount(bursts: seq<int>, from: nat, i: nat)
    requires from <= |bursts|
    ensures var q := Jobs(bursts)[from..];
      && Occurrences(q, i) == (if from <= i < |bursts| then 1 else 0)
      && BurstOf(q, i) == (if from <= i < |bursts| then bursts[i] else 0)
    decreases |bursts| - from
  {
    var q := Jobs(bursts)[from..];
    if from < |bursts| {
      assert q[1..] == Jobs(bursts)[from + 1..];
      JobsCount(bursts, from + 1, i);
    }
  }

  /**
   * For the caller's processes in order: process `i` finishes exactly once,
   * runs for its burst time in total, and has the `i`-th turn.
   */
  lemma ScheduleOfProcesses(bursts: seq<int>, slice: int, i: nat)
    requires Terminates(Jobs(bursts), slice) && i < |bursts|
    ensures var s := Schedule(Jobs(bursts), slice);
      && Finishes(s, i) == 1
      && Units(s, i) == bursts[i]
      && i < |s| && s[i].id == i
  {
    JobsCount(bursts, 0, i);
    assert Jobs(bursts)[0..] == Jobs(bursts);
    FinishesOnce(Jobs(bursts), slice, i);
    UnitsAddUp(Jobs(bursts), slice, i);
    FirstRoundInOrder(Jobs(bursts), slice);
  }

  /** The printed lines of a list of slices. */
  function Label(s: seq<Slice>, names: seq<string>): (trace: seq<Event>)
    requires forall i :: 0 <= i < |s| ==> s[i].id < |names|
    ensures |trace| == |s|
    ensures forall i :: 0 <= i < |s| ==> trace[i] == Event(names[s[i].id], s[i].units, s[i].finished)
  {
    seq(|s|, i requires 0 <= i < |s| => Event(names[s[i].id], s[i].units, s[i].finished))
  }

  function Bursts(processes: array<Process>): (b: seq<int>)
    reads processes, processes[..]
    ensures |b| == processes.Length
    ensures forall i :: 0 <= i < processes.Length ==> b[i] == processes[i].burstTime
  {
    seq(processes.Length, i requires 0 <= i < processes.Length reads processes, processes[..] => processes[i].burstTime)
  }

  function Names(processes: array<Process>): (n: seq<string>)
    reads processes, processes[..]
    ensures |n| == processes.Length
    ensures forall i :: 0 <= i < processes.Length ==> n[i] == processes[i].name
  {
    seq(processes.Length, i requires 0 <= i < processes.Length reads processes, processes[..] => processes[i].name)
  }

  /** The queue as indices into the caller's array, read against the burst times `b`. */
  function JobsOf(ids: seq<nat>, b: seq<int>): (q: seq<Job>)
    requires forall k :: 0 <= k < |ids| ==> ids[k] < |b|
    ensures |q| == |ids|
    ensures forall k :: 0 <= k < |ids| ==> q[k] == Job(ids[k], b[ids[k]])
  {
    seq(|ids|, k requires 0 <= k < |ids| => Job(ids[k], b[ids[k]]))
  }

  /**
   * The loop's bookkeeping: the queue holds each index at most once, and a
   * process whose index has left the queue has burst time 0.
   */
  predicate Tracked(ids: seq<nat>, b: seq<int>) {
    && (forall k :: 0 <= k < |ids| ==> ids[k] < |b|)
    && (forall k, l :: 0 <= k < l < |ids| ==> ids[k] != ids[l])
    && (forall i :: 0 <= i < |b| && i !in ids ==> b[i] == 0)
  }

  /** The caller's processes, in order, as the initial queue. */
  lemma TrackedStart(b: seq<int>)
    ensures Tracked(seq(|b|, i => i), b)
    ensures JobsOf(seq(|b|, i => i), b) == Jobs(b)
  {
    var ids: seq<nat> := seq(|b|, i => i);
    forall i | 0 <= i < |b| ensures i in ids {
      assert ids[i] == i;
    }
  }

  /** One turn on the queue of indices: the queue and the burst times afterwards. */
  function Advance(ids: seq<nat>, b: seq<int>, slice: int): (seq<nat>, seq<int>)
    requires ids != [] && ids[0] < |b|
  {
    var id := ids[0];
    if b[id] > slice then (ids[1..] + [id], b[id := b[id] - slice]) else (ids[1..], b[id := 0])
  }

  /**
   * How far the loop has come: `done` are the slices run so far, and the
   * rest of the schedule is that of the jobs still queued.
   */
  predicate Progress(start: seq<Job>, done: seq<Slice>, ids: seq<nat>, b: seq<int>, n: nat, slice: int) {
    && |b| == n
    && Tracked(ids, b)
    && Terminates(start, slice)
    && Terminates(JobsOf(ids, b), slice)
    && (forall i :: 0 <= i < |done| ==> done[i].id < n)
    && Schedule(start, slice) == done + Schedule(JobsOf(ids, b), slice)
  }

  /** The bookkeeping holds at the start of the loop. */
  lemma ProgressStart(b: seq<int>, slice: int)
    requires Terminates(Jobs(b), slice)
    ensures Progress(Jobs(b), [], seq(|b|, i => i), b, |b|, slice)
  {
    TrackedStart(b);
  }

  /** The front process runs a slice and goes to the back with the slice subtracted. */
  lemma RequeueTurn(ids: seq<nat>, b: seq<int>, slice: int)
    requires ids != [] && Tracked(ids, b) && b[ids[0]] > slice
    ensures Tracked(Advance(ids, b, slice).0, Advance(ids, b, slice).1)
    ensures JobsOf(Advance(ids, b, slice).0, Advance(ids, b, slice).1) == Turn(JobsOf(ids, b), slice).1
  {
    var ids', b' := ids[1..] + [ids[0]], b[ids[0] := b[ids[0]] - slice];
    forall i | 0 <= i < |b'| && i !in ids' ensures b'[i] == 0 {
      assert i !in ids;
    }
  }

  /** The front process runs what it has left, leaves the queue and keeps burst time 0. */
  lemma FinishTurn(ids: seq<nat>, b: seq<int>, slice: int)
    requires ids != [] && Tracked(ids, b) && b[ids[0]] <= slice
    ensures Tracked(Advance(ids, b, slice).0, Advance(ids, b, slice).1)
    ensures JobsOf(Advance(ids, b, slice).0, Advance(ids, b, slice).1) == Turn(JobsOf(ids, b), slice).1
  {
    var ids', b' := ids[1..], b[ids[0] := 0];
    forall i | 0 <= i < |b'| && i !in ids' ensures b'[i] == 0 {
      if i != ids[0] {
        assert i !in ids;
      }
    }
  }

  /**
   * One turn of the loop keeps the bookkeeping, adds the slice of the front
   * process to `done` and leaves one turn less to do.
   */
  lemma ProgressTurn(start: seq<Job>, done: seq<Slice>, ids: seq<nat>, b: seq<int>, n: nat, slice: int)
    requires ids != [] && Progress(start, done, ids, b, n, slice)
    ensures var id := ids[0];
      var s := Slice(id, if b[id] > slice then slice else b[id], b[id] <= slice);
      && Progress(start, done + [s], Advance(ids, b, slice).0, Advance(ids, b, slice).1, n, slice)
      && Work(JobsOf(Advance(ids, b, slice).0, Advance(ids, b, slice).1), slice) < Work(JobsOf(ids, b), slice)
  {
    var jobs := JobsOf(ids, b);
    ScheduleTurn(start, done, jobs, slice);
    TurnProgress(jobs, slice);
    if b[ids[0]] > slice {
      RequeueTurn(ids, b, slice);
    } else {
      FinishTurn(ids, b, slice);
    }
  }

  /** One more slice at the end of the trace is one more event. */
  lemma LabelSnoc(s: seq<Slice>, x: Slice, names: seq<string>)
    requires forall i :: 0 <= i < |s| ==> s[i].id < |names|
    requires x.id < |names|
    ensures Label(s + [x], names) == Label(s, names) + [Event(names[x.id], x.units, x.finished)]
  {
  }

  /** After the slices `done`, one more turn moves the front slice into `done`. */
  lemma ScheduleTurn(start: seq<Job>, done: seq<Slice>, queue: seq<Job>, slice: int)
    requires Terminates(start, slice) && queue != [] && Terminates(queue, slice)
    requires Schedule(start, slice) == done + Schedule(queue, slice)
    ensures Terminates(Turn(queue, slice).1, slice)
    ensures Schedule(start, slice) == (done + [Turn(queue, slice).0]) + Schedule(Turn(queue, slice).1, slice)
  {
    TurnProgress(queue, slice);
    var (s, rest) := Turn(queue, slice);
    assert Schedule(queue, slice) == [s] + Schedule(rest, slice);
    assert done + ([s] + Schedule(rest, slice)) == (done + [s]) + Schedule(rest, slice);
  }

  /**
   * One pass of the loop body: takes the process at the front of the queue,
   * runs it for a slice or for what it has left, and puts it back at the end
   * if it is not finished. The ghost parameters say which process of the
   * caller's array each queue entry is (`ids`) and what every process's
   * burst time and name are (`bursts`, `names`).
   */
  method ServeFront(processes: array<Process>, queue: seq<Process>, timeSlice: int,
                    ghost ids: seq<nat>, ghost bursts: seq<int>, ghost names: seq<string>)
      returns (queue': seq<Process>, event: Event)
    requires forall i, j :: 0 <= i < j < processes.Length ==> processes[i] != processes[j]
    requires queue != [] && |ids| == |queue| && |bursts| == |names| == processes.Length
    requires forall k :: 0 <= k < |queue| ==> ids[k] < processes.Length && queue[k] == processes[ids[k]]
    requires forall i :: 0 <= i < processes.Length ==> processes[i].burstTime == bursts[i] && processes[i].name == names[i]
    modifies queue[0]
    ensures var (ids', bursts') := Advance(ids, bursts, timeSlice);
      && |ids'| == |queue'|
      && (forall k :: 0 <= k < |queue'| ==> queue'[k] == processes[ids'[k]])
      && (forall i :: 0 <= i < processes.Length ==> processes[i].burstTime == bursts'[i] && processes[i].name == names[i])
    ensures var b := bursts[ids[0]];
      event == Event(names[ids[0]], if b > timeSlice then timeSlice else b, b <= timeSlice)
  {
    var process := queue[0];
    ghost var id := ids[0];
    if process.burstTime > timeSlice {
      event := Event(process.name, timeSlice, false);
      process.burstTime := process.burstTime - timeSlice;
      queue' := queue[1..] + [process];
    } else {
      event := Event(process.name, process.burstTime, true);
      process.burstTime := 0;
      queue' := queue[1..];
    }
    assert forall j :: 0 <= j < processes.Length && j != id ==> processes[j] != process;
  }

  /**
   * `roundRobin`: runs the loop over the caller's processes, which must be
   * distinct objects, with a slice for which the loop ends. It returns one
   * event per turn, the events being the schedule of the initial burst
   * times; every process ends with burst time 0, names are kept, and the
   * caller's array itself is not changed.
   */
  method RoundRobin(processes: array<Process>, timeSlice: int) returns (trace: seq<Event>)
    requires forall i, j :: 0 <= i < j < processes.Length ==> processes[i] != processes[j]
    requires Terminates(Jobs(Bursts(processes)), timeSlice)
    modifies set i | 0 <= i < processes.Length :: processes[i]
    ensures forall i :: 0 <= i < processes.Length ==> processes[i].burstTime == 0
    ensures Names(processes) == old(Names(processes))
    ensures processes[..] == old(processes[..])
    ensures forall i :: 0 <= i < |Schedule(Jobs(old(Bursts(processes))), timeSlice)| ==>
      Schedule(Jobs(old(Bursts(processes))), timeSlice)[i].id < processes.Length
    ensures trace == Label(Schedule(Jobs(old(Bursts(processes))), timeSlice), old(Names(processes)))
  {
    ghost var bursts := Bursts(processes);
    ghost var start := Jobs(bursts);
    ghost var names := Names(processes);
    ghost var n := processes.Length;
    SliceIds(start, timeSlice, n);
    var queue := processes[..];
    ghost var ids: seq<nat> := seq(n, i => i);
    ghost var done: seq<Slice> := [];
    trace := [];
    ProgressStart(bursts, timeSlice);
    while |queue| > 0
      invariant |ids| == |queue|
      invariant Progress(start, done, ids, bursts, n, timeSlice)
      invariant forall k :: 0 <= k < |queue| ==> queue[k] == processes[ids[k]]
      invariant forall i :: 0 <= i < n ==> processes[i].burstTime == bursts[i]
      invariant forall i :: 0 <= i < n ==> processes[i].name == names[i]
      invariant trace == Label(done, names)
      decreases Work(JobsOf(ids, bursts), timeSlice)
    {
      ghost var id := ids[0];
      ghost var s := Slice(id, if bursts[id] > timeSlice then timeSlice else bursts[id], bursts[id] <= timeSlice);
      ProgressTurn(start, done, ids, bursts, n, timeSlice);
      LabelSnoc(done, s, names);
      var event;
      queue, event := ServeFront(processes, queue, timeSlice, ids, bursts, names);
      trace := trace + [event];
      ids, bursts := Advance(ids, bursts, timeSlice).0, Advance(ids, bursts, timeSlice).1;
      done := done + [s];
    }
  }
}
