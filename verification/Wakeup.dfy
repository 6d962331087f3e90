/**
  The path from an interrupt to its consumer, as interleaved steps: the handlers of the
  stream modules, futures' AtomicWaker, the check/register/check of `poll_next`, and the executor's
  ready queue, poll loop and halt (kernel/src/task/keyboard.rs, executor.rs).

  One CPU runs the executor; an interrupt may fire between any two of its steps except while
  `sleep_if_idle` has interrupts disabled.
 */
module Wakeup {
  import opened Bytes
  import opened ByteRing

  const QUEUE_CAPACITY: nat := 100

  /** AtomicWaker: nothing stored, this task's waker stored, or a registration under way. */
  datatype Waker = Empty | Registered | Registering(woken: bool)

  /** One input stream; `accepted` and `delivered` record what went in and what came out. */
  datatype Stream = Stream(ring: Ring, waker: Waker, accepted: Text, delivered: Text)

  /** Where a poll of `poll_next` stands. */
  datatype Stage =
    | FirstCheck | Register | FinishRegister | SecondCheck | TakeWaker
    | ReadByte | AdvanceTail(b: byte) | ReturnPending

  datatype Cpu =
    | Dispatch                            // about to pop the ready queue
    | Polling(id: nat, stage: Stage)      // inside the poll of stream task `id`
    | Running(id: nat)                    // inside the poll of another task
    | Leaving                             // found the queue empty, interrupts still enabled
    | IdleCheck                           // interrupts disabled, looking at the queue again
    | Halted

  /** Stream tasks have ids below |streams|; `others` are the remaining live tasks. */
  datatype State = State(streams: seq<Stream>, others: set<nat>, queue: seq<nat>, cpu: Cpu, panicked: bool)

  datatype Label =
    | Interrupt(id: nat, b: byte)         // a byte arrives for stream `id`
    | Timer                               // any other interrupt
    | Execute(rewake: bool, finish: bool) // the CPU takes its next step; the flags steer other tasks

  // ---------------------------------------------------------------- steps

  function Push(s: State, id: nat): State {
    if |s.queue| < QUEUE_CAPACITY then s.(queue := s.queue + [id]) else s.(panicked := true)
  }

  function SetStream(s: State, id: nat, t: Stream): State
    requires id < |s.streams|
  {
    s.(streams := s.streams[id := t])
  }

  /** `AtomicWaker::wake`. */
  function Wake(s: State, id: nat): State
    requires id < |s.streams|
  {
    var t := s.streams[id];
    match t.waker
    case Empty => s
    case Registered => Push(SetStream(s, id, t.(waker := Empty)), id)
    case Registering(_) => SetStream(s, id, t.(waker := Registering(true)))
  }

  function Resume(s: State): State {
    if s.cpu == Halted then s.(cpu := Dispatch) else s
  }

  function HandleByte(s: State, id: nat, b: byte): State
    requires id < |s.streams| && RingOk(s.streams[id].ring)
  {
    var t := s.streams[id];
    if Full(t.ring) then s
    else Wake(SetStream(s, id, t.(ring := Add(t.ring, b), accepted := t.accepted + [b])), id)
  }

  function GoTo(s: State, id: nat, stage: Stage): State {
    s.(cpu := Polling(id, stage))
  }

  /** The next step of the poll of stream task `id`. */
  function PollStep(s: State, id: nat, stage: Stage): State
    requires id < |s.streams| && RingOk(s.streams[id].ring)
  {
    var t := s.streams[id];
    match stage
    case FirstCheck => GoTo(s, id, if HasData(t.ring) then ReadByte else Register)
    case Register => GoTo(SetStream(s, id, t.(waker := Registering(false))), id, FinishRegister)
    case FinishRegister =>
      if t.waker == Registering(true)
      then GoTo(Push(SetStream(s, id, t.(waker := Empty)), id), id, SecondCheck)
      else GoTo(SetStream(s, id, t.(waker := Registered)), id, SecondCheck)
    case SecondCheck => GoTo(s, id, if HasData(t.ring) then TakeWaker else ReturnPending)
    case TakeWaker => GoTo(SetStream(s, id, t.(waker := Empty)), id, ReadByte)
    case ReadByte => GoTo(s, id, AdvanceTail(t.ring.buffer[t.ring.tail]))
    case AdvanceTail(b) =>
      GoTo(SetStream(s, id, t.(ring := Advance(t.ring), delivered := t.delivered + [b])), id, FirstCheck)
    case ReturnPending => s.(cpu := Dispatch)
  }

  /** `run_ready_tasks` pops one id and polls its task, if that is still alive. */
  function Pop(s: State): State
    requires s.queue != []
  {
    var id, s' := s.queue[0], s.(queue := s.queue[1..]);
    if id < |s.streams| then GoTo(s', id, FirstCheck)
    else if id in s.others then s'.(cpu := Running(id))
    else s'
  }

  /** Another task wakes itself again, finishes, or returns pending. */
  function OtherStep(s: State, id: nat, rewake: bool, finish: bool): State {
    if rewake then Push(s, id)
    else if finish then s.(others := s.others - {id}, cpu := Dispatch)
    else s.(cpu := Dispatch)
  }

  function CpuStep(s: State, rewake: bool, finish: bool): State
    requires forall i :: 0 <= i < |s.streams| ==> RingOk(s.streams[i].ring)
  {
    match s.cpu
    case Dispatch => if s.queue == [] then s.(cpu := Leaving) else Pop(s)
    case Running(id) => OtherStep(s, id, rewake, finish)
    case Leaving => s.(cpu := IdleCheck)
    case Polling(id, stage) => if id < |s.streams| then PollStep(s, id, stage) else s
    case IdleCheck => s.(cpu := if s.queue == [] then Halted else Dispatch)
    case Halted => s
  }

  predicate RingsOk(s: State) {
    forall i :: 0 <= i < |s.streams| ==> RingOk(s.streams[i].ring)
  }

  /** One step; a panic stops the run, and a step that is not enabled changes nothing. */
  function Step(s: State, l: Label): State
    requires RingsOk(s)
  {
    if s.panicked then s
    else
      match l
      case Interrupt(id, b) =>
        if s.cpu == IdleCheck || id >= |s.streams| then s else Resume(HandleByte(s, id, b))
      case Timer => if s.cpu == IdleCheck then s else Resume(s)
      case Execute(rewake, finish) => CpuStep(s, rewake, finish)
  }

  // ---------------------------------------------------------------- the invariant

  /** A parked task is covered: queued, or its waker is stored and there is nothing to serve. */
  predicate Covered(s: State, id: nat)
    requires id < |s.streams|
  {
    id in s.queue || (s.streams[id].waker == Registered && !HasData(s.streams[id].ring))
  }

  /** What holds of stream `id` given where the CPU stands. */
  predicate StreamInv(s: State, id: nat)
    requires id < |s.streams|
  {
    var t := s.streams[id];
    && RingOk(t.ring)
    && t.accepted == t.delivered + Contents(t.ring)
    && (t.waker.Registering? <==> s.cpu == Polling(id, FinishRegister))
    && (if s.cpu.Polling? && s.cpu.id == id then
          match s.cpu.stage
          case SecondCheck => id in s.queue || t.waker == Registered
          case TakeWaker => HasData(t.ring)
          case ReadByte => HasData(t.ring)
          case AdvanceTail(b) => HasData(t.ring) && b == t.ring.buffer[t.ring.tail]
          case ReturnPending => Covered(s, id)
          case _ => true
        else Covered(s, id))
  }

  predicate Inv(s: State) {
    s.panicked || forall id :: 0 <= id < |s.streams| ==> StreamInv(s, id)
  }

  /** Every stream task has just been spawned; bytes may have arrived before that. */
  predicate Init(s: State) {
    && !s.panicked && s.cpu == Dispatch
    && (forall id :: 0 <= id < |s.streams| ==>
          && id in s.queue
          && RingOk(s.streams[id].ring) && s.streams[id].waker == Empty
          && s.streams[id].accepted == Contents(s.streams[id].ring) && s.streams[id].delivered == [])
  }

  lemma WakeOther(s: State, id: nat, j: nat)
    requires id < |s.streams| && j < |s.streams| && j != id
    requires StreamInv(s, j)
    ensures !Wake(s, id).panicked ==> StreamInv(Wake(s, id), j)
  {
  }

  lemma ByteForOther(s: State, id: nat, b: byte, j: nat)
    requires id < |s.streams| && j < |s.streams| && j != id && RingOk(s.streams[id].ring)
    requires StreamInv(s, j)
    ensures !HandleByte(s, id, b).panicked ==> StreamInv(HandleByte(s, id, b), j)
  {
    var t := s.streams[id];
    if !Full(t.ring) {
      WakeOther(SetStream(s, id, t.(ring := Add(t.ring, b), accepted := t.accepted + [b])), id, j);
    }
  }

  lemma ByteForStream(s: State, id: nat, b: byte)
    requires id < |s.streams| && StreamInv(s, id) && !s.panicked
    ensures !HandleByte(s, id, b).panicked ==> StreamInv(HandleByte(s, id, b), id)
  {
    var t := s.streams[id];
    AddAppends(t.ring, b);
    if HasData(t.ring) {
      AddKeepsFront(t.ring, b);
    }
    if !Full(t.ring) {
      assert t.accepted + [b] == t.delivered + (Contents(t.ring) + [b]);
    }
  }

  lemma ResumeInv(s: State, id: nat)
    requires id < |s.streams| && StreamInv(s, id)
    ensures StreamInv(Resume(s), id)
  {
  }

  lemma PollOther(s: State, id: nat, stage: Stage, j: nat)
    requires id < |s.streams| && j < |s.streams| && j != id
    requires s.cpu == Polling(id, stage) && RingOk(s.streams[id].ring)
    requires StreamInv(s, j)
    ensures !PollStep(s, id, stage).panicked ==> StreamInv(PollStep(s, id, stage), j)
  {
  }

  /** A poll step that leaves ring, waker and history alone moves between compatible stages. */
  lemma CheckSelf(s: State, id: nat, stage: Stage)
    requires id < |s.streams| && s.cpu == Polling(id, stage) && StreamInv(s, id) && !s.panicked
    requires stage in {FirstCheck, SecondCheck, ReadByte, ReturnPending}
    ensures StreamInv(PollStep(s, id, stage), id)
  {
  }

  lemma WakerSelf(s: State, id: nat, stage: Stage)
    requires id < |s.streams| && s.cpu == Polling(id, stage) && StreamInv(s, id) && !s.panicked
    requires stage in {Register, FinishRegister, TakeWaker}
    ensures !PollStep(s, id, stage).panicked ==> StreamInv(PollStep(s, id, stage), id)
  {
  }

  lemma AdvanceSelf(s: State, id: nat, b: byte)
    requires id < |s.streams| && s.cpu == Polling(id, AdvanceTail(b)) && StreamInv(s, id)
    ensures StreamInv(PollStep(s, id, AdvanceTail(b)), id)
  {
    var t := s.streams[id];
    var rest := Contents(Advance(t.ring));
    AdvanceDropsFront(t.ring);
    assert t.delivered + ([b] + rest) == t.delivered + [b] + rest;
  }

  lemma PollSelf(s: State, id: nat, stage: Stage)
    requires id < |s.streams| && s.cpu == Polling(id, stage) && StreamInv(s, id) && !s.panicked
    ensures !PollStep(s, id, stage).panicked ==> StreamInv(PollStep(s, id, stage), id)
  {
    if stage.AdvanceTail? {
      AdvanceSelf(s, id, stage.b);
    } else if stage in {Register, FinishRegister, TakeWaker} {
      WakerSelf(s, id, stage);
    } else {
      CheckSelf(s, id, stage);
    }
  }

  lemma DispatchStep(s: State, rewake: bool, finish: bool, j: nat)
    requires s.cpu == Dispatch && j < |s.streams| && StreamInv(s, j) && !s.panicked && RingsOk(s)
    ensures !CpuStep(s, rewake, finish).panicked ==> StreamInv(CpuStep(s, rewake, finish), j)
  {
    if s.queue != [] {
      assert forall x :: x in s.queue && x != s.queue[0] ==> x in s.queue[1..];
    }
  }

  lemma StepKeepsStream(s: State, l: Label, j: nat)
    requires Inv(s) && !s.panicked && RingsOk(s) && j < |s.streams|
    ensures !Step(s, l).panicked ==> StreamInv(Step(s, l), j)
  {
    match l {
      case Interrupt(id, b) =>
        if s.cpu != IdleCheck && id < |s.streams| {
          if id == j {
            ByteForStream(s, id, b);
          } else {
            ByteForOther(s, id, b, j);
          }
          if !HandleByte(s, id, b).panicked {
            ResumeInv(HandleByte(s, id, b), j);
          }
        }
      case Timer =>
        ResumeInv(s, j);
      case Execute(rewake, finish) =>
        match s.cpu {
          case Dispatch => DispatchStep(s, rewake, finish, j);
          case Polling(id, stage) =>
            if id < |s.streams| {
              if id == j {
                PollSelf(s, id, stage);
              } else {
                PollOther(s, id, stage, j);
              }
            }
          case Running(_) =>
          case Leaving =>
          case IdleCheck =>
          case Halted =>
        }
    }
  }

  lemma StepKeepsRings(s: State, l: Label)
    requires RingsOk(s)
    ensures RingsOk(Step(s, l)) && |Step(s, l).streams| == |s.streams|
  {
  }

  lemma StepInv(s: State, l: Label)
    requires Inv(s) && RingsOk(s)
    ensures Inv(Step(s, l)) && RingsOk(Step(s, l)) && |Step(s, l).streams| == |s.streams|
  {
    StepKeepsRings(s, l);
    if !s.panicked && !Step(s, l).panicked {
      forall j | 0 <= j < |s.streams|
        ensures StreamInv(Step(s, l), j)
      {
        StepKeepsStream(s, l, j);
      }
    }
  }

  // ---------------------------------------------------------------- whole runs

  /** The state after a run of labels. */
  function Run(s: State, ls: seq<Label>): (r: State)
    requires RingsOk(s)
    ensures RingsOk(r) && |r.streams| == |s.streams|
  {
    if ls == [] then s
    else
      StepKeepsRings(Run(s, ls[..|ls| - 1]), ls[|ls| - 1]);
      Step(Run(s, ls[..|ls| - 1]), ls[|ls| - 1])
  }

  lemma InitInv(s: State)
    requires Init(s)
    ensures Inv(s) && RingsOk(s)
  {
  }

  lemma {:induction false} RunKeepsInv(s: State, ls: seq<Label>)
    requires Inv(s) && RingsOk(s)
    ensures Inv(Run(s, ls))
  {
    if ls == [] {
    } else {
      RunKeepsInv(s, ls[..|ls| - 1]);
      StepInv(Run(s, ls[..|ls| - 1]), ls[|ls| - 1]);
    }
  }

  lemma RunInv(s: State, ls: seq<Label>)
    requires Init(s) && RingsOk(s)
    ensures Inv(Run(s, ls))
  {
    InitInv(s);
    RunKeepsInv(s, ls);
  }

  /**
    No lost wakeup: in every run, a stream task that is not being polled and has a byte waiting is in
    the ready queue.
   */
  lemma NoLostWakeup(s: State, ls: seq<Label>, id: nat)
    requires Init(s) && RingsOk(s) && id < |s.streams|
    ensures var r := Run(s, ls);
            !r.panicked && !(r.cpu.Polling? && r.cpu.id == id) && Contents(r.streams[id].ring) != [] ==>
              id in r.queue
  {
    RunInv(s, ls);
    var r := Run(s, ls);
    if !r.panicked {
      assert StreamInv(r, id);
      FullIff(r.streams[id].ring);
    }
  }

  /** The CPU halts only when no stream holds an unserved byte and every stream will be woken. */
  lemma HaltsOnlyWhenIdle(s: State, ls: seq<Label>, id: nat)
    requires Init(s) && RingsOk(s) && id < |s.streams|
    ensures var r := Run(s, ls);
            !r.panicked && r.cpu == Halted ==>
              r.queue == [] && Contents(r.streams[id].ring) == [] && r.streams[id].waker == Registered
  {
    RunInv(s, ls);
    HaltedQueue(s, ls);
    var r := Run(s, ls);
    if !r.panicked && r.cpu == Halted {
      assert StreamInv(r, id);
      FullIff(r.streams[id].ring);
    }
  }

  /** While halted nothing is queued: any interrupt that queues a task also resumes the CPU. */
  lemma {:induction false} HaltedQueue(s: State, ls: seq<Label>)
    requires Init(s) && RingsOk(s)
    ensures !Run(s, ls).panicked && Run(s, ls).cpu == Halted ==> Run(s, ls).queue == []
  {
    if ls == [] {
    } else {
      HaltedQueue(s, ls[..|ls| - 1]);
    }
  }

  /**
    The second look at the queue is needed: a byte that arrives after the queue was found empty and
    before interrupts are disabled queues its task, and the CPU goes back to it instead of halting.
   */
  lemma SecondLookCatchesByte(s: State, id: nat, b: byte, l: Label)
    requires Inv(s) && RingsOk(s) && !s.panicked && s.cpu == Leaving && s.queue == []
    requires id < |s.streams| && |s.streams[id].ring.buffer| > 1 && l.Execute?
    ensures RingsOk(Step(s, Interrupt(id, b))) && RingsOk(Step(Step(s, Interrupt(id, b)), l))
    ensures var r := Step(Step(Step(s, Interrupt(id, b)), l), l);
            !r.panicked && r.cpu == Dispatch && r.queue == [id] && r.streams[id].accepted == s.streams[id].accepted + [b]
  {
    assert StreamInv(s, id);
    StepKeepsRings(s, Interrupt(id, b));
    StepKeepsRings(Step(s, Interrupt(id, b)), l);
    FullIff(s.streams[id].ring);
  }

  /** Bytes come out in the order they were accepted, none lost, none twice. */
  lemma DeliveredInOrder(s: State, ls: seq<Label>, id: nat)
    requires Init(s) && RingsOk(s) && id < |s.streams|
    ensures var r := Run(s, ls);
            !r.panicked ==>
              r.streams[id].accepted == r.streams[id].delivered + Contents(r.streams[id].ring)
  {
    RunInv(s, ls);
    var r := Run(s, ls);
    if !r.panicked {
      assert StreamInv(r, id);
    }
  }

  // ---------------------------------------------------------------- what single steps achieve

  /** An interrupt is accepted unless the ring is full; only a full ring drops a byte. */
  lemma InterruptAccepts(s: State, id: nat, b: byte)
    requires RingsOk(s) && id < |s.streams| && !s.panicked && s.cpu != IdleCheck
    ensures var t, t' := s.streams[id], Step(s, Interrupt(id, b)).streams[id];
            && t'.accepted == (if |Contents(t.ring)| < |t.ring.buffer| - 1 then t.accepted + [b] else t.accepted)
            && t'.delivered == t.delivered
            && Step(s, Interrupt(id, b)).cpu != Halted
  {
    FullIff(s.streams[id].ring);
  }

  /** A poll that finds a byte hands out the oldest one and polls again, in three CPU steps. */
  lemma PollServesByte(s: State, id: nat, l: Label)
    requires RingsOk(s) && !s.panicked && id < |s.streams| && l.Execute?
    requires s.cpu == Polling(id, FirstCheck) && HasData(s.streams[id].ring)
    ensures RingsOk(Step(s, l)) && RingsOk(Step(Step(s, l), l))
    ensures var t, r := s.streams[id], Step(Step(Step(s, l), l), l);
            && r.cpu == Polling(id, FirstCheck) && |r.streams| == |s.streams| && RingsOk(r)
            && Contents(t.ring) == [Contents(t.ring)[0]] + Contents(r.streams[id].ring)
            && r.streams[id].delivered == t.delivered + [Contents(t.ring)[0]]
  {
    StepKeepsRings(s, l);
    StepKeepsRings(Step(s, l), l);
    StepKeepsRings(Step(Step(s, l), l), l);
    AdvanceDropsFront(s.streams[id].ring);
  }

  // ---------------------------------------------------------------- bounded service

  /** The position of the first `id` in the queue. */
  function Rank(q: seq<nat>, id: nat): (k: nat)
    requires id in q
    ensures k < |q| && q[k] == id
    ensures forall i :: 0 <= i < k ==> q[i] != id
  {
    if q[0] == id then 0 else 1 + Rank(q[1..], id)
  }

  predicate Pops(s: State, l: Label) {
    l.Execute? && s.cpu == Dispatch && s.queue != [] && !s.panicked
  }

  /** The task called `id` exists: one of the streams, or another that has not finished. */
  predicate Live(s: State, id: nat) {
    id < |s.streams| || id in s.others
  }

  /** A poll of the task called `id` begins in this state. */
  predicate PollBegins(s: State, id: nat) {
    s.cpu == if id < |s.streams| then Polling(id, FirstCheck) else Running(id)
  }

  /** A pop takes the front id: a live task's poll begins, a dead id is dropped, and nothing else changes. */
  lemma PopPolls(s: State, l: Label)
    requires RingsOk(s) && Pops(s, l)
    ensures var r, id := Step(s, l), s.queue[0];
            && r.queue == s.queue[1..] && r.streams == s.streams && r.others == s.others && !r.panicked
            && (Live(s, id) ==> PollBegins(r, id))
            && (!Live(s, id) ==> r.cpu == Dispatch)
  {
  }

  /** A task leaves the executor exactly when its own poll finishes; none appears. */
  lemma LeavesIff(s: State, l: Label, id: nat)
    requires RingsOk(s)
    ensures id in Step(s, l).others <==>
              id in s.others && !(!s.panicked && s.cpu == Running(id) && l.Execute? && !l.rewake && l.finish)
  {
  }

  /** Every step leaves the rank of a queued task alone, except that a pop lowers it by one. */
  lemma StepRank(s: State, l: Label, id: nat)
    requires RingsOk(s) && id in s.queue && !Step(s, l).panicked
    ensures Pops(s, l) && s.queue[0] == id && Live(s, id) ==> PollBegins(Step(s, l), id)
    ensures !(Pops(s, l) && s.queue[0] == id) ==>
              && id in Step(s, l).queue
              && Rank(Step(s, l).queue, id) == Rank(s.queue, id) - (if Pops(s, l) then 1 else 0)
  {
    var q, q' := s.queue, Step(s, l).queue;
    if Pops(s, l) {
      var rest := q[1..];
      if q[0] != id {
        assert id in rest;
        RankAppend(rest, q', id);
      }
    } else {
      RankAppend(q, q', id);
    }
  }

  lemma RankAppend(q: seq<nat>, q': seq<nat>, id: nat)
    requires id in q && q <= q'
    ensures id in q' && Rank(q', id) == Rank(q, id)
  {
    assert q'[Rank(q, id)] == id;
  }

  /** How many pops a run makes. */
  function PopCount(s: State, ls: seq<Label>): nat
    requires RingsOk(s)
  {
    if ls == [] then 0
    else
      var init := ls[..|ls| - 1];
      PopCount(s, init) + (if Pops(Run(s, init), ls[|ls| - 1]) then 1 else 0)
  }

  /** Some prefix of the run begins a poll of the task called `id`. */
  predicate Served(s: State, ls: seq<Label>, id: nat)
    requires RingsOk(s)
  {
    ls != [] && (Served(s, ls[..|ls| - 1], id) || PollBegins(Run(s, ls), id))
  }

  /** While a task is not polled it stays alive. */
  lemma StaysLive(s: State, l: Label, id: nat)
    requires RingsOk(s) && Live(s, id) && s.cpu != Running(id)
    ensures Live(Step(s, l), id) && (Step(s, l).cpu == Running(id) ==> id >= |s.streams|)
  {
    StepKeepsRings(s, l);
    LeavesIff(s, l, id);
  }

  /** A live, queued task is polled before the run makes more pops than stood ahead of it. */
  lemma {:induction false} ServedInTurn(s: State, ls: seq<Label>, id: nat)
    requires RingsOk(s) && Live(s, id) && s.cpu != Running(id) && id in s.queue && !Run(s, ls).panicked
    ensures Served(s, ls, id) ||
            (Live(Run(s, ls), id) && Run(s, ls).cpu != Running(id) && id in Run(s, ls).queue
             && PopCount(s, ls) + Rank(Run(s, ls).queue, id) == Rank(s.queue, id))
  {
    if ls == [] {
    } else {
      var init, l := ls[..|ls| - 1], ls[|ls| - 1];
      ServedInTurn(s, init, id);
      if !Served(s, init, id) {
        StepRank(Run(s, init), l, id);
        StaysLive(Run(s, init), l, id);
      }
    }
  }

  /** Bounded wait: more pops than a live task's rank means it has been polled. */
  lemma BoundedWait(s: State, ls: seq<Label>, id: nat)
    requires RingsOk(s) && Live(s, id) && s.cpu != Running(id) && id in s.queue && !Run(s, ls).panicked
    requires PopCount(s, ls) > Rank(s.queue, id)
    ensures Served(s, ls, id)
  {
    ServedInTurn(s, ls, id);
  }

  /** A task that wakes itself in its poll and returns pending is alive and queued behind the others. */
  lemma SelfWakeQueues(s: State, id: nat)
    requires RingsOk(s) && !s.panicked && s.cpu == Running(id) && id in s.others && |s.queue| < 100
    ensures var r := Step(Step(s, Execute(true, false)), Execute(false, false));
            r == s.(queue := s.queue + [id], cpu := Dispatch)
            && Live(r, id) && Rank(r.queue, id) <= |s.queue|
  {
    assert (s.queue + [id])[|s.queue|] == id;
  }

  /** So it is polled again before more pops than there were tasks in the queue, and one. */
  lemma SelfWakePolledAgain(s: State, id: nat, ls: seq<Label>)
    requires RingsOk(s) && !s.panicked && s.cpu == Running(id) && id in s.others && |s.queue| < 100
    requires var r := Step(Step(s, Execute(true, false)), Execute(false, false));
             RingsOk(r) && !Run(r, ls).panicked && PopCount(r, ls) > |s.queue|
    ensures Served(Step(Step(s, Execute(true, false)), Execute(false, false)), ls, id)
  {
    SelfWakeQueues(s, id);
    BoundedWait(Step(Step(s, Execute(true, false)), Execute(false, false)), ls, id);
  }

  /** Something is pushed on the ready queue in this step: by an interrupt's or a poll's wake-up. */
  predicate Pushes(s: State, l: Label)
    requires RingsOk(s)
  {
    match l
    case Interrupt(id, _) =>
      s.cpu != IdleCheck && id < |s.streams| && !Full(s.streams[id].ring) && s.streams[id].waker == Registered
    case Timer => false
    case Execute(rewake, _) =>
      match s.cpu
      case Running(_) => rewake
      case Polling(id, FinishRegister) => id < |s.streams| && s.streams[id].waker == Registering(true)
      case _ => false
  }

  /** The run ends in the panic exactly when something is pushed on a queue of 100. */
  lemma PanicsIff(s: State, l: Label)
    requires RingsOk(s) && !s.panicked
    ensures Step(s, l).panicked <==> Pushes(s, l) && |s.queue| >= 100
  {
  }

  // ---------------------------------------------------------------- whole polls, undisturbed

  /** A poll of an empty ring stores the waker and parks the task. */
  lemma PollParks(s: State, id: nat, l: Label)
    requires RingsOk(s) && !s.panicked && id < |s.streams| && l.Execute? && !HasData(s.streams[id].ring)
    requires s.cpu == Polling(id, FirstCheck)
    ensures var s1 := SetStream(s, id, s.streams[id].(waker := Registering(false)));
            var s2 := SetStream(s, id, s.streams[id].(waker := Registered));
            && Step(s, l) == GoTo(s, id, Register)
            && Step(GoTo(s, id, Register), l) == GoTo(s1, id, FinishRegister)
            && RingsOk(s1) && Step(GoTo(s1, id, FinishRegister), l) == GoTo(s2, id, SecondCheck)
            && RingsOk(s2) && Step(GoTo(s2, id, SecondCheck), l) == GoTo(s2, id, ReturnPending)
            && Step(GoTo(s2, id, ReturnPending), l) == s2.(cpu := Dispatch)
  {
  }

  /** An interrupt during the registration is noticed at its end: the task is queued and no waker stays behind. */
  lemma RacedRegistration(s: State, id: nat, l: Label)
    requires RingsOk(s) && !s.panicked && id < |s.streams| && l.Execute? && |s.queue| < 100
    requires s.cpu == Polling(id, FinishRegister) && s.streams[id].waker == Registering(true)
    ensures Step(s, l) == GoTo(SetStream(s, id, s.streams[id].(waker := Empty)), id, SecondCheck).(queue := s.queue + [id])
  {
  }

  /** An interrupt takes a stored waker and queues its task; without one it leaves the queue alone. */
  lemma InterruptWakes(s: State, id: nat, b: byte)
    requires RingsOk(s) && !s.panicked && id < |s.streams| && s.cpu != IdleCheck && |s.queue| < 100
    ensures var t, r := s.streams[id], Step(s, Interrupt(id, b));
            && r.queue == (if !Full(t.ring) && t.waker == Registered then s.queue + [id] else s.queue)
            && (!Full(t.ring) ==> r.streams[id].waker == if t.waker.Registering? then Registering(true) else Empty)
            && r.cpu == (if s.cpu == Halted then Dispatch else s.cpu)
  {
  }

  /** Any other interrupt only ends a halt. */
  lemma TimerResumes(s: State)
    requires RingsOk(s) && !s.panicked
    ensures Step(s, Timer) == if s.cpu == Halted then s.(cpu := Dispatch) else s
  {
  }

  /** A byte found by the second check is handed out after the waker has been taken back. */
  lemma LateByteServed(s: State, id: nat, l: Label)
    requires RingsOk(s) && !s.panicked && id < |s.streams| && l.Execute? && HasData(s.streams[id].ring)
    requires s.cpu == Polling(id, SecondCheck)
    ensures var s1 := SetStream(s, id, s.streams[id].(waker := Empty));
            && Step(s, l) == GoTo(s, id, TakeWaker)
            && Step(GoTo(s, id, TakeWaker), l) == GoTo(s1, id, ReadByte)
            && RingsOk(s1)
            && Step(GoTo(s1, id, ReadByte), l) == GoTo(s1, id, AdvanceTail(Contents(s.streams[id].ring)[0]))
  {
    AdvanceDropsFront(s.streams[id].ring);
  }

  // ---------------------------------------------------------------- bounded delivery

  /** Poll steps until the next byte is handed out, when one is waiting. */
  function StageWork(stage: Stage): nat {
    match stage
    case Register => 6
    case FinishRegister => 5
    case SecondCheck => 4
    case FirstCheck => 3
    case TakeWaker => 3
    case ReadByte => 2
    case AdvanceTail(_) => 1
    case ReturnPending => 4
  }

  /** Pops until the task called `id` is polled. */
  function QueueWork(q: seq<nat>, id: nat): nat {
    if id in q then Rank(q, id) + 1 else 0
  }

  /**
    How many pops, and steps of its own polls, stream `id` needs until it has handed out `target` bytes:
    three steps a byte, once it is polled.
   */
  function Work(s: State, id: nat, target: nat): (w: nat)
    requires id < |s.streams|
    ensures w == 0 <==> |s.streams[id].delivered| >= target
  {
    var done := |s.streams[id].delivered|;
    if done >= target then 0
    else
      var later := 3 * (target - done - 1);
      if s.cpu.Polling? && s.cpu.id == id
      then later + StageWork(s.cpu.stage) + (if s.cpu.stage == ReturnPending then QueueWork(s.queue, id) else 0)
      else later + 3 + QueueWork(s.queue, id)
  }

  /** The step is a pop or a step of the poll of stream `id`. */
  predicate Advances(s: State, l: Label, id: nat) {
    Pops(s, l) || (!s.panicked && l.Execute? && s.cpu.Polling? && s.cpu.id == id)
  }

  /** Stream `id` has still to hand out its byte number `target`, which has arrived. */
  predicate Waiting(s: State, id: nat, target: nat) {
    id < |s.streams| && |s.streams[id].delivered| < target <= |s.streams[id].accepted|
  }

  /** A byte that waits is in the ring, and its task is queued unless it is being polled. */
  lemma WaitingHasData(s: State, id: nat, target: nat)
    requires Inv(s) && !s.panicked && Waiting(s, id, target)
    ensures RingOk(s.streams[id].ring) && HasData(s.streams[id].ring)
    ensures (s.cpu.Polling? && s.cpu.id == id && s.cpu.stage != ReturnPending) || id in s.queue
  {
    assert StreamInv(s, id);
    FullIff(s.streams[id].ring);
  }

  /** What a step of anyone else leaves alone. */
  predicate Unmoved(s: State, r: State, id: nat)
    requires id < |s.streams|
  {
    && |r.streams| == |s.streams| && r.streams[id].delivered == s.streams[id].delivered
    && s.queue <= r.queue
    && (r.cpu == s.cpu || !((s.cpu.Polling? && s.cpu.id == id) || (r.cpu.Polling? && r.cpu.id == id)))
  }

  lemma UnmovedWork(s: State, r: State, id: nat, target: nat)
    requires Inv(s) && !s.panicked && Waiting(s, id, target) && Unmoved(s, r, id)
    ensures Work(r, id, target) == Work(s, id, target)
  {
    WaitingHasData(s, id, target);
    if id in s.queue {
      RankAppend(s.queue, r.queue, id);
    }
  }

  lemma InterruptUnmoved(s: State, l: Label, id: nat)
    requires RingsOk(s) && id < |s.streams| && !s.panicked && !l.Execute?
    ensures Unmoved(s, Step(s, l), id)
  {
  }

  lemma OthersUnmoved(s: State, l: Label, id: nat)
    requires RingsOk(s) && id < |s.streams| && !s.panicked && l.Execute? && !Advances(s, l, id)
    ensures Unmoved(s, Step(s, l), id)
  {
  }

  /** A step of the stream's own poll does one unit of work. */
  lemma OwnWork(s: State, l: Label, id: nat, target: nat)
    requires Inv(s) && RingsOk(s) && !s.panicked && Waiting(s, id, target) && !Step(s, l).panicked
    requires l.Execute? && s.cpu.Polling? && s.cpu.id == id
    ensures |Step(s, l).streams| == |s.streams| && Work(Step(s, l), id, target) == Work(s, id, target) - 1
  {
    WaitingHasData(s, id, target);
  }

  lemma PopWork(s: State, l: Label, id: nat, target: nat)
    requires Inv(s) && RingsOk(s) && Waiting(s, id, target) && Pops(s, l) && !Step(s, l).panicked
    ensures |Step(s, l).streams| == |s.streams| && Work(Step(s, l), id, target) == Work(s, id, target) - 1
  {
    WaitingHasData(s, id, target);
    StepRank(s, l, id);
  }

  /** Pops and own poll steps do one unit of work each; nothing else, interrupts included, changes it. */
  lemma StepWork(s: State, l: Label, id: nat, target: nat)
    requires Inv(s) && RingsOk(s) && Waiting(s, id, target) && !Step(s, l).panicked
    ensures |Step(s, l).streams| == |s.streams|
    ensures Work(Step(s, l), id, target) == Work(s, id, target) - (if Advances(s, l, id) then 1 else 0)
  {
    if Pops(s, l) {
      PopWork(s, l, id, target);
    } else if Advances(s, l, id) {
      OwnWork(s, l, id, target);
    } else {
      if l.Execute? {
        OthersUnmoved(s, l, id);
      } else {
        InterruptUnmoved(s, l, id);
      }
      UnmovedWork(s, Step(s, l), id, target);
    }
  }

  /** Bytes are only ever added, to what has arrived and to what has been handed out. */
  predicate Grows(t: Stream, t': Stream) {
    t.accepted <= t'.accepted && t.delivered <= t'.delivered
  }

  lemma ByteHistory(s: State, i: nat, b: byte, id: nat)
    requires i < |s.streams| && RingOk(s.streams[i].ring) && id < |s.streams|
    ensures |HandleByte(s, i, b).streams| == |s.streams| && Grows(s.streams[id], HandleByte(s, i, b).streams[id])
  {
  }

  lemma PollHistory(s: State, i: nat, stage: Stage, id: nat)
    requires i < |s.streams| && RingOk(s.streams[i].ring) && id < |s.streams|
    ensures |PollStep(s, i, stage).streams| == |s.streams| && Grows(s.streams[id], PollStep(s, i, stage).streams[id])
  {
  }

  lemma StepHistory(s: State, l: Label, id: nat)
    requires RingsOk(s) && id < |s.streams|
    ensures |Step(s, l).streams| == |s.streams| && Grows(s.streams[id], Step(s, l).streams[id])
  {
    if l.Interrupt? && l.id < |s.streams| {
      ByteHistory(s, l.id, l.b, id);
    } else if l.Execute? && s.cpu.Polling? && s.cpu.id < |s.streams| {
      PollHistory(s, s.cpu.id, s.cpu.stage, id);
    }
  }

  function AdvanceCount(s: State, ls: seq<Label>, id: nat): nat
    requires RingsOk(s)
  {
    if ls == [] then 0
    else
      var init := ls[..|ls| - 1];
      AdvanceCount(s, init, id) + (if Advances(Run(s, init), ls[|ls| - 1], id) then 1 else 0)
  }

  lemma {:induction false} RunHistory(s: State, ls: seq<Label>, id: nat)
    requires RingsOk(s) && id < |s.streams|
    ensures s.streams[id].accepted <= Run(s, ls).streams[id].accepted
  {
    if ls == [] {
    } else {
      RunHistory(s, ls[..|ls| - 1], id);
      StepHistory(Run(s, ls[..|ls| - 1]), ls[|ls| - 1], id);
    }
  }

  lemma {:induction false} RunWork(s: State, ls: seq<Label>, id: nat, target: nat)
    requires Inv(s) && RingsOk(s) && id < |s.streams| && target <= |s.streams[id].accepted|
    requires !Run(s, ls).panicked
    ensures var left := Work(Run(s, ls), id, target);
            left == 0 || left + AdvanceCount(s, ls, id) == Work(s, id, target)
  {
    if ls == [] {
    } else {
      var init, l := ls[..|ls| - 1], ls[|ls| - 1];
      var r := Run(s, init);
      RunWork(s, init, id, target);
      RunKeepsInv(s, init);
      RunHistory(s, init, id);
      if Waiting(r, id, target) {
        StepWork(r, l, id, target);
      } else {
        StepHistory(r, l, id);
      }
    }
  }

  /**
    Bounded delivery: from any sound state, under any interrupts and whatever the other tasks do, the
    first `target` bytes that have arrived are handed out once the run has made that many pops and
    steps of the stream's own polls.
   */
  lemma BytesDelivered(s: State, ls: seq<Label>, id: nat, target: nat)
    requires Inv(s) && RingsOk(s) && id < |s.streams| && target <= |s.streams[id].accepted|
    requires !Run(s, ls).panicked && AdvanceCount(s, ls, id) >= Work(s, id, target)
    ensures s.streams[id].accepted[..target] <= Run(s, ls).streams[id].delivered
  {
    RunWork(s, ls, id, target);
    RunKeepsInv(s, ls);
    RunHistory(s, ls, id);
    assert StreamInv(Run(s, ls), id);
  }

  /** That number is at most three per byte, the length of the queue and three more. */
  lemma WorkBound(s: State, id: nat, target: nat)
    requires id < |s.streams| && |s.streams[id].delivered| <= target
    ensures Work(s, id, target) <= 3 * (target - |s.streams[id].delivered|) + |s.queue| + 3
  {
  }
}
