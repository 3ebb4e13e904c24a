/** The admin queue pair of KERNEL/SOURCE/device/nvme.c: one command at a time, phase tags, and what a timeout does
    (sections 4.1 and 4.6 of NVM Express 1.4). */
module NvmeQueues {

  /** A submission entry: CDW0 and the rest. */
  datatype Sqe = Sqe(CDW0: nat, rest: seq<nat>)

  /** A completion entry; bit 0 of STS is the phase tag. */
  datatype Cqe = Cqe(DW0: nat, DW1: nat, QHD: nat, QID: nat, CID: nat, STS: nat)

  const NO_CQE: Cqe := Cqe(0, 0, 0, 0, 0, 0)

  /** The entry of all ones that stands for a refusal or a timeout. */
  const ERR_CQE: Cqe := Cqe(0xFFFF_FFFF, 0xFFFF_FFFF, 0xFFFF, 0xFFFF, 0xFFFF, 0xFFFF)

  function Tag(c: Cqe): nat { c.STS % 2 }

  /** The command identifier, CDW0 >> 16. */
  function Cid(e: Sqe): nat { e.CDW0 / 0x1_0000 }

  /** The entry is the caller's command, word for word, but for bits 16 and up of CDW0. */
  predicate Carries(entry: Sqe, command: Sqe) {
    entry.rest == command.rest && entry.CDW0 % 0x1_0000 == command.CDW0
  }

  /** `CDW0 |= TAL << 16`, for an entry whose identifier is still empty. */
  function Numbered(e: Sqe, tal: nat): (r: Sqe)
    requires e.CDW0 < 0x1_0000
    ensures Cid(r) == tal && Carries(r, e)
  {
    e.(CDW0 := e.CDW0 + 0x1_0000 * tal)
  }

  /** `(x + 1) % (MSK + 1)`. */
  function Inc(x: nat, size: nat): (y: nat)
    requires x < size
    ensures y < size && y == if x + 1 == size then 0 else x + 1
  {
    Wrap(x, size);
    (x + 1) % size
  }

  lemma Wrap(x: nat, size: nat)
    requires x < size
    ensures (x + 1) % size == if x + 1 == size then 0 else x + 1
  {
  }

  // ---------------------------------------------------------------- driver and controller

  /** Where `NVMEWaitingCMD` is: not called, past the copy of the entry, past the doorbell. */
  datatype Phase = Idle | Stored(entry: Sqe, command: Sqe) | Waiting

  /** The queues in memory; HAD and TAL of the submission queue, HAD and PHA of the completion queue; the doorbell,
      head, tail and tag of the controller and the commands it is working on; and what callers have asked for, and what
      has been submitted, posted and returned so far. */
  datatype State = State(sq: seq<Sqe>, cq: seq<Cqe>, HAD: nat, TAL: nat, head: nat, PHA: nat, phase: Phase,
                         bell: nat, fetch: nat, tail: nat, tag: nat, running: seq<Sqe>,
                         asked: seq<Sqe>, submitted: seq<Sqe>, posted: seq<Cqe>, returned: seq<Cqe>)

  /** Steps of the driver, and of the controller, which may take up and complete commands in any order and at any
      time. */
  datatype Step = Store(command: Sqe) | Ring | Consume | TimeOut | Fetch | Post(i: nat, dw0: nat, dw1: nat, qid: nat,
    status: nat)

  predicate Sized(s: State) {
    && |s.sq| >= 2 && |s.cq| >= 2 && s.HAD < |s.sq| && s.TAL < |s.sq| && s.bell < |s.sq| && s.fetch < |s.sq|
    && s.head < |s.cq| && s.tail < |s.cq| && s.PHA <= 1 && s.tag <= 1
  }

  /** nvme.c:88. */
  predicate Full(s: State)
    requires Sized(s)
  {
    Inc(s.HAD, |s.sq|) == s.TAL
  }

  predicate Enabled(s: State, step: Step)
    requires Sized(s)
  {
    match step
    case Store(command) => s.phase.Idle? && !Full(s) && command.CDW0 < 0x1_0000
    case Ring => s.phase.Stored?
    case Consume => s.phase.Waiting? && Tag(s.cq[s.head]) == s.PHA
    case TimeOut => s.phase.Waiting?
    case Fetch => s.fetch != s.bell
    case Post(i, _, _, _, _) => i < |s.running|
  }

  function Apply(s: State, step: Step): State
    requires Sized(s) && Enabled(s, step)
  {
    match step
    case Store(command) =>
      var e := Numbered(command, s.TAL);
      s.(sq := s.sq[s.TAL := e], phase := Stored(e, command))
    case Ring =>
      var t := Inc(s.TAL, |s.sq|);
      s.(TAL := t, bell := t, phase := Waiting, asked := s.asked + [s.phase.command],
         submitted := s.submitted + [s.phase.entry])
    case Consume =>
      var c, next := s.cq[s.head], Inc(s.head, |s.cq|);
      s.(head := next, PHA := if next < s.head then 1 - s.PHA else s.PHA, HAD := c.QHD, phase := Idle,
         returned := s.returned + [c])
    case TimeOut => s.(phase := Idle)
    case Fetch => s.(fetch := Inc(s.fetch, |s.sq|), running := s.running + [s.sq[s.fetch]])
    case Post(i, dw0, dw1, qid, status) =>
      var c, next := Cqe(dw0, dw1, s.fetch, qid, Cid(s.running[i]), 2 * status + s.tag), Inc(s.tail, |s.cq|);
      s.(cq := s.cq[s.tail := c], tail := next, tag := if next == 0 then 1 - s.tag else s.tag,
         running := s.running[..i] + s.running[i + 1..], posted := s.posted + [c])
  }

  // ---------------------------------------------------------------- the invariant

  /** Nothing is outstanding. */
  ghost predicate Quiet(s: State)
    requires Sized(s)
  {
    && |s.submitted| == |s.returned| == |s.posted| && !s.phase.Waiting? && s.running == []
    && s.TAL == s.HAD && s.bell == s.TAL && s.fetch == s.TAL && s.tail == s.head && s.tag == s.PHA
    && (s.phase.Stored? ==>
      s.sq[s.TAL] == s.phase.entry && Cid(s.phase.entry) == s.TAL && Carries(s.phase.entry, s.phase.command))
  }

  /** One command is outstanding: still to be fetched, being worked on, or completed but not yet returned. */
  ghost predicate Busy(s: State)
    requires Sized(s)
  {
    && |s.submitted| == |s.returned| + 1 && !s.phase.Stored? && s.TAL == Inc(s.HAD, |s.sq|) && s.bell == s.TAL
    && Cid(s.submitted[|s.returned|]) == s.HAD
    && (if |s.posted| == |s.returned| then
          && s.tail == s.head && s.tag == s.PHA
          && (if s.fetch == s.TAL then s.running == [s.submitted[|s.returned|]]
              else s.fetch == s.HAD && s.running == [] && s.sq[s.HAD] == s.submitted[|s.returned|])
        else
          && |s.posted| == |s.returned| + 1 && s.fetch == s.TAL && s.running == []
          && s.tail == Inc(s.head, |s.cq|) && s.tag == (if s.tail == 0 then 1 - s.PHA else s.PHA)
          && s.cq[s.head] == s.posted[|s.returned|] && s.cq[s.head].QHD == s.TAL && s.cq[s.head].CID == s.HAD)
  }

  /** The tags of the completion queue: behind the head they are those of this lap, from it on those of the last one,
      but for an entry that waits at the head. */
  ghost predicate Tags(s: State)
    requires Sized(s)
  {
    forall p :: 0 <= p < |s.cq| ==>
      Tag(s.cq[p]) == if p < s.head || (p == s.head && |s.posted| > |s.returned|) then s.PHA else 1 - s.PHA
  }

  ghost predicate Inv(s: State) {
    && Sized(s) && (Quiet(s) || Busy(s)) && Tags(s)
    && |s.asked| == |s.submitted| && (forall j :: 0 <= j < |s.asked| ==> Carries(s.submitted[j], s.asked[j]))
    && |s.returned| <= |s.posted| && s.returned == s.posted[..|s.returned|]
    && (forall j :: 0 <= j < |s.posted| ==> j < |s.submitted| && s.posted[j].CID == Cid(s.submitted[j]))
  }

  /** Queues as `NVMEConfigureSQ` and `NVMEConfigureCQ` leave them. */
  function Start(sqSize: nat, cqSize: nat): State {
    State(seq(sqSize, i => Sqe(0, [])), seq(cqSize, i => NO_CQE), 0, 0, 0, 1, Idle, 0, 0, 0, 1, [], [], [], [], [])
  }

  lemma StartInv(sqSize: nat, cqSize: nat)
    requires sqSize >= 2 && cqSize >= 2
    ensures Inv(Start(sqSize, cqSize))
  {
  }

  lemma DriverKeeps(s: State, step: Step)
    requires Inv(s) && Enabled(s, step) && !step.Post? && !step.Fetch?
    ensures Inv(Apply(s, step))
  {
  }

  lemma FetchKeeps(s: State)
    requires Inv(s) && Enabled(s, Fetch)
    ensures Inv(Apply(s, Fetch))
  {
  }

  lemma PostKeeps(s: State, step: Step)
    requires Inv(s) && Enabled(s, step) && step.Post?
    ensures Inv(Apply(s, step))
  {
    assert Tag(Apply(s, step).cq[s.tail]) == s.tag;
  }

  /** Whatever driver and controller do next, the invariant holds. */
  lemma StepKeeps(s: State, step: Step)
    requires Inv(s) && Enabled(s, step)
    ensures Inv(Apply(s, step))
  {
    match step {
      case Fetch => FetchKeeps(s);
      case Post(_, _, _, _, _) => PostKeeps(s, step);
      case _ => DriverKeeps(s, step);
    }
  }

  ghost predicate Runs(s: State, steps: seq<Step>, t: State)
    decreases |steps|
  {
    if steps == [] then t == s else Sized(s) && Enabled(s, steps[0]) && Runs(Apply(s, steps[0]), steps[1..], t)
  }

  lemma {:induction false} RunKeeps(s: State, steps: seq<Step>, t: State)
    requires Inv(s) && Runs(s, steps, t)
    ensures Inv(t)
    decreases |steps|
  {
    if steps != [] {
      StepKeeps(s, steps[0]);
      RunKeeps(Apply(s, steps[0]), steps[1..], t);
    }
  }

  // ---------------------------------------------------------------- what it means

  /** The commands that callers have given, one after another. */
  ghost function Commands(steps: seq<Step>): seq<Sqe> {
    if steps == [] then [] else
    (if steps[0].Store? then [steps[0].command] else []) + Commands(steps[1..])
  }

  /** Those that were asked for, and the one whose doorbell is still to be rung. */
  ghost function Given(s: State): seq<Sqe> {
    s.asked + if s.phase.Stored? then [s.phase.command] else []
  }

  lemma {:induction false} GivenInOrder(s: State, steps: seq<Step>, t: State)
    requires Runs(s, steps, t)
    ensures Given(t) == Given(s) + Commands(steps)
    decreases |steps|
  {
    hide Apply, Given, Enabled;
    if steps != [] {
      GivenStep(s, steps[0]);
      GivenInOrder(Apply(s, steps[0]), steps[1..], t);
    }
  }

  lemma GivenStep(s: State, step: Step)
    requires Sized(s) && Enabled(s, step)
    ensures Given(Apply(s, step)) == Given(s) + if step.Store? then [step.command] else []
  {
  }

  /** Over every run: TAL is HAD or the next slot; what the controller fetches and works on is the last caller's own
      command, word for word, with its slot for an identifier, never one that was overwritten; callers are served in
      order; and every completion is returned at most once, in order. */
  lemma {:induction false} OneAtATime(sqSize: nat, cqSize: nat, steps: seq<Step>, t: State)
    requires sqSize >= 2 && cqSize >= 2 && Runs(Start(sqSize, cqSize), steps, t)
    ensures Inv(t) && (t.TAL == t.HAD || t.TAL == Inc(t.HAD, |t.sq|))
    ensures t.fetch != t.bell ==>
      |t.submitted| > 0 && t.sq[t.fetch] == t.submitted[|t.submitted| - 1] && |t.submitted| == |t.posted| + 1
    ensures t.fetch != t.bell ==>
      |t.asked| > 0 && Carries(t.sq[t.fetch], t.asked[|t.asked| - 1]) && Cid(t.sq[t.fetch]) == t.fetch
    ensures forall e :: e in t.running ==> |t.asked| > 0 && Carries(e, t.asked[|t.asked| - 1]) && Cid(e) == t.HAD
    ensures Given(t) == Commands(steps)
    ensures |t.returned| <= |t.posted| <= |t.submitted| <= |t.returned| + 1 && t.returned == t.posted[..|t.returned|]
  {
    StartInv(sqSize, cqSize);
    RunKeeps(Start(sqSize, cqSize), steps, t);
    GivenInOrder(Start(sqSize, cqSize), steps, t);
  }

  /** The poll succeeds just when a completion waits at the head, and it answers the command of this very call. */
  lemma PollIsExact(s: State)
    requires Inv(s) && s.phase.Waiting?
    ensures Tag(s.cq[s.head]) == s.PHA <==> |s.posted| > |s.returned|
    ensures Tag(s.cq[s.head]) == s.PHA ==> s.cq[s.head] == s.posted[|s.posted| - 1] && |s.posted| == |s.submitted|
                                           && s.cq[s.head].CID == Cid(s.submitted[|s.submitted| - 1])
  {
  }

  /** After a timeout the queue counts as full, and does so for ever. */
  lemma TimeoutIsFinal(s: State, step: Step)
    requires Inv(s) && s.phase.Idle? && |s.submitted| > |s.returned| && Enabled(s, step)
    ensures Full(s) && !step.Store?
    ensures Apply(s, step).phase.Idle? && |Apply(s, step).submitted| > |Apply(s, step).returned|
  {
  }

  /** What a refused or timed out call returns has the status of a failure, and is the answer to no command of a queue
      of less than 2^16 entries. */
  lemma ErrorIsTold(e: Sqe, tal: nat, size: nat)
    requires e.CDW0 < 0x1_0000 && tal < size < 0x1_0000
    ensures ERR_CQE == Cqe(0xFFFF_FFFF, 0xFFFF_FFFF, 0xFFFF, 0xFFFF, 0xFFFF, 0xFFFF)
    ensures ERR_CQE.STS / 2 % 0x100 != 0 && ERR_CQE.CID != Cid(Numbered(e, tal))
  {
  }

  /** The completion queue has room whenever the controller posts. */
  lemma RoomToPost(s: State, i: nat)
    requires Inv(s) && i < |s.running|
    ensures s.tail == s.head && Tag(s.cq[s.tail]) != s.tag
  {
  }

  /** With one entry the phase would never be inverted at the wrap (nvme.c:120): the test finds the wrap just from two
      entries on. */
  lemma WrapTest(size: nat)
    requires size > 0
    ensures Inc(size - 1, size) < size - 1 <==> size >= 2
  {
  }
  // ---------------------------------------------------------------- the driver's own function

  class QueuePair {
    const SQE: array<Sqe>
    const CQE: array<Cqe>
    // The submission queue.
    var HAD: nat
    var TAL: nat
    // The completion queue.
    var head: nat
    var PHA: nat
    // The controller.
    var bell: nat
    var fetch: nat
    var tail: nat
    var tag: nat
    var running: seq<Sqe>
    ghost var phase: Phase
    ghost var asked: seq<Sqe>
    ghost var submitted: seq<Sqe>
    ghost var posted: seq<Cqe>
    ghost var returned: seq<Cqe>

    ghost function Now(): State
      reads this, SQE, CQE
    {
      State(SQE[..], CQE[..], HAD, TAL, head, PHA, phase, bell, fetch, tail, tag, running, asked, submitted,
            posted, returned)
    }

    /** `NVMEConfigureSQ` and `NVMEConfigureCQ`, MSK being one less than the sizes. */
    constructor (sqSize: nat, cqSize: nat)
      requires sqSize >= 2 && cqSize >= 2
      ensures Now() == Start(sqSize, cqSize) && Inv(Now()) && fresh(SQE) && fresh(CQE)
      ensures SQE.Length == sqSize && CQE.Length == cqSize && HAD == TAL == head == bell == 0 && PHA == 1
      ensures forall i :: 0 <= i < cqSize ==> CQE[i] == Cqe(0, 0, 0, 0, 0, 0)
    {
      SQE := new Sqe[sqSize](_ => Sqe(0, []));
      CQE := new Cqe[cqSize](_ => NO_CQE);
      HAD, TAL, head, PHA := 0, 0, 0, 1;
      bell, fetch, tail, tag, running := 0, 0, 0, 1, [];
      phase, asked, submitted, posted, returned := Idle, [], [], [], [];
      new;
      assert SQE[..] == Start(sqSize, cqSize).sq && CQE[..] == Start(sqSize, cqSize).cq;
      StartInv(sqSize, cqSize);
    }

    /** What the driver has of the queues is not changed by the controller. */
    ghost predicate SameDriver(s: State, t: State) {
      && t.sq == s.sq && |t.cq| == |s.cq| && t.HAD == s.HAD && t.TAL == s.TAL && t.head == s.head && t.PHA == s.PHA
      && t.phase == s.phase
      && t.asked == s.asked && t.submitted == s.submitted && t.returned == s.returned
    }

    method FetchOne()
      requires Inv(Now()) && Enabled(Now(), Fetch)
      modifies this`fetch, this`running
      ensures Now() == Apply(old(Now()), Fetch)
    {
      running := running + [SQE[fetch]];
      fetch := Inc(fetch, SQE.Length);
    }

    method PostOne(i: nat, dw0: nat, dw1: nat, qid: nat, status: nat)
      requires Inv(Now()) && i < |running|
      modifies this`tail, this`tag, this`running, this`posted, CQE
      ensures Now() == Apply(old(Now()), Post(i, dw0, dw1, qid, status))
    {
      var c := Cqe(dw0, dw1, fetch, qid, Cid(running[i]), 2 * status + tag);
      CQE[tail] := c;
      var next := Inc(tail, CQE.Length);
      tail := next;
      tag := if next == 0 then 1 - tag else tag;
      running := running[..i] + running[i + 1..];
      posted := posted + [c];
    }

    /** `__halt()`: until the driver goes on, the controller may have taken any of its steps. */
    method Halt()
      requires Inv(Now())
      modifies this`fetch, this`running, this`tail, this`tag, this`posted, CQE
      ensures Inv(Now()) && SameDriver(old(Now()), Now())
    {
      var n: nat := *;
      while n > 0
        invariant Inv(Now()) && SameDriver(old(Now()), Now())
      {
        var i: nat := *;
        var dw0: nat, dw1: nat, qid: nat, status: nat := *, *, *, *;
        if i < |running| {
          PostKeeps(Now(), Post(i, dw0, dw1, qid, status));
          PostOne(i, dw0, dw1, qid, status);
        } else if fetch != bell {
          FetchKeeps(Now());
          FetchOne();
        }
        n := n - 1;
      }
    }

    /** Lines 94-102. */
    method Commit(e: Sqe)
      requires Inv(Now()) && Enabled(Now(), Store(e))
      modifies this`TAL, this`bell, this`phase, this`asked, this`submitted, SQE
      ensures Now() == Apply(Apply(old(Now()), Store(e)), Ring) && Inv(Now())
    {
      DriverKeeps(Now(), Store(e));
      DriverKeeps(Apply(Now(), Store(e)), Ring);
      SQE[TAL] := Numbered(e, TAL);
      asked := asked + [e];
      submitted := submitted + [SQE[TAL]];
      TAL := Inc(TAL, SQE.Length);
      bell := TAL;
      phase := Waiting;
    }

    /** Lines 117-132. */
    method ConsumeOne() returns (cqe: Cqe)
      requires Inv(Now()) && Enabled(Now(), Consume)
      modifies this`head, this`PHA, this`HAD, this`phase, this`returned
      ensures Now() == Apply(old(Now()), Consume) && Inv(Now()) && cqe == old(CQE[head])
    {
      DriverKeeps(Now(), Consume);
      cqe := CQE[head];
      var cqNextHAD := Inc(head, CQE.Length);
      if cqNextHAD < head {
        PHA := 1 - PHA;
      }
      head := cqNextHAD;
      if cqe.QHD != HAD {
        HAD := cqe.QHD;
      }
      phase := Idle;
      returned := returned + [cqe];
    }

    /** `NVMEWaitingCMD`; polls is how often it looks before its time is up. A call after one that timed out is refused.
        Otherwise the command is submitted, and what is returned is its own completion, or the entry of all ones after a
        timeout. */
    method NVMEWaitingCMD(e: Sqe, polls: nat) returns (cqe: Cqe)
      requires Inv(Now()) && phase.Idle? && e.CDW0 < 0x1_0000
      modifies this, SQE, CQE
      ensures Inv(Now()) && phase.Idle?
      ensures |old(submitted)| > |old(returned)| ==> cqe == ERR_CQE && Now() == old(Now())
      ensures |old(submitted)| == |old(returned)| ==>
                && asked == old(asked) + [e] && submitted == old(submitted) + [Numbered(e, old(TAL))]
                && Carries(submitted[|old(submitted)|], e) && Cid(submitted[|old(submitted)|]) == old(TAL)
                && (if |returned| == |old(returned)| then returned == old(returned) && cqe == ERR_CQE
                    else returned == old(returned) + [cqe] && cqe.CID == Cid(Numbered(e, old(TAL))) && TAL == HAD)
    {
      hide *;
      Fields();
      MayCall(Now(), e);
      if Inc(HAD, SQE.Length) == TAL {
        return ERR_CQE;
      }
      Submitted(Now(), e);
      Commit(e);
      Fields();
      var timer := polls;
      while Tag(CQE[head]) != PHA
        invariant Inv(Now()) && phase.Waiting? && asked == old(asked) + [e] && head < CQE.Length
          && submitted == old(submitted) + [Numbered(e, old(TAL))] && returned == old(returned)
        decreases timer
      {
        ghost var s := Now();
        Halt();
        HaltedMeans(s, Now());
        Fields();
        if timer == 0 {
          TimedOut(Now());
          phase := Idle;
          Fields();
          return ERR_CQE;
        }
        timer := timer - 1;
      }
      Fields();
      Answered(Now());
      cqe := ConsumeOne();
      Fields();
    }

    /** The fields are those of the state. */
    lemma Fields()
      ensures Now() == State(SQE[..], CQE[..], HAD, TAL, head, PHA, phase, bell, fetch, tail, tag, running, asked,
                submitted, posted, returned)
    {
    }

    lemma HaltedMeans(s: State, t: State)
      requires SameDriver(s, t)
      ensures t.phase == s.phase && t.asked == s.asked && t.submitted == s.submitted && t.returned == s.returned
      ensures |t.cq| == |s.cq| && t.head == s.head
    {
    }
  }

  /** A call may submit its command just when nothing is outstanding, and that is what the test for room says. */
  lemma MayCall(s: State, e: Sqe)
    requires Inv(s) && s.phase.Idle? && e.CDW0 < 0x1_0000
    ensures s.HAD < |s.sq| && (Inc(s.HAD, |s.sq|) == s.TAL <==> |s.submitted| > |s.returned|)
    ensures Sized(s) && |s.submitted| >= |s.returned| && (|s.submitted| == |s.returned| ==> Enabled(s, Store(e)))
  {
  }

  lemma Submitted(s: State, e: Sqe)
    requires Inv(s) && Sized(s) && Enabled(s, Store(e))
    ensures Sized(Apply(s, Store(e))) && Enabled(Apply(s, Store(e)), Ring)
    ensures var t := Apply(Apply(s, Store(e)), Ring);
            && t.phase.Waiting? && t.asked == s.asked + [e] && t.submitted == s.submitted + [Numbered(e, s.TAL)]
            && t.returned == s.returned && t.head < |t.cq|
  {
  }

  lemma TimedOut(s: State)
    requires Inv(s) && s.phase.Waiting?
    ensures Inv(s.(phase := Idle))
  {
    DriverKeeps(s, TimeOut);
  }

  /** What the poll has found answers the command of this call, and then nothing is outstanding. */
  lemma Answered(s: State)
    requires Inv(s) && s.phase.Waiting? && s.head < |s.cq| && Tag(s.cq[s.head]) == s.PHA
    ensures Sized(s) && Enabled(s, Consume)
    ensures var t := Apply(s, Consume);
            && t.phase.Idle? && t.TAL == t.HAD && t.asked == s.asked && t.submitted == s.submitted
            && t.returned == s.returned + [s.cq[s.head]]
            && |s.submitted| > 0 && s.cq[s.head].CID == Cid(s.submitted[|s.submitted| - 1])
  {
    PollIsExact(s);
  }
}
