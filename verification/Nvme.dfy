/** NVMe queue pairs (kernel/drivers/nvme.c), with the controller as steps between the
    driver's polls.  The completion queue and its phase bit follow section 4.6 of the NVM
    Express Base Specification 1.4. */
module Nvme {
  import opened Common

  const QUEUE_DEPTH := 64

  /** How often a submit looks for a completion before it gives up. */
  const POLLS := 10_000_000

  datatype Command = Command(cdw0: nat, nsid: nat, prp1: nat, prp2: nat, cdw10: nat, cdw11: nat, cdw12: nat)

  /** A completion queue entry; bit 0 of `status` is the phase, the rest the status code. */
  datatype Completion = Completion(dw0: nat, cid: nat, status: nat)

  const ZERO := Completion(0, 0, 0)

  /** What the controller answers to a command. */
  datatype Reply = Reply(dw0: nat, code: nat)

  /** The phase the `k`-th completion carries: 1 on the first pass, inverted on every wrap. */
  function Phase(k: nat): nat { if (k / 64) % 2 == 0 then 1 else 0 }

  function Code(status: nat): nat { (status / 2) % 0x8000 }

  // ----- The completion queue as a log -----

  /** What slot `j` holds after the completions of `log`: the last one written there. */
  function Slot(log: seq<Completion>, j: nat): Completion
    requires j < 64
  {
    if |log| <= j then ZERO else log[|log| - 1 - (|log| - 1 - j) % 64]
  }

  ghost predicate Phased(log: seq<Completion>) {
    forall k :: 0 <= k < |log| ==> log[k].status % 2 == Phase(k)
  }

  /** A new completion goes to its slot and changes no other. */
  lemma SlotAppend(log: seq<Completion>, e: Completion, j: nat)
    requires j < 64
    ensures Slot(log + [e], j) == if j == |log| % 64 then e else Slot(log, j)
  {
    var n := |log|;
    if j <= n {
      if (n - j) % 64 != 0 {
        assert n > j && (n - 1 - j) % 64 + 1 == (n - j) % 64;
      }
    }
  }

  lemma Residue(q: nat, r: nat)
    requires r < 64
    ensures (64 * q + r) % 64 == r && (64 * q + r) / 64 == q
  {
  }

  lemma SlotAt(log: seq<Completion>, k: nat)
    requires k < |log| <= k + 64
    ensures Slot(log, k % 64) == log[k]
  {
    var n := |log|;
    Residue(k / 64, n - 1 - k);
    assert n - 1 - k % 64 == 64 * (k / 64) + (n - 1 - k);
  }

  lemma PhaseBack(k: nat)
    requires k >= 64
    ensures Phase(k - 64) != Phase(k) && (k - 64) % 64 == k % 64
  {
    assert (k - 64) / 64 == k / 64 - 1;
  }

  /** The slot at the head shows the expected phase if and only if the completion due there
      has been posted, and then it holds that completion. */
  lemma HeadPhase(log: seq<Completion>, consumed: nat)
    requires Phased(log) && consumed <= |log| <= consumed + 64
    ensures Slot(log, consumed % 64).status % 2 == Phase(consumed) <==> consumed < |log|
    ensures consumed < |log| ==> Slot(log, consumed % 64) == log[consumed]
  {
    if consumed < |log| {
      hide Slot, Phase;
      SlotAt(log, consumed);
    } else if consumed >= 64 {
      hide Slot, Phase;
      PhaseBack(consumed);
      SlotAt(log, consumed - 64);
    }
  }

  // ----- A queue pair -----

  /** The command as submitted: its identifier in the upper half of the first word. */
  function Tagged(cmd: Command, cid: nat): Command {
    cmd.(cdw0 := cmd.cdw0 % 0x1_0000 + cid * 0x1_0000)
  }

  /** What a submitted command keeps of the caller's, and the identifier that it gets: the upper
      half of the first word. */
  lemma TaggedExact(cmd: Command, cid: nat)
    requires cid < 0x1_0000
    ensures var c := Tagged(cmd, cid);
            && c.nsid == cmd.nsid && c.prp1 == cmd.prp1 && c.prp2 == cmd.prp2
            && c.cdw10 == cmd.cdw10 && c.cdw11 == cmd.cdw11 && c.cdw12 == cmd.cdw12
            && c.cdw0 % 0x1_0000 == cmd.cdw0 % 0x1_0000 && c.cdw0 / 0x1_0000 == cid
  {
  }

  /** Commands carry their numbers, modulo 2^16, as identifiers. */
  ghost predicate Numbered(cmds: seq<Command>) {
    forall k :: 0 <= k < |cmds| ==> cmds[k].cdw0 / 0x1_0000 == k % 0x1_0000
  }

  lemma NextNumber(n: nat)
    ensures (n + 1) % 0x1_0000 == (n % 0x1_0000 + 1) % 0x1_0000
  {
  }

  /** The submission of `cmd` as the `n`-th command: the caller's fields and opcode, and the
      number of the command as its identifier. */
  ghost predicate Submitted(c: Command, cmd: Command, n: nat) {
    && c.nsid == cmd.nsid && c.prp1 == cmd.prp1 && c.prp2 == cmd.prp2
    && c.cdw10 == cmd.cdw10 && c.cdw11 == cmd.cdw11 && c.cdw12 == cmd.cdw12
    && c.cdw0 % 0x1_0000 == cmd.cdw0 % 0x1_0000 && c.cdw0 / 0x1_0000 == n % 0x1_0000
  }

  /** The completion of the `k`-th command. */
  function Answer(reply: (nat, Command) -> Reply, k: nat, cmd: Command): Completion {
    var r := reply(k, cmd);
    Completion(r.dw0, cmd.cdw0 / 0x1_0000 % 0x1_0000, r.code % 0x8000 * 2 + Phase(k))
  }

  lemma AnswerStatus(reply: (nat, Command) -> Reply, k: nat, cmd: Command)
    ensures Answer(reply, k, cmd).status % 2 == Phase(k)
    ensures Code(Answer(reply, k, cmd).status) == reply(k, cmd).code % 0x8000
  {
  }

  /** The controller makes no step while a submit polls. */
  ghost predicate Silent(schedule: nat -> nat) {
    forall t: nat :: t < POLLS ==> schedule(t) == 0
  }

  /** What nvme_admin_submit and nvme_io_submit return: 0, -1 for an error status, -2 when
      the polls run out. */
  function ReturnCode(code: nat): int { if code != 0 then -1 else 0 }

  lemma NextIndex(n: nat)
    ensures (n + 1) % 64 == (n % 64 + 1) % 64
    ensures Phase(n + 1) == if (n + 1) % 64 == 0 then 1 - Phase(n) else Phase(n)
  {
  }

  /** Indices modulo 64 tell counters apart that are fewer than 64 steps apart. */
  lemma SameIndex(a: nat, b: nat)
    requires a <= b < a + 64
    ensures a % 64 == b % 64 <==> a == b
    ensures (b + 1) % 64 == a % 64 <==> b == a + 63
  {
  }

  /** The queue memory after the commands `cmds` and the completions `log`. */
  ghost predicate Memory(sq: seq<Command>, cq: seq<Completion>, cmds: seq<Command>, log: seq<Completion>,
                         reply: (nat, Command) -> Reply) {
    && |sq| == |cq| == 64 && |log| <= |cmds|
    && Phased(log) && (forall k :: 0 <= k < |log| ==> log[k] == Answer(reply, k, cmds[k]))
    && (forall j :: 0 <= j < 64 ==> cq[j] == Slot(log, j))
    && (forall k :: |log| <= k < |cmds| ==> sq[k % 64] == cmds[k])
  }

  lemma MemoryPost(sq: seq<Command>, cq: seq<Completion>, cmds: seq<Command>, log: seq<Completion>,
                   reply: (nat, Command) -> Reply)
    requires Memory(sq, cq, cmds, log, reply) && |log| < |cmds|
    ensures sq[|log| % 64] == cmds[|log|]
    ensures var e := Answer(reply, |log|, cmds[|log|]);
            Memory(sq, cq[|log| % 64 := e], cmds, log + [e], reply)
  {
    hide Slot, Answer, Phase;
    var e := Answer(reply, |log|, cmds[|log|]);
    AnswerStatus(reply, |log|, cmds[|log|]);
    forall j: nat | j < 64 ensures Slot(log + [e], j) == if j == |log| % 64 then e else Slot(log, j) {
      SlotAppend(log, e, j);
    }
  }

  lemma MemorySubmit(sq: seq<Command>, cq: seq<Completion>, cmds: seq<Command>, log: seq<Completion>,
                     reply: (nat, Command) -> Reply, c: Command)
    requires Memory(sq, cq, cmds, log, reply) && |cmds| - |log| < 64
    ensures Memory(sq[|cmds| % 64 := c], cq, cmds + [c], log, reply)
  {
    hide Slot, Answer, Phase;
    forall k | |log| <= k < |cmds| ensures k % 64 != |cmds| % 64 {
      SameIndex(k, |cmds|);
    }
  }

  /** What the slot at the head shows the driver. */
  lemma MemoryHead(sq: seq<Command>, cq: seq<Completion>, cmds: seq<Command>, log: seq<Completion>,
                   reply: (nat, Command) -> Reply, consumed: nat)
    requires Memory(sq, cq, cmds, log, reply) && consumed <= |log| < consumed + 64
    ensures cq[consumed % 64].status % 2 == Phase(consumed) <==> consumed < |log|
    ensures consumed < |log| ==>
      var e, r := cq[consumed % 64], reply(consumed, cmds[consumed]);
      Code(e.status) == r.code % 0x8000 && e.dw0 == r.dw0 && e.cid == cmds[consumed].cdw0 / 0x1_0000 % 0x1_0000
  {
    hide Phase, Slot, Code;
    HeadPhase(log, consumed);
    if consumed < |log| {
      AnswerStatus(reply, consumed, cmds[consumed]);
    }
  }

  class QueuePair {
    // Shared memory.
    const sq: array<Command>
    const cq: array<Completion>
    // The driver.
    var tail: nat
    var head: nat
    var phase: nat
    var cid: nat
    // The doorbell registers.
    var sqDoorbell: nat
    var cqDoorbell: nat
    // The controller.
    var sqHead: nat
    var cqTail: nat
    var cqPhase: nat
    var served: nat
    const reply: (nat, Command) -> Reply
    // All commands submitted and completions posted, how many completions were consumed, and
    // how many submits gave up waiting.
    ghost var cmds: seq<Command>
    ghost var log: seq<Completion>
    ghost var consumed: nat
    ghost var timeouts: nat

    constructor (reply: (nat, Command) -> Reply)
      ensures Valid() && cmds == [] && timeouts == 0 && this.reply == reply && fresh(sq) && fresh(cq)
    {
      this.reply := reply;
      sq := new Command[64](_ => Command(0, 0, 0, 0, 0, 0, 0));
      cq := new Completion[64](_ => ZERO);
      tail, head, phase, cid := 0, 0, 1, 0;
      sqDoorbell, cqDoorbell, sqHead, cqTail, cqPhase, served := 0, 0, 0, 0, 1, 0;
      cmds, log, consumed, timeouts := [], [], 0, 0;
    }

    ghost predicate Valid()
      reads this, sq, cq
    {
      && sq.Length == cq.Length == QUEUE_DEPTH
      && consumed <= |log| <= |cmds| && |log| - consumed < 64 && |cmds| - |log| < 64
      && tail == sqDoorbell == |cmds| % 64 && cid == |cmds| % 0x1_0000 && Numbered(cmds)
      && head == cqDoorbell == consumed % 64 && phase == Phase(consumed)
      && served == |log| && sqHead == cqTail == |log| % 64 && cqPhase == Phase(|log|)
      && consumed + timeouts == |cmds|
      && Memory(sq[..], cq[..], cmds, log, reply)
    }

    /** One step of the controller: it takes the next command and posts its completion, if
        there is a command and room in the completion queue. */
    method Controller()
      requires Valid()
      modifies cq, `sqHead, `cqTail, `cqPhase, `served, `log
      ensures Valid() && old(log) <= log
      ensures |log| == |old(log)| + if |old(log)| < |cmds| && |old(log)| - consumed < 63 then 1 else 0
    {
      hide Memory, Phase, Answer;
      Work();
      if sqHead != sqDoorbell && (cqTail + 1) % 64 != cqDoorbell {
        MemoryPost(sq[..], cq[..], cmds, log, reply);
        NextIndex(|log|);
        ghost var cq0 := cq[..];
        var e := Post(served, sq[sqHead], cqPhase);
        cq[cqTail] := e;
        assert cq[..] == cq0[cqTail := e];
        log := log + [e];
        served := served + 1;
        sqHead := (sqHead + 1) % 64;
        cqTail := (cqTail + 1) % 64;
        if cqTail == 0 {
          cqPhase := 1 - cqPhase;
        }
      }
    }

    /** The controller's test finds out whether a command waits and a slot is free. */
    lemma Work()
      requires Valid()
      ensures sqHead != sqDoorbell && (cqTail + 1) % 64 != cqDoorbell <==> |log| < |cmds| && |log| - consumed < 63
    {
      hide Memory, Phase;
      SameIndex(|log|, |cmds|);
      SameIndex(consumed, |log|);
      NextIndex(|log|);
    }

    function Post(k: nat, cmd: Command, bit: nat): (e: Completion)
      ensures bit == Phase(k) ==> e == Answer(reply, k, cmd)
    {
      var r := reply(k, cmd);
      Completion(r.dw0, cmd.cdw0 / 0x1_0000 % 0x1_0000, r.code % 0x8000 * 2 + bit)
    }

    /** The driver takes the completion at the head, if its phase is the expected one. */
    method Poll() returns (got: bool, code: nat, dw0: nat)
      requires Valid() && timeouts > 0
      modifies `head, `phase, `cqDoorbell, `consumed, `timeouts
      ensures Valid() && got == (old(consumed) < |log|)
      ensures got ==> consumed == old(consumed) + 1 && timeouts == old(timeouts) - 1 &&
                      code == reply(old(consumed), cmds[old(consumed)]).code % 0x8000 &&
                      dw0 == reply(old(consumed), cmds[old(consumed)]).dw0
      ensures got ==> old(cq[head]).cid == old(consumed) % 0x1_0000
      ensures !got ==> consumed == old(consumed) == |log| && timeouts == old(timeouts)
    {
      hide Memory, Phase, Code;
      MemoryHead(sq[..], cq[..], cmds, log, reply, consumed);
      var e := cq[head];
      got := e.status % 2 == phase;
      code, dw0 := 0, 0;
      if got {
        NextIndex(consumed);
        code, dw0 := Code(e.status), e.dw0;
        head := head + 1;
        if head >= QUEUE_DEPTH {
          head := 0;
          phase := 1 - phase;
        }
        cqDoorbell := head;
        consumed, timeouts := consumed + 1, timeouts - 1;
      }
    }

    /** Submits a command and polls for a completion, the controller making `schedule(t)` steps
        before poll `t`.  It gives up exactly when no completion is left from before and the
        controller makes no step at all.  What is returned is the answer to the command that was
        submitted as many submits earlier as had timed out before: to this very command exactly
        when none had.  Fewer than 63 commands may be waiting for the controller. */
    method Submit(cmd: Command, schedule: nat -> nat) returns (result: int, dw0: nat)
      requires Valid() && |cmds| - |log| < 63
      modifies this, sq, cq
      ensures Valid() && cmds == old(cmds) + [Tagged(cmd, old(cid))] && cid == (old(cid) + 1) % 0x1_0000 &&
              old(log) <= log
      ensures Submitted(cmds[|old(cmds)|], cmd, |old(cmds)|)
      ensures result == -2 ==> timeouts == old(timeouts) + 1
      ensures result != -2 ==>
        var k := |old(cmds)| - old(timeouts);
        && timeouts == old(timeouts) && 0 <= k < |cmds|
        && result == (if reply(k, cmds[k]).code % 0x8000 == 0 then 0 else -1) && dw0 == reply(k, cmds[k]).dw0
      ensures result == -2 ==> consumed == old(consumed) == |log|
      ensures result == -2 <==> |old(log)| == old(consumed) && Silent(schedule)
    {
      hide Memory, Phase, Answer, Valid, Tagged;
      Place(cmd);
      Waiting();
      var timeout := POLLS;
      while timeout > 0
        invariant 0 <= timeout <= POLLS
        invariant Valid() && consumed == old(consumed) && timeouts == old(timeouts) + 1
        invariant if timeout < POLLS then |log| == consumed && |old(log)| == consumed else log == old(log)
        invariant forall t: nat :: t < POLLS - timeout ==> schedule(t) == 0
        invariant cmds == old(cmds) + [Tagged(cmd, old(cid))] && old(log) <= log && cid == (old(cid) + 1) % 0x1_0000
      {
        timeout := timeout - 1;
        Waiting();
        ControllerRuns(schedule(POLLS - 1 - timeout));
        var got, code;
        got, code, dw0 := Poll();
        if got {
          result := ReturnCode(code);
          Counted();
          return;
        }
      }
      result, dw0 := -2, 0;
    }

    /** No more completions than commands, and than there is room for. */
    lemma Waiting()
      requires Valid()
      ensures consumed <= |log| <= |cmds| && |log| <= consumed + 63 && consumed + timeouts == |cmds|
    {
    }

    lemma Counted()
      requires Valid()
      ensures consumed + timeouts == |cmds|
    {
    }

    /** Writes a command to the submission queue and rings the doorbell. */
    method Place(cmd: Command)
      requires Valid() && |cmds| - |log| < 63
      modifies sq, `tail, `cid, `sqDoorbell, `cmds, `timeouts
      ensures Valid() && cmds == old(cmds) + [Tagged(cmd, old(cid))] && cid == (old(cid) + 1) % 0x1_0000
      ensures timeouts == old(timeouts) + 1
      ensures sq[old(tail)] == cmds[|old(cmds)|] && Submitted(cmds[|old(cmds)|], cmd, |old(cmds)|)
      ensures tail == sqDoorbell == (old(tail) + 1) % 64 && forall j :: 0 <= j < 64 && j != old(tail) ==>
              sq[j] == old(sq[j])
    {
      hide Memory, Phase, Tagged;
      var c := Tagged(cmd, cid);
      cid := (cid + 1) % 0x1_0000;
      MemorySubmit(sq[..], cq[..], cmds, log, reply, c);
      NextIndex(|cmds|);
      NextNumber(|cmds|);
      TaggedExact(cmd, |cmds| % 0x1_0000);
      ghost var sq0 := sq[..];
      sq[tail] := c;
      assert sq[..] == sq0[tail := c];
      tail := (tail + 1) % 64;
      cmds, timeouts := cmds + [c], timeouts + 1;
      sqDoorbell := tail;
    }

    /** Some controller steps. */
    method ControllerRuns(steps: nat)
      requires Valid()
      modifies cq, `sqHead, `cqTail, `cqPhase, `served, `log
      ensures Valid() && old(log) <= log
      ensures |log| == Min(|old(log)| + steps, Min(|cmds|, consumed + 63))
    {
      hide Valid;
      Waiting();
      for i := 0 to steps
        invariant Valid() && old(log) <= log
        invariant |log| == Min(|old(log)| + i, Min(|cmds|, consumed + 63))
      {
        Controller();
      }
    }

    /** Submits commands one after the other on a fresh queue pair, up to the first timeout:
        the `n`-th submit returns the status of exactly the `n`-th command, however often the
        queues and the phase wrap around, and times out exactly when the controller makes no
        step while it polls. */
    method SubmitAll(list: seq<Command>, schedules: nat -> nat -> nat) returns (results: seq<int>)
      requires Valid() && cmds == [] && timeouts == 0 && cid == 0
      modifies this, sq, cq
      ensures Valid() && |results| <= |list| && (|results| < |list| ==> |results| > 0 && results[|results| - 1] == -2)
      ensures forall n :: 0 <= n < |results| && results[n] != -2 ==>
        results[n] == if reply(n, Tagged(list[n], n % 0x1_0000)).code % 0x8000 == 0 then 0 else -1
      ensures forall n :: 0 <= n < |results| - 1 ==> results[n] != -2
      ensures forall n :: 0 <= n < |results| ==> (results[n] == -2 <==> Silent(schedules(n)))
    {
      hide Valid, Tagged, Silent;
      results := [];
      while |results| < |list|
        invariant Valid() && timeouts == 0 && |cmds| == |results| <= |list| && cid == |results| % 0x1_0000
        invariant forall n :: 0 <= n < |results| ==>
          results[n] != -2 && results[n] == if reply(n, Tagged(list[n], n % 0x1_0000)).code % 0x8000 == 0 then 0 else -1
        invariant forall n :: 0 <= n < |results| ==> !Silent(schedules(n))
        decreases |list| - |results|
      {
        AllAnswered();
        var r, dw0 := Submit(list[|results|], schedules(|results|));
        results := results + [r];
        if r == -2 {
          return;
        }
      }
    }

    lemma AllAnswered()
      requires Valid() && timeouts == 0
      ensures |log| == |cmds| == consumed
    {
    }
  }

  /** The first command fails, all others succeed. */
  function FirstFails(k: nat, cmd: Command): Reply {
    Reply(0, if k == 0 then 1 else 0)
  }

  /** The controller answers the first command only after its submit has given up; the submit of
      the second command takes that answer for its own and reports a failure. */
  method LateAnswer(a: Command, b: Command) returns (first: int, second: int)
    ensures first == -2 && second == -1
    ensures ReturnCode(FirstFails(1, Tagged(b, 1)).code % 0x8000) == 0
  {
    hide Memory, Phase, Answer, Tagged;
    var q := new QueuePair(FirstFails);
    var dw0, never, always := 0, (t: nat) => 0, (t: nat) => 1;
    first, dw0 := q.Submit(a, never);
    second, dw0 := q.Submit(b, always);
    NotSilent(always, 0);
  }

  lemma NotSilent(schedule: nat -> nat, t: nat)
    requires t < POLLS && schedule(t) != 0
    ensures !Silent(schedule)
  {
  }
}
