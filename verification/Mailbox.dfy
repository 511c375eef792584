// wtmi/mbox.c: the queue of mailbox commands, filled by the interrupt handler
// and emptied by the main loop.
module Mailbox {
  import opened Types

  const CMD_QUEUE_SIZE: nat := 8
  const MBOX_MAX_ARGS: nat := 16
  const MBOX_CMD_OTP_READ_1B: nat := 257
  const MBOX_CMD_OTP_WRITE_1B: nat := 513

  datatype Request = Request(cmd: u16, args: seq<u32>)

  // A handler's address; 0 is NULL.
  type Handler = nat

  datatype Handlers = Handlers(main: seq<Handler>, otpReads: seq<Handler>, otpWrites: seq<Handler>)
  {
    predicate Sized() { |main| == 16 && |otpReads| == 5 && |otpWrites| == 5 }
  }

  predicate IsRead(cmd: nat) { MBOX_CMD_OTP_READ_1B <= cmd < MBOX_CMD_OTP_READ_1B + 5 }
  predicate IsWrite(cmd: nat) { MBOX_CMD_OTP_WRITE_1B <= cmd < MBOX_CMD_OTP_WRITE_1B + 5 }

  // The handler of a command, or NULL.
  function Find(h: Handlers, cmd: nat): Handler
    requires h.Sized()
  {
    if cmd < 16 then h.main[cmd]
    else if IsRead(cmd) then h.otpReads[cmd - MBOX_CMD_OTP_READ_1B]
    else if IsWrite(cmd) then h.otpWrites[cmd - MBOX_CMD_OTP_WRITE_1B]
    else 0
  }

  // ---- the machine ----

  // Where mbox_process_commands() stands.  Its pointer req is a slot number.
  datatype Pc =
    | AtTest
    | AtFetch
    | AtDispatch(req: nat)
    | AtSend(req: nat)
    | AtAdvance(req: nat)
    | Crashed

  // accepted and processed are histories: what the interrupt handler has put
  // in, and what has been handed to handlers and removed.
  datatype State = State(
    queue: seq<Request>, fill: int, first: int, handlers: Handlers, pc: Pc,
    accepted: seq<Request>, processed: seq<Request>, held: seq<Request>)

  function Slot(s: State, i: int): int { (s.first + i) % CMD_QUEUE_SIZE }

  // mbox_irq_handler()
  function Irq(s: State, present: bool, word: u32, args: seq<u32>): State
    requires s.handlers.Sized() && |s.queue| == CMD_QUEUE_SIZE
  {
    var cmd := word % 0x10000;
    if !present || s.fill == CMD_QUEUE_SIZE || Find(s.handlers, cmd) == 0 then s
    else
      var req := Request(cmd, args);
      s.(queue := s.queue[Slot(s, s.fill) := req], fill := s.fill + 1, accepted := s.accepted + [req])
  }

  // mbox_register_cmd(), from the main program
  function Register(s: State, cmd: u16, handler: Handler): State
    requires s.handlers.Sized()
  {
    var h := s.handlers;
    if Find(h, cmd) != 0 then s
    else if cmd < 16 then s.(handlers := h.(main := h.main[cmd := handler]))
    else if IsRead(cmd) then s.(handlers := h.(otpReads := h.otpReads[cmd - MBOX_CMD_OTP_READ_1B := handler]))
    else if IsWrite(cmd) then s.(handlers := h.(otpWrites := h.otpWrites[cmd - MBOX_CMD_OTP_WRITE_1B := handler]))
    else s
  }

  // One step of mbox_process_commands().  held is what req pointed to when it
  // was set; calling NULL is a crash.
  function Main(s: State): State
    requires s.handlers.Sized() && |s.queue| == CMD_QUEUE_SIZE
  {
    match s.pc
    case AtTest => if s.fill > 0 then s.(pc := AtFetch) else s
    case AtFetch =>
      if 0 <= s.first < CMD_QUEUE_SIZE then s.(pc := AtDispatch(s.first), held := [s.queue[s.first]]) else s.(pc := Crashed)
    case AtDispatch(req) =>
      if req >= CMD_QUEUE_SIZE then s.(pc := Crashed)
      else
        var cmd := s.queue[req].cmd;
        var called := cmd < 16 || IsRead(cmd) || IsWrite(cmd);
        if called && Find(s.handlers, cmd) == 0 then s.(pc := Crashed) else s.(pc := AtSend(req))
    case AtSend(req) => s.(pc := AtAdvance(req))
    case AtAdvance(req) =>
      if req >= CMD_QUEUE_SIZE then s.(pc := Crashed)
      else
        s.(first := (s.first + 1) % CMD_QUEUE_SIZE, fill := s.fill - 1, pc := AtTest,
           processed := s.processed + [s.queue[req]], held := [])
    case Crashed => s
  }

  // Any interleaving: the interrupt handler may run between any two steps of
  // the main loop.  The removal of a request is one step because interrupts
  // are off there.  Registration happens outside mbox_process_commands().
  ghost predicate Next(s: State, t: State)
  {
    && s.handlers.Sized() && |s.queue| == CMD_QUEUE_SIZE
    && (|| t == Main(s)
        || (exists present: bool, word: u32, args: seq<u32> :: t == Irq(s, present, word, args))
        || (s.pc == AtTest && exists cmd: u16, handler: Handler :: t == Register(s, cmd, handler)))
  }

  ghost predicate Run(trace: seq<State>)
  {
    |trace| > 0 && Initial(trace[0]) && forall i | 0 <= i < |trace| - 1 :: Next(trace[i], trace[i + 1])
  }

  predicate Initial(s: State)
  {
    && |s.queue| == CMD_QUEUE_SIZE && s.fill == 0 && s.first == 0 && s.handlers.Sized() && s.pc == AtTest
    && s.accepted == [] && s.processed == [] && s.held == []
  }

  // ---- what every run keeps ----

  // The n requests queued, oldest first.
  function Queued(s: State, n: nat): (r: seq<Request>)
    requires |s.queue| == CMD_QUEUE_SIZE
    ensures |r| == n
  {
    seq(n, i => s.queue[Slot(s, i)])
  }

  ghost predicate Safe(s: State)
  {
    && |s.queue| == CMD_QUEUE_SIZE && s.handlers.Sized()
    && 0 <= s.fill <= CMD_QUEUE_SIZE && 0 <= s.first < CMD_QUEUE_SIZE
    // each accepted request is processed or queued, once and in order
    && s.processed + Queued(s, s.fill) == s.accepted
    // whatever is queued has a handler
    && (forall i | 0 <= i < s.fill :: Find(s.handlers, Queued(s, s.fill)[i].cmd) != 0)
    // the request being handled is at the front, as it was when fetched
    && s.pc != Crashed
    && (s.pc != AtTest ==> s.fill > 0)
    && (Handling(s) ==> s.pc.req == s.first && s.held == [s.queue[s.first]])
  }

  predicate Handling(s: State) { s.pc.AtDispatch? || s.pc.AtSend? || s.pc.AtAdvance? }

  lemma IrqSafe(s: State, present: bool, word: u32, args: seq<u32>)
    requires Safe(s)
    ensures Safe(Irq(s, present, word, args))
  {
    var t := Irq(s, present, word, args);
    if t.fill != s.fill {
      var req := t.queue[Slot(s, s.fill)];
      assert forall i | 0 <= i < s.fill :: Slot(s, i) != Slot(s, s.fill);
      assert Queued(t, t.fill) == Queued(s, s.fill) + [req];
    } else {
      assert t == s;
    }
  }

  // What the doorbell asks for has a handler in the table for commands of its
  // kind.
  ghost predicate Served(h: Handlers, cmd: nat)
    requires h.Sized()
  {
    || (cmd <= 15 && h.main[cmd] != 0)
    || (exists i | 0 <= i < 5 :: cmd == 257 + i && h.otpReads[i] != 0)
    || (exists i | 0 <= i < 5 :: cmd == 513 + i && h.otpWrites[i] != 0)
  }

  // A command that is present, has a handler and finds room is queued behind
  // the others; any other interrupt changes nothing.
  lemma IrqAccepts(s: State, present: bool, word: u32, args: seq<u32>)
    requires Safe(s)
    ensures var t, cmd := Irq(s, present, word, args), word % 0x10000;
            if present && s.fill < 8 && Served(s.handlers, cmd) then
              && t.fill == s.fill + 1 && |t.queue| == CMD_QUEUE_SIZE
              && Queued(t, t.fill) == Queued(s, s.fill) + [Request(cmd, args)]
              && t.accepted == s.accepted + [Request(cmd, args)]
              && t.first == s.first && t.handlers == s.handlers && t.pc == s.pc && t.processed == s.processed
            else t == s
  {
    var t, cmd := Irq(s, present, word, args), word % 0x10000;
    FindServed(s.handlers, cmd);
    if t.fill != s.fill {
      assert forall i | 0 <= i < s.fill :: Slot(s, i) != Slot(s, s.fill);
      assert Queued(t, t.fill) == Queued(s, s.fill) + [Request(cmd, args)];
    }
  }

  lemma FindServed(h: Handlers, cmd: nat)
    requires h.Sized()
    ensures Find(h, cmd) != 0 <==> Served(h, cmd)
  {
    if IsRead(cmd) { assert cmd == 257 + (cmd - 257) && 0 <= cmd - 257 < 5; }
    if IsWrite(cmd) { assert cmd == 513 + (cmd - 513) && 0 <= cmd - 513 < 5; }
  }

  // A slot that holds no handler takes the one registered for its command; a
  // slot that holds one keeps it, and so do all slots of other commands.
  lemma RegisterSets(s: State, cmd: u16, handler: Handler)
    requires Safe(s)
    ensures var h, h' := s.handlers, Register(s, cmd, handler).handlers;
            && h'.Sized()
            && (forall i | 0 <= i < 16 :: h'.main[i] == if cmd == i && h.main[i] == 0 then handler else h.main[i])
            && (forall i | 0 <= i < 5 ::
                  h'.otpReads[i] == if cmd == 257 + i && h.otpReads[i] == 0 then handler else h.otpReads[i])
            && (forall i | 0 <= i < 5 ::
                  h'.otpWrites[i] == if cmd == 513 + i && h.otpWrites[i] == 0 then handler else h.otpWrites[i])
    ensures Register(s, cmd, handler) == s.(handlers := Register(s, cmd, handler).handlers)
  {
  }

  lemma RegisterSafe(s: State, cmd: u16, handler: Handler)
    requires Safe(s)
    ensures Safe(Register(s, cmd, handler))
  {
    var t := Register(s, cmd, handler);
    assert forall c: nat | Find(s.handlers, c) != 0 :: Find(t.handlers, c) == Find(s.handlers, c);
    assert Queued(t, t.fill) == Queued(s, s.fill);
  }

  lemma MainSafe(s: State)
    requires Safe(s)
    ensures Safe(Main(s))
  {
    var t := Main(s);
    if s.pc.AtAdvance? {
      AdvanceSafe(s, t);
    } else {
      if Handling(s) { assert Queued(s, s.fill)[0] == s.queue[s.first]; }
      assert Queued(t, t.fill) == Queued(s, s.fill);
    }
  }

  lemma AdvanceQueue(s: State, t: State)
    requires Safe(s) && s.pc.AtAdvance? && t == Main(s)
    ensures t.fill >= 0 && |t.queue| == CMD_QUEUE_SIZE
    ensures Queued(s, s.fill)[0] == s.queue[s.first] && Queued(t, t.fill) == Queued(s, s.fill)[1..]
  {
    hide Find;
    var q, r := Queued(s, s.fill), Queued(t, t.fill);
    forall i | 0 <= i < t.fill
      ensures r[i] == q[i + 1]
    {
      assert Slot(t, i) == Slot(s, i + 1);
    }
    assert r == q[1..];
  }

  // Removing the request at the front moves it from queued to processed.
  lemma AdvanceSafe(s: State, t: State)
    requires Safe(s) && s.pc.AtAdvance? && t == Main(s)
    ensures Safe(t)
  {
    hide Find, Queued;
    AdvanceQueue(s, t);
    var q, r := Queued(s, s.fill), Queued(t, t.fill);
    assert (s.processed + [q[0]]) + q[1..] == s.processed + q;
    forall i | 0 <= i < t.fill
      ensures Find(t.handlers, r[i].cmd) != 0
    {
      assert r[i] == q[i + 1];
    }
  }

  lemma {:induction false} RunIsSafe(trace: seq<State>, n: nat)
    requires Run(trace) && n < |trace|
    ensures Safe(trace[n])
  {
    if n == 0 {
      assert Queued(trace[0], 0) == [];
    } else {
      RunIsSafe(trace, n - 1);
      var s, t := trace[n - 1], trace[n];
      assert Next(s, t);
      if t == Main(s) {
        MainSafe(s);
      } else if s.pc == AtTest && exists cmd: u16, handler: Handler :: t == Register(s, cmd, handler) {
        var cmd: u16, handler: Handler :| t == Register(s, cmd, handler);
        RegisterSafe(s, cmd, handler);
      } else {
        var present: bool, word: u32, args: seq<u32> :| t == Irq(s, present, word, args);
        IrqSafe(s, present, word, args);
      }
    }
  }

  lemma FrontHasHandler(s: State)
    requires Safe(s) && Handling(s)
    ensures Find(s.handlers, s.queue[s.first].cmd) != 0
  {
    assert Queued(s, s.fill)[0] == s.queue[s.first];
  }

  lemma FillIsNat(s: State)
    requires Safe(s)
    ensures s.fill >= 0 && |s.queue| == CMD_QUEUE_SIZE && s.handlers.Sized()
  {
  }

  // While a request is being handled no step touches it.
  lemma NotOverwritten(trace: seq<State>, n: nat)
    requires Run(trace) && n + 1 < |trace| && Handling(trace[n]) && Handling(trace[n + 1])
    ensures trace[n + 1].pc.req == trace[n].pc.req && trace[n].pc.req < CMD_QUEUE_SIZE
    ensures |trace[n].queue| == |trace[n + 1].queue| == CMD_QUEUE_SIZE
    ensures trace[n + 1].queue[trace[n].pc.req] == trace[n].queue[trace[n].pc.req]
  {
    RunIsSafe(trace, n);
    RunIsSafe(trace, n + 1);
    assert Next(trace[n], trace[n + 1]);
  }

  // ---- the module's variables, and its functions ----

  // What the host does to the mailbox registers.
  datatype Arrival = Arrival(present: bool, word: u32, args: seq<u32>)

  class Mailbox {
    const queue: array<Request>
    var fill: int
    var first: int
    const cmdHandlers: array<Handler>
    const otpReadHandlers: array<Handler>
    const otpWriteHandlers: array<Handler>
    var host: seq<Arrival>          // interrupts still to come
    ghost var pc: Pc
    ghost var accepted: seq<Request>
    ghost var processed: seq<Request>
    ghost var held: seq<Request>
    ghost var trace: seq<State>     // every state so far

    ghost function View(): State
      reads this, queue, cmdHandlers, otpReadHandlers, otpWriteHandlers
    {
      State(queue[..], fill, first, Handlers(cmdHandlers[..], otpReadHandlers[..], otpWriteHandlers[..]), pc,
            accepted, processed, held)
    }

    ghost predicate Valid()
      reads this, queue, cmdHandlers, otpReadHandlers, otpWriteHandlers
    {
      && queue.Length == CMD_QUEUE_SIZE
      && cmdHandlers.Length == 16 && otpReadHandlers.Length == 5 && otpWriteHandlers.Length == 5
      && cmdHandlers != otpReadHandlers && cmdHandlers != otpWriteHandlers && otpReadHandlers != otpWriteHandlers
      && Run(trace) && trace[|trace| - 1] == View() && Safe(View())
    }

    constructor (host: seq<Arrival>)
      ensures Valid() && this.host == host && pc == AtTest
    {
      queue := new Request[CMD_QUEUE_SIZE](i => Request(0, []));
      cmdHandlers := new Handler[16](i => 0);
      otpReadHandlers := new Handler[5](i => 0);
      otpWriteHandlers := new Handler[5](i => 0);
      fill, first, pc, accepted, processed, held, this.host := 0, 0, AtTest, [], [], [], host;
      trace := [];
      new;
      trace := [View()];
      RunIsSafe(trace, 0);
    }

    // A step has been taken.
    ghost method Record()
      requires Run(trace) && Next(trace[|trace| - 1], View())
      modifies `trace
      ensures Run(trace) && trace == old(trace) + [View()] && Safe(View())
    {
      trace := trace + [View()];
      RunIsSafe(trace, |trace| - 1);
    }

    function MarvellCmdHandler(cmd: nat): Handler
      reads otpReadHandlers, otpWriteHandlers
      requires otpReadHandlers.Length == 5 && otpWriteHandlers.Length == 5
    {
      if IsRead(cmd) then otpReadHandlers[cmd - MBOX_CMD_OTP_READ_1B]
      else if IsWrite(cmd) then otpWriteHandlers[cmd - MBOX_CMD_OTP_WRITE_1B]
      else 0
    }

    method IrqHandler(a: Arrival)
      requires Valid()
      modifies `fill, `accepted, `trace, queue
      ensures Valid() && View() == Irq(old(View()), a.present, a.word, a.args) && trace == old(trace) + [View()]
      ensures fill <= old(fill) + 1
      // queued if it is there, finds room and has a handler; nothing else
      ensures var cmd := a.word % 0x10000;
              var more := if a.present && old(fill) < 8 && Served(View().handlers, cmd) then [Request(cmd, a.args)] else [];
              && accepted == old(accepted) + more
              && fill == old(fill) + |more| && Queued(View(), fill) == old(Queued(View(), fill)) + more
    {
      hide Safe, Run, Served;
      ghost var s := View();
      FillIsNat(s);
      IrqAccepts(s, a.present, a.word, a.args);
      if a.present && fill != CMD_QUEUE_SIZE {
        var cmd: u16 := a.word % 0x10000;
        if (cmd < 16 && cmdHandlers[cmd] != 0) || MarvellCmdHandler(cmd) != 0 {
          queue[(first + fill) % CMD_QUEUE_SIZE] := Request(cmd, a.args);
          accepted := accepted + [Request(cmd, a.args)];
          fill := fill + 1;
        }
      }
      assert View() == Irq(s, a.present, a.word, a.args);
      Record();
    }

    method RegisterCmd(cmd: u16, handler: Handler)
      requires Valid() && pc == AtTest
      modifies `trace, cmdHandlers, otpReadHandlers, otpWriteHandlers
      ensures Valid() && View() == Register(old(View()), cmd, handler) && trace == old(trace) + [View()]
      ensures forall i | 0 <= i < 16 ::
                cmdHandlers[i] == if cmd == i && old(cmdHandlers[i]) == 0 then handler else old(cmdHandlers[i])
      ensures forall i | 0 <= i < 5 ::
                otpReadHandlers[i] == if cmd == 257 + i && old(otpReadHandlers[i]) == 0 then handler else old(otpReadHandlers[i])
      ensures forall i | 0 <= i < 5 ::
                otpWriteHandlers[i] == if cmd == 513 + i && old(otpWriteHandlers[i]) == 0 then handler else old(otpWriteHandlers[i])
    {
      ghost var s := View();
      if cmd < 16 && cmdHandlers[cmd] == 0 {
        cmdHandlers[cmd] := handler;
      } else if IsRead(cmd) && MarvellCmdHandler(cmd) == 0 {
        otpReadHandlers[cmd - MBOX_CMD_OTP_READ_1B] := handler;
      } else if IsWrite(cmd) && MarvellCmdHandler(cmd) == 0 {
        otpWriteHandlers[cmd - MBOX_CMD_OTP_WRITE_1B] := handler;
      }
      assert View() == Register(s, cmd, handler);
      Record();
    }

    // Interrupts are on: any number of them may come in here.
    method Interrupts()
      requires Valid()
      modifies `host, `fill, `accepted, `trace, queue
      ensures Valid() && |host| + fill <= old(|host| + fill) && fill >= old(fill)
      ensures old(trace) <= trace
    {
      var n :| 0 <= n <= |host|;
      for i := 0 to n
        invariant Valid() && n - i <= |host| && |host| + fill <= old(|host| + fill) && fill >= old(fill)
        invariant old(trace) <= trace
      {
        var a := host[0];
        host := host[1..];
        IrqHandler(a);
      }
    }

    // The steps of one round of the loop.  Each is a step of the machine.

    // while (cmd_queue_fill > 0)
    method Test() returns (more: bool)
      requires Valid() && pc == AtTest
      modifies `pc, `trace
      ensures Valid() && View() == Main(old(View())) && trace == old(trace) + [View()]
      ensures more == (fill > 0) && pc == (if more then AtFetch else AtTest)
    {
      hide Safe, Run;
      FillIsNat(View());
      more := fill > 0;
      if more { pc := AtFetch; }
      Record();
    }

    // req = &cmd_queue[cmd_queue_first]
    method Fetch() returns (req: nat)
      requires Valid() && pc == AtFetch
      modifies `pc, `held, `trace
      ensures Valid() && View() == Main(old(View())) && trace == old(trace) + [View()] && pc == AtDispatch(req)
    {
      hide Run;
      req := first;
      held, pc := [queue[req]], AtDispatch(req);
      Record();
    }

    // Choose the handler by req->cmd and call it: the calls are never to NULL.
    method Dispatch(req: nat)
      requires Valid() && pc == AtDispatch(req)
      modifies `pc, `trace
      ensures Valid() && View() == Main(old(View())) && trace == old(trace) + [View()] && pc == AtSend(req)
    {
      hide Run;
      FrontHasHandler(View());
      var cmd := queue[req].cmd;
      if cmd < 16 {
        assert cmdHandlers[cmd] != 0;
      } else if IsRead(cmd) || IsWrite(cmd) {
        assert MarvellCmdHandler(cmd) != 0;
      }
      pc := AtSend(req);
      Record();
    }

    // mbox_send(status, out_args)
    method Send(req: nat)
      requires Valid() && pc == AtSend(req)
      modifies `pc, `trace
      ensures Valid() && View() == Main(old(View())) && trace == old(trace) + [View()] && pc == AtAdvance(req)
    {
      hide Safe, Run;
      pc := AtAdvance(req);
      Record();
    }

    // disable_irq() ... enable_irq()
    method Advance(req: nat)
      requires Valid() && pc == AtAdvance(req)
      modifies `first, `fill, `pc, `processed, `held, `trace
      ensures Valid() && View() == Main(old(View())) && trace == old(trace) + [View()] && pc == AtTest
      ensures fill == old(fill) - 1 && fill >= 0
    {
      hide Run;
      processed, held, pc := processed + [queue[req]], [], AtTest;
      first := (first + 1) % CMD_QUEUE_SIZE;
      fill := fill - 1;
      Record();
    }

    method ProcessCommands()
      requires Valid() && pc == AtTest
      modifies this, queue
      ensures Valid() && pc == AtTest && old(trace) <= trace
      ensures fill == 0 && processed == accepted
    {
      hide Valid, View, Main;
      Interrupts();
      var more := Test();
      while more
        invariant Valid() && old(trace) <= trace
        invariant if more then pc == AtFetch && fill > 0 else pc == AtTest && fill <= 0
        decreases |host| + fill, more
      {
        Round();
        more := Test();
      }
      AllProcessed();
    }

    // One command, with interrupts coming in wherever they are on.
    method Round()
      requires Valid() && pc == AtFetch
      modifies this, queue
      ensures Valid() && pc == AtTest && old(trace) <= trace && |host| + fill < old(|host| + fill)
    {
      hide Valid, View, Main;
      Interrupts();
      var req := Fetch();
      Interrupts();
      Dispatch(req);
      Interrupts();
      Send(req);
      Interrupts();
      Advance(req);
      Interrupts();
    }

    lemma AllProcessed()
      requires Valid() && fill <= 0
      ensures fill == 0 && processed == accepted
    {
      assert Queued(View(), 0) == [];
    }
  }
}
