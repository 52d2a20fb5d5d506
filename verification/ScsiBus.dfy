/** The SCSI bus as the target sees it: its own signal lines, the initiator's, and the transfer loops. */
module ScsiBus {
  import opened Bytes

  datatype Phase =
    | BusFree | Arbitration | Selection | Reselection | Command | Execute
    | DataIn | DataOut | Status | MsgIn | MsgOut | Reserved

  /** The information transfer phase that MSG, C/D and I/O stand for (section 6.1.5 of SCSI-2). */
  function PhaseOf(msg: bool, cd: bool, io: bool): Phase {
    match (msg, cd, io)
    case (false, false, false) => DataOut
    case (false, false, true) => DataIn
    case (false, true, false) => Command
    case (false, true, true) => Status
    case (true, false, _) => Reserved
    case (true, true, false) => MsgOut
    case (true, true, true) => MsgIn
  }

  /** The length of a CDB by its operation code, whose upper three bits are the command group (section 7.2.1 of
      SCSI-2). */
  function CommandByteCount(opcode: byte): (n: nat)
    ensures n in {6, 10, 12, 16}
    ensures opcode < 0x20 && opcode != 0x05 ==> n == 6
    ensures 0x20 <= opcode < 0x60 ==> n == 10
    ensures n == 10 ==> opcode == 0x05 || 0x20 <= opcode < 0x80
    ensures n == 12 <==> opcode == 0xA0
    ensures n == 16 <==> opcode in {0x88, 0x8A, 0x8F, 0x91, 0x9E, 0x9F}
  {
    if opcode in {0x88, 0x8A, 0x8F, 0x91, 0x9E, 0x9F} then 16
    else if opcode == 0xA0 then 12
    else if opcode == 0x05 || 0x20 <= opcode <= 0x7D then 10
    else 6
  }

  const ICD_PREFIX: byte := 0x1F

  /** The lines the target drives, and what it puts on the data lines while I/O is on. */
  datatype TargetLines = TargetLines(bsy: bool, msg: bool, cd: bool, io: bool, req: bool, dat: byte) {
    function Phase(): Phase {
      PhaseOf(msg, cd, io)
    }
  }

  const ALL_OFF := TargetLines(false, false, false, false, false, 0)

  /** The lines the initiator drives; `busy` is BSY as any other device on the bus drives it. */
  datatype InitiatorLines = InitiatorLines(busy: bool, sel: bool, atn: bool, ack: bool, rst: bool, dat: byte)

  /** All bytes that were handshaked in data phases so far, and the number of waits that gave up. */
  datatype Log = Log(sent: seq<byte>, received: seq<byte>, giveUps: nat)

  // ---------- what happens on the bus ----------

  /** The target samples the bus, changes REQ or the data lines, or gives up waiting for ACK. */
  datatype Event =
    | Sampled(target: TargetLines, initiator: InitiatorLines)
    | Driven(target: TargetLines)
    | GaveUp(target: TargetLines)
  {
    /** REQ is answered by ACK, without RST. */
    predicate Acknowledged() {
      Sampled? && target.req && initiator.ack && !initiator.rst
    }
  }

  /** What a run of events comes to: the bytes given to the initiator and taken from it, whether the latest event is a
      REQ that is acknowledged, the byte of the data out phase whose ACK is not released yet, and the log. */
  datatype Heard = Heard(given: seq<byte>, taken: seq<byte>, acked: bool, pending: seq<byte>, log: Log)

  const NOTHING := Heard([], [], false, [], Log([], [], 0))

  /** A byte is given when the REQ that shows it is acknowledged, taken when it is sampled right after the ACK, and
      received when the ACK that came with it is released. */
  function Hear(h: Heard, e: Event): Heard {
    match e
    case GaveUp(_) => h.(acked := false, pending := [], log := h.log.(giveUps := h.log.giveUps + 1))
    case Driven(_) => h.(acked := false)
    case Sampled(t, i) =>
      if t.req && t.io && i.ack && !i.rst then
        h.(acked := true, given := h.given + [t.dat],
           log := if t.Phase() == DataIn then h.log.(sent := h.log.sent + [t.dat]) else h.log)
      else if t.req && !t.io && h.acked then
        h.(acked := i.ack && !i.rst, taken := h.taken + [i.dat], pending := if t.Phase() == DataOut then [i.dat]
            else [])
      else if !t.req && !i.ack && !i.rst then
        h.(acked := false, pending := [], log := h.log.(received := h.log.received + h.pending))
      else h.(acked := e.Acknowledged())
  }

  function HeardOf(trace: seq<Event>): Heard {
    if trace == [] then NOTHING else Hear(HeardOf(trace[..|trace| - 1]), trace[|trace| - 1])
  }

  lemma HeardNext(trace: seq<Event>, e: Event)
    ensures HeardOf(trace + [e]) == Hear(HeardOf(trace), e)
  {
    assert (trace + [e])[..|trace|] == trace;
  }

  /** Neither the phase nor the data lines change while REQ is on. */
  predicate HeldStill(trace: seq<Event>) {
    forall k :: 0 < k < |trace| && trace[k - 1].target.req && trace[k].target.req ==>
      trace[k].target == trace[k - 1].target
  }

  lemma HeldOn(trace: seq<Event>, e: Event)
    requires HeldStill(trace)
    requires trace != [] && trace[|trace| - 1].target.req && e.target.req ==> e.target == trace[|trace| - 1].target
    ensures HeldStill(trace + [e])
  {
  }

  /** Event `k` shows `data` from the initiator: it is sampled while REQ is on, right after the ACK. */
  predicate Takes(trace: seq<Event>, k: nat, data: byte) {
    && 0 < k < |trace| && trace[k - 1].Acknowledged()
    && trace[k].Sampled? && trace[k].target.req && !trace[k].target.io && trace[k].initiator.dat == data
  }

  /** Event `k` shows that the initiator acknowledges `data` from the target. */
  predicate Gives(trace: seq<Event>, k: nat, data: byte) {
    k < |trace| && trace[k].Acknowledged() && trace[k].target.io && trace[k].target.dat == data
  }

  predicate Increasing(places: seq<nat>) {
    forall i, j :: 0 <= i < j < |places| ==> places[i] < places[j]
  }

  /** The bytes taken are those shown by the initiator behind its ACK, each at an event of its own, in order, and none
      is missing. */
  lemma {:induction false} TakenIsShown(trace: seq<Event>) returns (places: seq<nat>)
    ensures |places| == |HeardOf(trace).taken| && Increasing(places)
    ensures forall i :: 0 <= i < |places| ==> Takes(trace, places[i], HeardOf(trace).taken[i])
    ensures forall k: nat, data: byte :: Takes(trace, k, data) ==> k in places
    ensures HeardOf(trace).acked <==> trace != [] && trace[|trace| - 1].Acknowledged()
  {
    places := [];
    if trace != [] {
      var n := |trace| - 1;
      var before := trace[..n];
      places := TakenIsShown(before);
      assert forall k: nat, data: byte :: k < n ==> (Takes(before, k, data) <==> Takes(trace, k, data));
      assert n > 0 ==> before[|before| - 1] == trace[n - 1];
      if HeardOf(trace).taken != HeardOf(before).taken {
        places := places + [n];
      }
    }
  }

  /** The initiator holds ACK as long as REQ is on. */
  predicate HoldsAck(trace: seq<Event>) {
    forall k :: 0 < k < |trace| && trace[k - 1].Acknowledged() && trace[k].Sampled? && trace[k].target.req ==>
      trace[k].initiator.ack
  }

  /** If it does, REQ and ACK are on where a byte is taken. */
  lemma TakenWithAck(trace: seq<Event>, k: nat, data: byte)
    requires HoldsAck(trace) && Takes(trace, k, data)
    ensures trace[k].target.req && trace[k].initiator.ack
  {
  }

  lemma {:induction false} GivenIsShown(trace: seq<Event>) returns (places: seq<nat>)
    ensures |places| == |HeardOf(trace).given| && Increasing(places)
    ensures forall i :: 0 <= i < |places| ==> Gives(trace, places[i], HeardOf(trace).given[i])
    ensures forall k: nat, data: byte :: Gives(trace, k, data) ==> k in places
  {
    places := [];
    if trace != [] {
      var n := |trace| - 1;
      var before := trace[..n];
      places := GivenIsShown(before);
      assert forall k: nat, data: byte :: k < n ==> (Gives(before, k, data) <==> Gives(trace, k, data));
      if HeardOf(trace).given != HeardOf(before).given {
        places := places + [n];
      }
    }
  }
  /** The bytes appear on the bus in the data in phase, in order, each at an event of its own. */
  predicate ShownToInitiator(trace: seq<Event>, bytes: seq<byte>, places: seq<nat>) {
    && |places| == |bytes| && Increasing(places)
    && forall i :: 0 <= i < |places| ==>
         Gives(trace, places[i], bytes[i]) && trace[places[i]].target.Phase() == DataIn
  }

  /** The bytes appear on the bus in the data out phase, in order, each at an event of its own. */
  predicate ShownByInitiator(trace: seq<Event>, bytes: seq<byte>, places: seq<nat>) {
    && |places| == |bytes| && Increasing(places)
    && forall i :: 0 <= i < |places| ==>
         Takes(trace, places[i], bytes[i]) && trace[places[i]].target.Phase() == DataOut
  }

  lemma SentLater(trace: seq<Event>, bytes: seq<byte>, places: seq<nat>, n: nat)
    requires ShownToInitiator(trace, bytes, places) && n <= |bytes|
    ensures ShownToInitiator(trace, bytes[n..], places[n..])
  {
    hide Gives;
  }

  lemma ReceivedLater(trace: seq<Event>, bytes: seq<byte>, places: seq<nat>, n: nat)
    requires ShownByInitiator(trace, bytes, places) && n <= |bytes|
    ensures ShownByInitiator(trace, bytes[n..], places[n..])
  {
    hide Takes;
  }

  /** The log has sent exactly the bytes given in the data in phase. */
  lemma {:induction false} SentIsShown(trace: seq<Event>) returns (places: seq<nat>)
    ensures ShownToInitiator(trace, HeardOf(trace).log.sent, places)
    ensures forall k: nat, data: byte :: Gives(trace, k, data) && trace[k].target.Phase() == DataIn ==> k in places
  {
    hide PhaseOf;
    places := [];
    if trace != [] {
      var n := |trace| - 1;
      var before := trace[..n];
      places := SentIsShown(before);
      assert forall k: nat, data: byte :: k < n ==> (Gives(before, k, data) <==> Gives(trace, k, data));
      if HeardOf(trace).log.sent != HeardOf(before).log.sent {
        places := places + [n];
      }
    }
  }

  /** The log has received bytes taken in the data out phase, each of them once and in order. */
  lemma {:induction false} ReceivedIsShown(trace: seq<Event>) returns (places: seq<nat>, last: nat)
    ensures ShownByInitiator(trace, HeardOf(trace).log.received, places)
    ensures HeardOf(trace).acked <==> trace != [] && trace[|trace| - 1].Acknowledged()
    ensures HeardOf(trace).pending != [] ==>
              && |HeardOf(trace).pending| == 1 && Takes(trace, last, HeardOf(trace).pending[0])
              && trace[last].target.Phase() == DataOut && forall i :: 0 <= i < |places| ==> places[i] < last
  {
    hide PhaseOf;
    places, last := [], 0;
    if trace != [] {
      var n := |trace| - 1;
      var before := trace[..n];
      var h, h' := HeardOf(before), HeardOf(trace);
      places, last := ReceivedIsShown(before);
      assert h' == Hear(h, trace[n]);
      hide HeardOf;
      assert n > 0 ==> before[|before| - 1] == trace[n - 1];
      assert forall k: nat, data: byte :: k < n ==> (Takes(before, k, data) <==> Takes(trace, k, data));
      if h'.log.received != h.log.received {
        places := places + [last];
      }
      if h'.taken != h.taken {
        last := n;
      }
    }
  }

  // ---------- how a handshake is heard ----------

  /** ACK has come to the level of REQ. */
  function Waited(h: Heard, t: TargetLines): Heard {
    if t.req && t.io then
      h.(acked := true, given := h.given + [t.dat],
         log := if t.Phase() == DataIn then h.log.(sent := h.log.sent + [t.dat]) else h.log)
    else if t.req then h.(acked := true)
    else if h.pending == [] then h
    else h.(pending := [], log := h.log.(received := h.log.received + h.pending))
  }

  lemma WaitingSample(h: Heard, t: TargetLines, i: InitiatorLines)
    requires !h.acked && (t.req ==> h.pending == [])
    ensures Hear(h, Sampled(t, i)) == if i.ack == t.req && !i.rst then Waited(h, t) else h
  {
    if !t.req && h.pending == [] {
      assert h.log.received + [] == h.log.received;
    }
  }

  lemma TakingSample(h: Heard, t: TargetLines, i: InitiatorLines)
    requires t.req && !t.io && h.pending == []
    ensures Hear(h, Sampled(t, i)).(acked := false)
            == if h.acked then Heard(h.given, h.taken + [i.dat], false, if t.Phase() == DataOut then [i.dat]
                else [], h.log)
               else h.(acked := false)
  {
  }

  class Bus {
    var target: TargetLines
    /** As last acquired. */
    var initiator: InitiatorLines
    ghost var log: Log
    /** Everything that has happened on the bus. */
    ghost var trace: seq<Event>

    constructor ()
      ensures target == ALL_OFF && log == Log([], [], 0) && trace == [] && Settled()
    {
      target := ALL_OFF;
      initiator := InitiatorLines(false, false, false, false, false, 0);
      log := Log([], [], 0);
      trace := [];
    }

    ghost function Now(): Heard
      reads `trace
    {
      HeardOf(trace)
    }

    /** The bytes given to the initiator so far. */
    ghost function Given(): seq<byte>
      reads `trace
    {
      Now().given
    }

    /** The bytes taken from the initiator so far. */
    ghost function Taken(): seq<byte>
      reads `trace
    {
      Now().taken
    }

    /** No handshake is under way, and the log is that of the events. */
    ghost predicate Settled()
      reads `trace, `log
    {
      && HeldStill(trace) && (trace != [] ==> !trace[|trace| - 1].target.req)
      && !Now().acked && Now().pending == [] && Now().log == log
    }

    /** As long as REQ has been on, the lines are as they were. */
    ghost predicate Still()
      reads `trace, `target
    {
      HeldStill(trace) && (trace != [] && trace[|trace| - 1].target.req ==> trace[|trace| - 1].target == target)
    }

    method SetREQ(on: bool)
      requires Still()
      modifies `target, `trace
      ensures Still() && target == old(target).(req := on) && trace == old(trace) + [Driven(target)]
      ensures Now() == old(Now()).(acked := false)
    {
      target := target.(req := on);
      HeardNext(trace, Driven(target));
      trace := trace + [Driven(target)];
    }

    method SetDAT(data: byte)
      requires Still() && !target.req
      modifies `target, `trace
      ensures Still() && target == old(target).(dat := data) && trace == old(trace) + [Driven(target)]
      ensures Now() == old(Now()).(acked := false)
    {
      target := target.(dat := data);
      HeardNext(trace, Driven(target));
      trace := trace + [Driven(target)];
    }

    method Reset()
      modifies `target
      ensures target == ALL_OFF
    {
      target := ALL_OFF;
    }

    /** Samples the lines of the initiator. */
    method Acquire()
      modifies `initiator, `trace
      ensures trace == old(trace) + [Sampled(target, initiator)]
      ensures Now() == Hear(old(Now()), Sampled(target, initiator))
      ensures old(Still()) ==> Still()
      ensures old(Settled()) && !target.req ==> Settled()
    {
      initiator := *;
      HeardNext(trace, Sampled(target, initiator));
      trace := trace + [Sampled(target, initiator)];
    }

    method GetDAT() returns (data: byte)
      modifies `initiator, `trace
      ensures trace == old(trace) + [Sampled(target, initiator)] && data == initiator.dat
      ensures Now() == Hear(old(Now()), Sampled(target, initiator))
      ensures old(Still()) ==> Still()
    {
      Acquire();
      data := initiator.dat;
    }

    /** Samples the bus until ACK is at the level of REQ; fails on a time-out, which may come at any time, or on RST. */
    method WaitAck(level: bool) returns (ok: bool)
      requires Still() && level == target.req && !Now().acked && (level ==> Now().pending == [])
      modifies `initiator, `log, `trace
      ensures Still() && (ok ==> initiator.ack == level && !initiator.rst)
      ensures log == if ok then old(log) else old(log).(giveUps := old(log).giveUps + 1)
      ensures Now() == if ok then Waited(old(Now()), target)
                       else old(Now()).(pending := [], log := old(Now()).log.(giveUps := old(Now()).log.giveUps + 1))
      ensures trace != [] && trace[|trace| - 1].target == target
    {
      hide HeldStill, HeardOf, Waited;
      var timeLeft: nat := *;
      Acquire();
      WaitingSample(old(Now()), target, initiator);
      while timeLeft > 0 && !initiator.rst && initiator.ack != level
        invariant Still() && trace != [] && trace[|trace| - 1].target == target && log == old(log)
        invariant Now() == if initiator.ack == level && !initiator.rst then Waited(old(Now()), target) else old(Now())
      {
        Acquire();
        WaitingSample(old(Now()), target, initiator);
        timeLeft := timeLeft - 1;
      }
      ok := !initiator.rst && initiator.ack == level;
      if !ok {
        HeardNext(trace, GaveUp(target));
        HeldOn(trace, GaveUp(target));
        trace := trace + [GaveUp(target)];
        log := log.(giveUps := log.giveUps + 1);
      }
    }

    /** The receiver's or sender's log after `data` was handshaked in the phase the lines show. */
    ghost function Logged(l: Log, data: seq<byte>): Log
      reads `target
    {
      if target.Phase() == DataIn then l.(sent := l.sent + data)
      else if target.Phase() == DataOut then l.(received := l.received + data)
      else l
    }

    /** Each byte is on the data lines before REQ is raised, and counts as sent when its REQ is acknowledged. */
    method SendHandShake(buf: array<byte>, from: nat, count: nat) returns (n: nat)
      requires from + count <= buf.Length && !target.req && target.io && Settled()
      modifies this
      ensures Settled() && target == old(target).(dat := target.dat) && n <= count
      ensures Given() == old(Given()) + buf[from..from + n] && Taken() == old(Taken())
      ensures log.giveUps >= old(log).giveUps && (log.giveUps == old(log).giveUps ==> n == count)
      ensures log == Logged(old(log), buf[from..from + n]).(giveUps := log.giveUps)
    {
      hide HeldStill, Hear, HeardOf, PhaseOf;
      n := 0;
      while n < count
        invariant Settled() && target == old(target).(dat := target.dat) && n <= count
        invariant Given() == old(Given()) + buf[from..from + n] && Taken() == old(Taken())
        invariant log == Logged(old(log), buf[from..from + n])
      {
        var ok := SendByte(buf[from + n]);
        if !ok {
          break;
        }
        assert buf[from..from + n] + [buf[from + n]] == buf[from..from + n + 1];
        n := n + 1;
      }
      var _ := WaitAck(false);
    }

    /** One byte of the target's send loop: `ok` if ACK was clear and then came. */
    method SendByte(data: byte) returns (ok: bool)
      requires !target.req && target.io && Settled()
      modifies this
      ensures Settled() && target == old(target).(dat := data)
      ensures Given() == old(Given()) + (if ok then [data] else []) && Taken() == old(Taken())
      ensures log == if ok then Logged(old(log), [data]) else old(log).(giveUps := old(log).giveUps + 1)
    {
      hide HeldStill, Hear, HeardOf;
      SetDAT(data);
      ok := WaitAck(false);
      if !ok {
        return;
      }
      SetREQ(true);
      ok := WaitAck(true);
      SetREQ(false);
      if ok {
        log := Logged(log, [data]);
      }
    }

    /** A byte that was sampled although ACK never came, or never went away, is left behind the received ones. */
    method ReceiveHandShake(buf: array<byte>, from: nat, count: nat) returns (n: nat)
      requires from + count <= buf.Length && !target.req && !target.io && Settled()
      modifies this, buf
      ensures Settled() && target == old(target) && n <= count && (n == count > 0 ==> !initiator.rst)
      ensures Given() == old(Given()) && TakenIs(old(Taken()) + buf[from..from + n], n == count)
      ensures log.giveUps >= old(log).giveUps && (n == count <==> log.giveUps == old(log).giveUps)
      ensures log == Logged(old(log), buf[from..from + n]).(giveUps := log.giveUps)
      ensures buf[..from] == old(buf[..from]) && buf[from + count..] == old(buf[from + count..])
    {
      hide HeldStill, Hear, HeardOf, PhaseOf;
      n := 0;
      while n < count
        invariant Settled() && target == old(target) && n <= count && (n > 0 ==> !initiator.rst)
        invariant Given() == old(Given()) && Taken() == old(Taken()) + buf[from..from + n]
        invariant log == Logged(old(log), buf[from..from + n])
        invariant buf[..from] == old(buf[..from]) && buf[from + count..] == old(buf[from + count..])
      {
        var data, ok := ReceiveByte();
        ghost var before := buf[from..from + n];
        buf[from + n] := data;
        assert buf[from..from + n] == before && buf[from..from + n + 1] == before + [data];
        if !ok {
          break;
        }
        n := n + 1;
      }
    }

    /** The bytes taken, and unless all is well perhaps one whose handshake was not finished. */
    ghost predicate TakenIs(bytes: seq<byte>, finished: bool)
      reads `trace
    {
      bytes <= Taken() && |Taken()| <= |bytes| + if finished then 0 else 1
    }

    /** One byte of a target-side receive loop: `ok` if ACK came and went. */
    method ReceiveByte() returns (data: byte, ok: bool)
      requires !target.req && !target.io && Settled()
      modifies this
      ensures Settled() && target == old(target) && (ok ==> !initiator.rst)
      ensures Given() == old(Given()) && TakenIs(old(Taken()) + (if ok then [data] else []), ok)
      ensures log == if ok then Logged(old(log), [data]) else old(log).(giveUps := old(log).giveUps + 1)
    {
      hide HeldStill, Hear, HeardOf;
      SetREQ(true);
      ok := WaitAck(true);
      ghost var before := Now();
      data := GetDAT();
      TakingSample(before, target, initiator);
      SetREQ(false);
      if ok {
        ok := WaitAck(false);
        if ok {
          log := Logged(log, [data]);
        }
      }
    }

    /** The first byte of a CDB, and before it perhaps the ICD byte, whose handshake is finished without looking whether
        ACK went away after the byte that follows. */
    method FirstCommandByte() returns (data: byte, ok: bool, ghost stream: seq<byte>)
      requires !target.req && target.Phase() == Command && Settled()
      modifies this
      ensures Settled() && target == old(target)
      ensures Given() == old(Given()) && TakenIs(old(Taken()) + stream, ok)
      ensures log == old(log).(giveUps := log.giveUps) && log.giveUps >= old(log).giveUps
      ensures !ok ==> log.giveUps > old(log).giveUps && (stream == [] || stream == [ICD_PREFIX])
      ensures ok ==> WithoutIcd(stream) == [data] && stream != [ICD_PREFIX]
    {
      hide HeldStill, Hear, HeardOf;
      data, ok := ReceiveByte();
      stream := if ok then [data] else [];
      if ok && data == ICD_PREFIX {
        SetREQ(true);
        ok := WaitAck(true);
        ghost var before := Now();
        data := GetDAT();
        TakingSample(before, target, initiator);
        SetREQ(false);
        if ok {
          stream := stream + [data];
          var _ := WaitAck(false);
        }
      }
    }

    /** Receives a CDB. `stream` is the sequence of bytes the initiator has handed over; a leading ICD byte is
        dropped, the rest is the start of the CDB, and no more bytes are taken than its operation code promises.
        Fewer are taken only if a wait gives up; the wait for the release of the byte after the ICD byte is ignored. */
    method CommandHandShake(buf: array<byte>) returns (n: nat, ghost stream: seq<byte>)
      requires buf.Length >= 16 && !target.req && target.Phase() == Command && Settled()
      modifies this, buf
      ensures Settled() && target == old(target)
      ensures Given() == old(Given())
      ensures TakenIs(old(Taken()) + stream, n > 0 && n == CommandByteCount(buf[0]))
      ensures log == old(log).(giveUps := log.giveUps) && log.giveUps >= old(log).giveUps
      ensures n == 0 <==> stream == [] || stream == [ICD_PREFIX]
      ensures n > 0 ==> n <= CommandByteCount(buf[0]) && buf[..n] == WithoutIcd(stream)
      ensures n > 0 && n == CommandByteCount(buf[0]) ==> !initiator.rst
      ensures n == 0 || n < CommandByteCount(buf[0]) ==> log.giveUps > old(log).giveUps
      ensures buf[16..] == old(buf[16..])
    {
      hide CommandByteCount, HeldStill, Hear, HeardOf;
      var data, ok;
      data, ok, stream := FirstCommandByte();
      buf[0] := data;
      if !ok {
        return 0, stream;
      }
      var count := CommandByteCount(data);
      n := 1;
      while n < count
        invariant 1 <= n <= count && target == old(target) && buf[0] == data && Settled()
        invariant Given() == old(Given()) && Taken() == old(Taken()) + stream
        invariant log == old(log).(giveUps := log.giveUps) && log.giveUps >= old(log).giveUps
        invariant stream != [ICD_PREFIX] && buf[..n] == WithoutIcd(stream)
        invariant n == count ==> !initiator.rst
        invariant buf[16..] == old(buf[16..])
      {
        var next;
        next, ok := ReceiveByte();
        ghost var before := buf[..n];
        buf[n] := next;
        assert buf[..n] == before;
        if !ok {
          break;
        }
        Appended(stream, next);
        assert old(Taken()) + stream + [next] == old(Taken()) + (stream + [next]);
        stream := stream + [next];
        n := n + 1;
      }
    }
  }

  lemma Appended(stream: seq<byte>, data: byte)
    requires WithoutIcd(stream) != []
    ensures WithoutIcd(stream + [data]) == WithoutIcd(stream) + [data]
  {
  }

  /** The CDB bytes of a stream. */
  function WithoutIcd(stream: seq<byte>): seq<byte> {
    if stream != [] && stream[0] == ICD_PREFIX then stream[1..] else stream
  }
}
