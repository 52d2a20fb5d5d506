/** The asynchronous REQ/ACK handshake of the SCSI bus: the target's and the initiator's transfer loops as two
    processes that interleave at every access to a signal line.

    Each process counter names the next access of its loop. A wait either observes the level it waits for or,
    at any moment, gives up (time-out or RST); an initiator may also break off on a phase error. */
module Handshake {
  import opened Bytes

  /** `In` sends data from the target to the initiator, `Out` from the initiator to the target. */
  datatype Direction = In | Out

  /** The sender owns `data`; the receiver was told to receive `limit` bytes. */
  datatype Transfer = Transfer(direction: Direction, data: seq<byte>, limit: nat) {
    function TargetCount(): nat {
      if direction.In? then |data| else limit
    }

    function InitiatorCount(): nat {
      if direction.In? then limit else |data|
    }
  }

  datatype TargetPc =
    | TSetData      // put the byte on the bus (In)
    | TWaitIdle     // wait for ACK to be clear (In)
    | TRaiseReq
    | TWaitAck
    | TSample       // read the bus (Out)
    | TDropReq
    | TWaitRelease  // wait for ACK to clear (Out)
    | TFinalWait    // the wait after the loop (In)
    | TDone

  datatype InitiatorPc =
    | ISetData      // put the byte on the bus (Out)
    | IWaitReq
    | ISample       // read the bus (In)
    | IRaiseAck
    | IWaitReqClear
    | IDropAck
    | IDone

  /** `tn` and `jn` are the two loop counters, `tok` and `iok` the results of the latest waits, `got` the bytes
      the receiver has counted and `latch` the byte it has sampled but not counted yet. */
  datatype State = State(
    req: bool, ack: bool, dat: byte,
    t: TargetPc, tn: nat, tok: bool,
    i: InitiatorPc, jn: nat, iok: bool,
    got: seq<byte>, latch: byte)

  // ---------- the two processes ----------

  /** Where the target is at the head of its loop. */
  function TargetHead(c: Transfer, n: nat): TargetPc {
    if n < c.TargetCount() then if c.direction.In? then TSetData else TRaiseReq
    else if c.direction.In? then TFinalWait else TDone
  }

  function InitiatorHead(c: Transfer, n: nat): InitiatorPc {
    if n < c.InitiatorCount() then if c.direction.In? then IWaitReq else ISetData
    else IDone
  }

  /** Where the target goes when it leaves its loop early. */
  function TargetBreak(c: Transfer): TargetPc {
    if c.direction.In? then TFinalWait else TDone
  }

  predicate Initial(c: Transfer, s: State) {
    && !s.req && !s.ack && s.got == []
    && s.t == TargetHead(c, 0) && s.tn == 0 && s.tok
    && s.i == InitiatorHead(c, 0) && s.jn == 0 && s.iok
  }

  /** One access of the target; `fault` says whether a wait gave up. */
  predicate TargetStep(c: Transfer, s: State, s': State, fault: bool) {
    match s.t
    case TSetData =>
      !fault && s.tn < |c.data| && s' == s.(dat := c.data[s.tn], t := TWaitIdle)
    case TWaitIdle =>
      if fault then s' == s.(t := TargetBreak(c)) else !s.ack && s' == s.(t := TRaiseReq)
    case TRaiseReq =>
      !fault && s' == s.(req := true, t := TWaitAck)
    case TWaitAck =>
      && (fault || s.ack)
      && s' == s.(tok := !fault, t := if c.direction.In? then TDropReq else TSample)
    case TSample =>
      !fault && s' == s.(latch := s.dat, t := TDropReq)
    case TDropReq =>
      && !fault
      && s' == if !s.tok then s.(req := false, t := TargetBreak(c))
               else if c.direction.In? then s.(req := false, tn := s.tn + 1, t := TargetHead(c, s.tn + 1))
               else s.(req := false, t := TWaitRelease)
    case TWaitRelease =>
      if fault then s' == s.(t := TDone)
      else !s.ack && s' == s.(tn := s.tn + 1, got := s.got + [s.latch], t := TargetHead(c, s.tn + 1))
    case TFinalWait =>
      (fault || !s.ack) && s' == s.(t := TDone)
    case TDone => false
  }

  /** One access of the initiator; `fault` says whether a wait gave up or the phase changed. */
  predicate InitiatorStep(c: Transfer, s: State, s': State, fault: bool) {
    match s.i
    case ISetData =>
      !fault && s.jn < |c.data| && s' == s.(dat := c.data[s.jn], i := IWaitReq)
    case IWaitReq =>
      if fault then s' == s.(i := IDone)
      else s.req && s' == s.(i := if c.direction.In? then ISample else IRaiseAck)
    case ISample =>
      !fault && s' == s.(latch := s.dat, i := IRaiseAck)
    case IRaiseAck =>
      !fault && s' == s.(ack := true, i := IWaitReqClear)
    case IWaitReqClear =>
      (fault || !s.req) && s' == s.(iok := !fault, i := IDropAck)
    case IDropAck =>
      s' == if fault || !s.iok then s.(ack := false, i := IDone)
            else s.(ack := false, jn := s.jn + 1, i := InitiatorHead(c, s.jn + 1),
                    got := if c.direction.In? then s.got + [s.latch] else s.got)
    case IDone => false
  }

  predicate Step(c: Transfer, s: State, s': State, fault: bool) {
    TargetStep(c, s, s', fault) || InitiatorStep(c, s, s', fault)
  }

  predicate Finished(s: State) {
    s.t == TDone && s.i == IDone
  }

  // ---------- invariants ----------

  /** What holds of the lines and the counters in both directions. */
  predicate Lines(c: Transfer, s: State) {
    && (s.ack <==> s.i in {IWaitReqClear, IDropAck})
    && (s.req <==> s.t in {TWaitAck, TSample, TDropReq})
    && s.tn <= c.TargetCount() && s.jn <= c.InitiatorCount()
    && (s.t !in {TFinalWait, TDone} ==> s.tn < c.TargetCount())
    && (s.i != IDone ==> s.jn < c.InitiatorCount())
  }

  /** Data-in: the bytes, and where the initiator may be while the target is at a given place. */
  predicate InInv(c: Transfer, s: State) {
    && |s.got| == s.jn <= |c.data| && s.got == c.data[..s.jn]
    && (s.t in {TWaitIdle, TRaiseReq, TWaitAck, TDropReq} ==> s.tn < |c.data| && s.dat == c.data[s.tn])
    && (s.i in {ISample, IRaiseAck, IWaitReqClear, IDropAck} ==> s.jn < |c.data|)
    && (s.i == ISample ==> s.dat == c.data[s.jn])
    && (s.i in {IRaiseAck, IWaitReqClear, IDropAck} ==> s.latch == c.data[s.jn])
    && match s.t
       case TSetData | TWaitIdle =>
         (s.jn == s.tn && s.i in {IWaitReq, IDone}) || (s.jn + 1 == s.tn && s.i in {IWaitReqClear, IDropAck, IDone})
       case TRaiseReq =>
         (s.jn == s.tn && s.i in {IWaitReq, IDone}) || (s.jn + 1 == s.tn && s.i == IDone)
       case TWaitAck =>
         (s.jn == s.tn && s.i != ISetData && (s.i == IDropAck ==> !s.iok)) || (s.jn + 1 == s.tn && s.i == IDone)
       case TDropReq =>
         || (s.jn == s.tn && (s.i == IDropAck ==> !s.iok)
             && (if s.tok then s.i in {IWaitReqClear, IDropAck, IDone} else s.i != ISetData))
         || (s.jn + 1 == s.tn && s.i == IDone && !s.tok)
       case TFinalWait | TDone =>
         || (s.jn == s.tn && s.i != ISetData)
         || (s.jn + 1 == s.tn && s.i in {IWaitReqClear, IDropAck, IDone})
         || (s.jn == s.tn + 1 && s.i in {IWaitReq, IDone})
       case TSample | TWaitRelease => false
  }

  /** Data-out: the same with the initiator sending. */
  predicate OutInv(c: Transfer, s: State) {
    && |s.got| == s.tn <= |c.data| && s.got == c.data[..s.tn]
    && (s.i in {IWaitReq, IRaiseAck, IWaitReqClear, IDropAck} ==> s.jn < |c.data| && s.dat == c.data[s.jn])
    && (s.t == TSample && s.tok ==> s.tn < |c.data| && s.dat == c.data[s.tn])
    && (s.t in {TDropReq, TWaitRelease} && s.tok ==> s.tn < |c.data| && s.latch == c.data[s.tn])
    && match s.t
       case TRaiseReq =>
         (s.jn == s.tn && s.i in {ISetData, IWaitReq, IDone}) || (s.jn + 1 == s.tn && s.i == IDone)
       case TWaitAck =>
         (s.jn == s.tn && s.i != ISample && (s.i == IDropAck ==> !s.iok)) || (s.jn + 1 == s.tn && s.i == IDone)
       case TSample | TDropReq =>
         || (s.jn == s.tn && (s.i == IDropAck ==> !s.iok)
             && (if s.tok then s.i in {IWaitReqClear, IDropAck, IDone} else s.i != ISample))
         || (s.jn + 1 == s.tn && s.i == IDone && !s.tok)
       case TWaitRelease =>
         && s.tok
         && ((s.jn == s.tn && s.i in {IWaitReqClear, IDropAck, IDone})
             || (s.jn == s.tn + 1 && s.i in {ISetData, IWaitReq, IDone}))
       case TDone =>
         || (s.jn == s.tn && s.i != ISample)
         || (s.jn + 1 == s.tn && s.i == IDone)
         || (s.jn == s.tn + 1 && s.i in {ISetData, IWaitReq, IDone})
       case TSetData | TWaitIdle | TFinalWait => false
  }

  predicate Inv(c: Transfer, s: State) {
    Lines(c, s) && if c.direction.In? then InInv(c, s) else OutInv(c, s)
  }

  lemma InitialInv(c: Transfer, s: State)
    requires Initial(c, s)
    ensures Inv(c, s)
  {
  }

  lemma TargetKeepsIn(c: Transfer, s: State, s': State, fault: bool)
    requires c.direction.In? && Inv(c, s) && TargetStep(c, s, s', fault)
    ensures Inv(c, s')
  {
  }

  lemma InitiatorKeepsIn(c: Transfer, s: State, s': State, fault: bool)
    requires c.direction.In? && Inv(c, s) && InitiatorStep(c, s, s', fault)
    ensures Inv(c, s')
  {
  }

  lemma TargetKeepsOut(c: Transfer, s: State, s': State, fault: bool)
    requires c.direction.Out? && Inv(c, s) && TargetStep(c, s, s', fault)
    ensures Inv(c, s')
  {
  }

  lemma InitiatorKeepsOut(c: Transfer, s: State, s': State, fault: bool)
    requires c.direction.Out? && Inv(c, s) && InitiatorStep(c, s, s', fault)
    ensures Inv(c, s')
  {
  }

  lemma StepKeepsInv(c: Transfer, s: State, s': State, fault: bool)
    requires Inv(c, s) && Step(c, s, s', fault)
    ensures Inv(c, s')
  {
    hide InInv, OutInv;
    if TargetStep(c, s, s', fault) {
      if c.direction.In? { TargetKeepsIn(c, s, s', fault); } else { TargetKeepsOut(c, s, s', fault); }
    } else {
      if c.direction.In? { InitiatorKeepsIn(c, s, s', fault); } else { InitiatorKeepsOut(c, s, s', fault); }
    }
  }

  // ---------- work left ----------

  function TargetRank(t: TargetPc): nat {
    match t
    case TSetData => 7 case TWaitIdle => 6 case TRaiseReq => 5 case TWaitAck => 4
    case TSample => 3 case TDropReq => 2 case TWaitRelease => 1 case TFinalWait => 1 case TDone => 0
  }

  function InitiatorRank(i: InitiatorPc): nat {
    match i
    case ISetData => 6 case IWaitReq => 5 case ISample => 4 case IRaiseAck => 3
    case IWaitReqClear => 2 case IDropAck => 1 case IDone => 0
  }

  /** An upper bound on the number of accesses both processes still make. */
  function WorkLeft(c: Transfer, s: State): (work: int)
    ensures Lines(c, s) ==> work >= 0
  {
    (if s.t in {TFinalWait, TDone} then 0 else 10 * (c.TargetCount() - s.tn)) + TargetRank(s.t)
    + (if s.i == IDone then 0 else 10 * (c.InitiatorCount() - s.jn)) + InitiatorRank(s.i)
  }

  lemma StepDoesWork(c: Transfer, s: State, s': State, fault: bool)
    requires Lines(c, s) && Lines(c, s') && Step(c, s, s', fault)
    ensures WorkLeft(c, s') < WorkLeft(c, s)
  {
    if TargetStep(c, s, s', fault) {
      TargetDoesWork(c, s, s', fault);
    } else {
      InitiatorDoesWork(c, s, s', fault);
    }
  }

  lemma TargetDoesWork(c: Transfer, s: State, s': State, fault: bool)
    requires Lines(c, s) && Lines(c, s') && TargetStep(c, s, s', fault)
    ensures WorkLeft(c, s') < WorkLeft(c, s)
  {
  }

  lemma InitiatorDoesWork(c: Transfer, s: State, s': State, fault: bool)
    requires Lines(c, s) && Lines(c, s') && InitiatorStep(c, s, s', fault)
    ensures WorkLeft(c, s') < WorkLeft(c, s)
  {
  }

  // ---------- runs ----------

  /** One step of either process; without `faults` no wait gives up. */
  predicate Next(c: Transfer, s: State, s': State, faults: bool) {
    Step(c, s, s', false) || (faults && Step(c, s, s', true))
  }

  /** An interleaving of the two processes, as the sequence of the states it goes through. */
  ghost predicate Run(c: Transfer, run: seq<State>, faults: bool) {
    && |run| > 0
    && Initial(c, run[0])
    && forall n :: 0 <= n < |run| - 1 ==> Next(c, run[n], run[n + 1], faults)
  }

  function Last(run: seq<State>): State
    requires |run| > 0
  {
    run[|run| - 1]
  }

  lemma {:induction false} RunKeepsInv(c: Transfer, run: seq<State>, faults: bool)
    requires Run(c, run, faults)
    ensures Inv(c, Last(run))
    ensures |run| + WorkLeft(c, Last(run)) <= 1 + WorkLeft(c, run[0])
    decreases |run|
  {
    hide InInv, OutInv, TargetStep, InitiatorStep, WorkLeft;
    if |run| == 1 {
      InitialInv(c, run[0]);
    } else {
      var before := run[..|run| - 1];
      RunKeepsInv(c, before, faults);
      var s, s' := Last(before), Last(run);
      assert Next(c, s, s', faults) by { assert s == run[|run| - 2] && s' == run[|run| - 2 + 1]; }
      var fault := !Step(c, s, s', false);
      StepKeepsInv(c, s, s', fault);
      StepDoesWork(c, s, s', fault);
    }
  }

  // ---------- the theorems ----------

  function ReceiverCount(c: Transfer, s: State): nat {
    if c.direction.In? then s.jn else s.tn
  }

  /** In every interleaving, whatever waits give up, the receiver has a prefix of the sender's bytes, its return
      value is the length of that prefix, and the two return values differ by at most one. */
  lemma ReceivesPrefix(c: Transfer, run: seq<State>, faults: bool)
    requires Run(c, run, faults)
    ensures var s := Last(run);
            && s.got <= c.data && |s.got| == ReceiverCount(c, s) <= c.limit
            && -1 <= s.tn - s.jn <= 1
  {
    RunKeepsInv(c, run, faults);
  }

  /** The bus keeps its byte while the receiver may sample it: in data-in from REQ to the sample, in data-out from
      ACK to the sample. A sampled byte is the one the receiver is about to count. */
  lemma DataIsStable(c: Transfer, run: seq<State>, faults: bool, s': State)
    requires Run(c, run, faults) && Next(c, Last(run), s', faults)
    ensures var s := Last(run);
            && (c.direction.In? && (s.req || s.i == ISample) ==> s'.dat == s.dat)
            && (c.direction.In? && s.i == ISample ==> s.jn < |c.data| && s.dat == c.data[s.jn])
            && (c.direction.Out? && (s.ack || (s.t == TSample && s.tok)) ==> s'.dat == s.dat)
            && (c.direction.Out? && s.t == TSample && s.tok ==> s.tn < |c.data| && s.dat == c.data[s.tn])
  {
    RunKeepsInv(c, run, faults);
  }

  /** Every interleaving ends: the number of states is bounded by the work of the two loops. */
  lemma RunsAreBounded(c: Transfer, run: seq<State>, faults: bool)
    requires Run(c, run, faults)
    ensures |run| <= 15 + 10 * (c.TargetCount() + c.InitiatorCount())
  {
    RunKeepsInv(c, run, faults);
  }

  /** What a fault-free run adds to the invariant: both loops run to their full counts. */
  predicate Faultless(c: Transfer, s: State) {
    && (s.t in {TFinalWait, TDone} ==> s.tn == c.TargetCount())
    && (s.i == IDone ==> s.jn == c.InitiatorCount())
    && (s.t in {TSample, TDropReq} ==> s.tok)
    && (s.i == IDropAck ==> s.iok)
  }

  lemma StepKeepsFaultless(c: Transfer, s: State, s': State)
    requires Lines(c, s) && Faultless(c, s) && Step(c, s, s', false)
    ensures Faultless(c, s')
  {
  }

  lemma {:induction false} RunKeepsFaultless(c: Transfer, run: seq<State>)
    requires Run(c, run, false)
    ensures Faultless(c, Last(run))
    decreases |run|
  {
    hide InInv, OutInv, TargetStep, InitiatorStep, WorkLeft;
    if |run| > 1 {
      var before := run[..|run| - 1];
      RunKeepsFaultless(c, before);
      RunKeepsInv(c, before, false);
      assert Next(c, Last(before), Last(run), false) by {
        assert Last(before) == run[|run| - 2] && Last(run) == run[|run| - 2 + 1];
      }
      StepKeepsFaultless(c, Last(before), Last(run));
    }
  }

  /** With equal counts and no fault some process can always move. */
  lemma NeverDeadlocks(c: Transfer, s: State) returns (s': State)
    requires |c.data| == c.limit
    requires Inv(c, s) && Faultless(c, s) && !Finished(s)
    ensures Step(c, s, s', false)
  {
    if s.i != IDone && (s.i == IWaitReq ==> s.req) && (s.i == IWaitReqClear ==> !s.req) {
      s' := match s.i
        case ISetData => s.(dat := c.data[s.jn], i := IWaitReq)
        case IWaitReq => s.(i := if c.direction.In? then ISample else IRaiseAck)
        case ISample => s.(latch := s.dat, i := IRaiseAck)
        case IRaiseAck => s.(ack := true, i := IWaitReqClear)
        case IWaitReqClear => s.(iok := true, i := IDropAck)
        case IDropAck => s.(ack := false, jn := s.jn + 1, i := InitiatorHead(c, s.jn + 1),
                            got := if c.direction.In? then s.got + [s.latch] else s.got)
        case IDone => s;
    } else {
      s' := match s.t
        case TSetData => s.(dat := c.data[s.tn], t := TWaitIdle)
        case TWaitIdle => s.(t := TRaiseReq)
        case TRaiseReq => s.(req := true, t := TWaitAck)
        case TWaitAck => s.(tok := true, t := if c.direction.In? then TDropReq else TSample)
        case TSample => s.(latch := s.dat, t := TDropReq)
        case TDropReq =>
          if c.direction.In? then s.(req := false, tn := s.tn + 1, t := TargetHead(c, s.tn + 1))
          else s.(req := false, t := TWaitRelease)
        case TWaitRelease => s.(tn := s.tn + 1, got := s.got + [s.latch], t := TargetHead(c, s.tn + 1))
        case _ => s.(t := TDone);
    }
  }

  /** With equal counts and no fault, an interleaving that has come to its end has delivered all bytes, and both sides
      return the full count; and every interleaving can be continued until it has come to its end. */
  lemma {:induction false} RunDeliversEverything(c: Transfer, run: seq<State>) returns (full: seq<State>)
    requires |c.data| == c.limit
    requires Run(c, run, false)
    ensures run <= full && Run(c, full, false) && Finished(Last(full))
    ensures Last(full).got == c.data && Last(full).tn == Last(full).jn == |c.data|
    ensures Finished(Last(run)) ==> Last(run).got == c.data && Last(run).tn == Last(run).jn == |c.data|
    decreases WorkLeft(c, Last(run))
  {
    hide InInv, OutInv, TargetStep, InitiatorStep, WorkLeft;
    RunKeepsInv(c, run, false);
    RunKeepsFaultless(c, run);
    if Finished(Last(run)) {
      full := run;
      ReceivesPrefix(c, run, false);
    } else {
      var s' := NeverDeadlocks(c, Last(run));
      StepKeepsInv(c, Last(run), s', false);
      StepDoesWork(c, Last(run), s', false);
      assert Last(run + [s']) == s';
      full := RunDeliversEverything(c, run + [s']);
    }
  }
}
