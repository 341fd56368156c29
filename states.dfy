/**
 * The transceiver state machine of the radio module (`RADIO_HandleState`,
 * `RADIO_AppHandleEvent`). The radio driver is not part of this model: each
 * call that can fail is given its outcome as an input (`DriverResult`), and
 * every request the machine makes of the driver is recorded as a `DriverCall`.
 */
module States {
  import opened Bytes

  datatype AppStatus =
    | Initial
    | Reset
    | ReceiverAlwaysOn
    | TransmitData
    | WaitingForAck
    | TransmitAck
    | ReadyForTxRx

  /** The radio events raised by the driver callbacks and handled by `RADIO_AppHandleEvent`. */
  datatype Event = RadioReset | RadioTimeout | RadioAck | RadioOverflow | RadioData | RadioUnknown

  /**
   * What the driver answers during one step: whether switching the receiver
   * off succeeded, and whether the transmission request succeeded.
   */
  datatype DriverResult = DriverResult(rxDisableOk: bool, txOk: bool)

  /** A request made of the radio driver. */
  datatype DriverCall =
    | RxEnable(timeout: nat)
    | RxDisable
    | DataRequest(frame: seq<Byte>)
    | RadioInit
    | SetChannelRequest(channel: nat)
    | PowerAdjust(power: nat)
    | SetClockRate(rate: nat)

  /** How long the receiver stays on after a transmission, waiting for the acknowledge. */
  const TIMEOUT_COUNT: nat := 0xB000

  /** The prefix of every application frame, "EST". */
  const PREFIX: seq<Byte> := Ascii("EST")
  /** The acknowledge text, "ESTack". */
  const ACK_TEXT: seq<Byte> := Ascii("ESTack")
  /** The acknowledge frame on air: the text and its terminator. */
  const ACK_FRAME: seq<Byte> := ACK_TEXT + [NUL]

  /** The state after one `RADIO_HandleState` step. */
  function Step(s: AppStatus, contest: bool, r: DriverResult): AppStatus {
    match s
    case Initial => ReceiverAlwaysOn
    case ReceiverAlwaysOn => ReadyForTxRx
    case ReadyForTxRx => ReadyForTxRx
    case TransmitData =>
      if !r.rxDisableOk then TransmitData
      else if r.txOk then (if contest then ReceiverAlwaysOn else WaitingForAck)
      else ReceiverAlwaysOn
    case TransmitAck => ReceiverAlwaysOn
    case Reset => Initial
    case WaitingForAck => WaitingForAck
  }

  /** The driver requests made by one `RADIO_HandleState` step; `frame` is the loaded transmit packet. */
  function StepCalls(s: AppStatus, contest: bool, r: DriverResult, frame: seq<Byte>): seq<DriverCall> {
    match s
    case ReceiverAlwaysOn => [RxEnable(0)]
    case TransmitData =>
      [RxDisable] +
      (if !r.rxDisableOk then []
       else [DataRequest(frame)] + (if r.txOk then [RxEnable(TIMEOUT_COUNT)] else []))
    case TransmitAck => [DataRequest(ACK_FRAME)]
    case Reset => [RadioInit]
    case _ => []
  }

  /** The state `RADIO_AppHandleEvent` sets for an event. */
  function EventTarget(e: Event): AppStatus {
    match e
    case RadioReset => Reset
    case RadioData => TransmitAck
    case _ => ReceiverAlwaysOn
  }

  /**
   * The busy loop `while (status != READY) RADIO_HandleState();` of the send
   * operations, fed one driver result per step: the state it stops in, when it
   * reaches Ready or the results run out.
   */
  function Run(s: AppStatus, contest: bool, rs: seq<DriverResult>): AppStatus
    decreases |rs|
  {
    if s == ReadyForTxRx || rs == [] then s else Run(Step(s, contest, rs[0]), contest, rs[1..])
  }

  /** The driver requests made by the same loop. */
  function RunCalls(s: AppStatus, contest: bool, rs: seq<DriverResult>, frame: seq<Byte>): seq<DriverCall>
    decreases |rs|
  {
    if s == ReadyForTxRx || rs == [] then []
    else StepCalls(s, contest, rs[0], frame) + RunCalls(Step(s, contest, rs[0]), contest, rs[1..], frame)
  }

  /** One turn of the busy loop: a state short of Ready takes one step on the first result. */
  lemma RunUnfold(log: seq<DriverCall>, s: AppStatus, contest: bool, rs: seq<DriverResult>, frame: seq<Byte>)
    requires s != ReadyForTxRx && rs != []
    ensures Run(s, contest, rs) == Run(Step(s, contest, rs[0]), contest, rs[1..])
    ensures log + RunCalls(s, contest, rs, frame)
         == (log + StepCalls(s, contest, rs[0], frame)) + RunCalls(Step(s, contest, rs[0]), contest, rs[1..], frame)
  {
    var step, more := StepCalls(s, contest, rs[0], frame), RunCalls(Step(s, contest, rs[0]), contest, rs[1..], frame);
    assert RunCalls(s, contest, rs, frame) == step + more;
    CallsAssoc(log, step, more);
  }

  lemma CallsAssoc(log: seq<DriverCall>, step: seq<DriverCall>, more: seq<DriverCall>)
    ensures log + (step + more) == (log + step) + more
  {
  }

  /** The states whose way to Ready does not depend on the driver. */
  predicate OnFixedPath(s: AppStatus) {
    s == Initial || s == Reset || s == ReceiverAlwaysOn || s == TransmitAck || s == ReadyForTxRx
  }

  /** How many steps a state on the fixed path needs to reach Ready. */
  function Distance(s: AppStatus): nat
    requires OnFixedPath(s)
  {
    match s
    case Reset => 3
    case Initial => 2
    case TransmitAck => 2
    case ReceiverAlwaysOn => 1
    case ReadyForTxRx => 0
  }

  /** The number of leading steps whose receiver switch-off failed (the retries of TransmitData). */
  function Retries(rs: seq<DriverResult>): (k: nat)
    ensures k <= |rs|
    ensures forall i | 0 <= i < k :: !rs[i].rxDisableOk
    ensures k < |rs| ==> rs[k].rxDisableOk
  {
    if rs == [] || rs[0].rxDisableOk then 0 else 1 + Retries(rs[1..])
  }

  // ---------------------------------------------------------------------
  // Properties

  /**
   * WaitingForAck is left only by an event: the busy loop of a send that
   * starts there neither moves nor calls the driver, whatever the driver does.
   */
  lemma {:induction false} WaitingForAckIsStuck(contest: bool, rs: seq<DriverResult>, frame: seq<Byte>)
    ensures Run(WaitingForAck, contest, rs) == WaitingForAck
    ensures RunCalls(WaitingForAck, contest, rs, frame) == []
  {
    if rs != [] {
      WaitingForAckIsStuck(contest, rs[1..], frame);
    }
  }

  /** A state on the fixed path reaches Ready exactly when the loop may take `Distance` steps. */
  lemma {:induction false} FixedPathDrains(s: AppStatus, contest: bool, rs: seq<DriverResult>)
    requires OnFixedPath(s)
    ensures Run(s, contest, rs) == ReadyForTxRx <==> |rs| >= Distance(s)
    decreases |rs|
  {
    if s != ReadyForTxRx && rs != [] {
      FixedPathDrains(Step(s, contest, rs[0]), contest, rs[1..]);
    }
  }

  /**
   * A pending TransmitData reaches Ready exactly when the receiver switch-off
   * eventually succeeds, the loop has a further step after it, and that
   * transmission does not put the machine into WaitingForAck (contest mode,
   * or a failed transmission).
   */
  lemma {:induction false} TransmitDataDrains(contest: bool, rs: seq<DriverResult>)
    ensures var k := Retries(rs);
      Run(TransmitData, contest, rs) == ReadyForTxRx <==> k + 2 <= |rs| && (contest || !rs[k].txOk)
    decreases |rs|
  {
    if rs != [] {
      if !rs[0].rxDisableOk {
        TransmitDataDrains(contest, rs[1..]);
      } else if rs[0].txOk && !contest {
        WaitingForAckIsStuck(contest, rs[1..], []);
      } else {
        FixedPathDrains(ReceiverAlwaysOn, contest, rs[1..]);
      }
    }
  }

  /** Three steps in which the receiver switches off and the transmission fails. */
  function ThreeSafeSteps(): seq<DriverResult> {
    [DriverResult(true, false), DriverResult(true, false), DriverResult(true, false)]
  }

  /** The busy loop of a send can end (for some driver behaviour) exactly when the state is not WaitingForAck. */
  lemma DrainsIffNotWaiting(s: AppStatus, contest: bool)
    ensures (exists rs :: Run(s, contest, rs) == ReadyForTxRx) <==> s != WaitingForAck
  {
    if s == WaitingForAck {
      forall rs ensures Run(s, contest, rs) != ReadyForTxRx {
        WaitingForAckIsStuck(contest, rs, []);
      }
    } else if s == TransmitData {
      TransmitDataDrains(contest, ThreeSafeSteps());
    } else {
      FixedPathDrains(s, contest, ThreeSafeSteps());
    }
  }

  /** In contest mode no transmission waits for an acknowledge: the loop never enters WaitingForAck. */
  lemma {:induction false} ContestNeverWaits(s: AppStatus, rs: seq<DriverResult>)
    requires s != WaitingForAck
    ensures Run(s, true, rs) != WaitingForAck
    decreases |rs|
  {
    if s != ReadyForTxRx && rs != [] {
      ContestNeverWaits(Step(s, true, rs[0]), rs[1..]);
    }
  }

  /**
   * A frame is handed to the driver only after the receiver was switched off,
   * and the receiver is re-armed with the acknowledge timeout only after a
   * successful transmission.
   */
  lemma TransmitOnlyWhenReceiverOff(contest: bool, r: DriverResult, frame: seq<Byte>)
    ensures DataRequest(frame) in StepCalls(TransmitData, contest, r, frame) <==> r.rxDisableOk
    ensures RxEnable(TIMEOUT_COUNT) in StepCalls(TransmitData, contest, r, frame) <==> r.rxDisableOk && r.txOk
    ensures StepCalls(TransmitData, contest, r, frame)[0] == RxDisable
  {
  }

  /** No event leaves the machine waiting, so after any event a send can go ahead again. */
  lemma EventsUnblock(e: Event, contest: bool)
    ensures EventTarget(e) != WaitingForAck
    ensures exists rs :: Run(EventTarget(e), contest, rs) == ReadyForTxRx
  {
    DrainsIffNotWaiting(EventTarget(e), contest);
  }

  /** A data event is answered with exactly one acknowledge frame, and the receiver then comes back on. */
  lemma DataIsAcknowledged(contest: bool, r1: DriverResult, r2: DriverResult, frame: seq<Byte>)
    ensures var s1 := Step(EventTarget(RadioData), contest, r1);
      StepCalls(EventTarget(RadioData), contest, r1, frame) == [DataRequest(ACK_FRAME)]
      && s1 == ReceiverAlwaysOn
      && StepCalls(s1, contest, r2, frame) == [RxEnable(0)]
      && Step(s1, contest, r2) == ReadyForTxRx
  {
  }

  /**
   * A transmission left pending because the receiver could not be switched
   * off is completed by the next send's busy loop, with the frame still in the
   * transmit buffer: that old frame goes out before the new one is loaded.
   */
  lemma PendingFrameGoesFirst(contest: bool, rs: seq<DriverResult>, frame: seq<Byte>)
    requires rs != [] && rs[0].rxDisableOk
    ensures RunCalls(TransmitData, contest, rs, frame)[..2] == [RxDisable, DataRequest(frame)]
  {
  }
}
