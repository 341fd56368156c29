/**
 * The radio module as an object: the module-level state of `Radio.c` (the
 * machine status, the on/sniff/contest flags, the contest number, the cached
 * expected answer, channel and output power, the transmit buffer and packet
 * length, and the message queue), with one method per operation. Requests
 * made of the radio driver are appended to `driverLog`.
 */
module Radio {
  import opened Wrappers
  import opened Bytes
  import opened Numbers
  import opened Contest
  import opened States
  import opened MsgQueue
  import opened Classifier
  import opened Commands

  /** Bitwise `&` of two non-negative integers, bit by bit from the lowest. */
  function BitAnd(x: nat, y: nat): (r: nat)
    ensures r <= x && r <= y
  {
    if x == 0 || y == 0 then 0 else 2 * BitAnd(x / 2, y / 2) + (if x % 2 == 1 && y % 2 == 1 then 1 else 0)
  }

  /** A mask `2m + 1` keeps the lowest bit and masks the remaining bits with `m`. */
  lemma BitAndOddMask(x: nat, m: nat)
    ensures BitAnd(x, 2 * m + 1) == 2 * BitAnd(x / 2, m) + x % 2
  {
    assert (2 * m + 1) / 2 == m && (2 * m + 1) % 2 == 1;
    if x == 0 {
      assert BitAnd(x / 2, m) == 0;
    }
  }

  /** `x & 0xF` keeps the low four bits: the value modulo 16. */
  lemma BitAndLow4(x: nat)
    ensures BitAnd(x, 0xF) == x % 16
  {
    BitAndOddMask(x, 7);
    BitAndOddMask(x / 2, 3);
    BitAndOddMask(x / 4, 1);
    BitAndOddMask(x / 8, 0);
    assert BitAnd(x / 16, 0) == 0;
    assert x / 2 / 2 == x / 4 && x / 4 / 2 == x / 8 && x / 8 / 2 == x / 16;
  }

  /** `x & 0xF`: the low four bits. */
  function Mask4(x: Byte): (r: Byte)
    ensures r == x % 16 && r < 16
  {
    BitAndLow4(x);
    BitAnd(x, 0xF)
  }

  /**
   * The packet the send operations load: `strcpy` of the string into a buffer
   * of `cap` bytes, and the length byte `(byte)(strlen + 1)`.
   */
  function LoadedFrame(content: seq<Byte>, cap: nat): (r: seq<Byte>)
    requires 1 <= cap
    ensures |r| <= cap && |r| < 256
  {
    var t := Truncate(CStr(content), cap - 1);
    (t + [NUL])[..(|t| + 1) % 256]
  }

  /** How a send operation ends: the radio is off, its busy loop did not reach Ready, or the frame went out. */
  datatype SendOutcome = RadioOff | Spinning | Sent

  /** The outcome, new status, driver requests and loaded frame of a send. */
  datatype SendResult = SendResult(outcome: SendOutcome, status: AppStatus, calls: seq<DriverCall>, frame: seq<Byte>)

  /**
   * `RADIO_SendStringRaw` of `content` from machine state `s` with the frame
   * `oldFrame` still loaded: nothing when the radio is off; otherwise the busy
   * loop runs on `drain` until Ready, then the new frame is loaded and one
   * TransmitData step runs with `last`. When `drain` runs out before Ready the
   * source would go on spinning; the model stops there with `Spinning`.
   */
  function SendSpec(on: bool, s: AppStatus, contest: bool, drain: seq<DriverResult>, last: DriverResult,
                    oldFrame: seq<Byte>, content: seq<Byte>, cap: nat): SendResult
    requires 1 <= cap
  {
    if !on then SendResult(RadioOff, s, [], oldFrame)
    else
      var s1 := Run(s, contest, drain);
      var calls := RunCalls(s, contest, drain, oldFrame);
      if s1 != ReadyForTxRx then SendResult(Spinning, s1, calls, oldFrame)
      else
        var frame := LoadedFrame(content, cap);
        SendResult(Sent, Step(TransmitData, contest, last), calls + StepCalls(TransmitData, contest, last, frame), frame)
  }

  /** What `RADIO_HandleMessage` does with a dequeued slot. */
  datatype Action =
    | ShowSniff              // prints the sniffed packet
    | Respond(answer: seq<Byte>) // sends the answer to a contest question
    | NoAnswer               // a question slot that does not parse as a question
    | ReportWinner           // prints "FOUND A WINNER"
    | NoWinner
    | Ignore

  /** The dispatch of `RADIO_HandleMessage` on the slot kind, given the sniff flag and the cached expected answer. */
  function Dispatch(slot: seq<Byte>, sniffing: bool, expected: seq<Byte>): Action
    requires |slot| >= 2
  {
    var kind, msg := slot[0], slot[2..];
    if sniffing && kind == MSG_SNIFF then ShowSniff
    else if kind == MSG_CONTEST_QUESTION then
      match AnswerFor(msg)
      case Some(answer) => Respond(answer)
      case None => NoAnswer
    else if kind == MSG_CONTEST_ANSWER then (if IsWinner(msg, expected) then ReportWinner else NoWinner)
    else Ignore
  }

  /** `ERR_OK` / `ERR_FAILED`. */
  datatype ErrCode = ErrOk | ErrFailed

  /** The string a shell command transmits, if any. */
  function CommandSends(c: Command): Option<seq<Byte>> {
    match c
    case Send(text) => Some(PREFIX + CStr(text))
    case Challenge(Some(e)) => Some(ChallengeString(16, e.a, e.b, e.op))
    case _ => None
  }

  /** A channel or power command whose argument is missing or out of range. */
  predicate Refused(c: Command) {
    (c.SetChannel? && c.channel.None?) || (c.SetPower? && c.power.None?)
  }

  /** The driver requests of a shell command that changes a radio setting. */
  function SettingCalls(c: Command): seq<DriverCall> {
    match c
    case SetChannel(Some(v)) => [SetChannelRequest(v % 16)]
    case SetPower(Some(v)) => [PowerAdjust(v % 16)]
    case _ => []
  }

  /** The radio settings a shell command may change. */
  datatype Settings = Settings(on: bool, sniffing: bool, contest: bool, contestNo: Byte,
                               channel: Byte, power: Byte, expected: seq<Byte>)

  /**
   * The settings after a shell command: each command changes at most the one
   * setting it names; a challenge caches the first 15 bytes of its answer.
   */
  function Apply(c: Command, s: Settings): Settings {
    match c
    case TurnOn => s.(on := true)
    case TurnOff => s.(on := false)
    case SniffOn => s.(sniffing := true)
    case SniffOff => s.(sniffing := false)
    case ContestOn => s.(contest := true)
    case ContestOff => s.(contest := false)
    case ContestNumber(no) => s.(contestNo := no)
    case Challenge(Some(e)) => s.(expected := CalcResultString(16, e.a, e.b, e.op))
    case SetChannel(Some(v)) => s.(channel := v % 16)
    case SetPower(Some(v)) => s.(power := v % 16)
    case _ => s
  }

  class Transceiver {
    var status: AppStatus
    var isOn: bool
    var isSniffing: bool
    var isContest: bool
    var contestNo: Byte
    /** The C string held in the 16-byte cache of the expected contest answer. */
    var expected: seq<Byte>
    var channel: Byte
    var outputPower: Byte
    /** The transmit data buffer (`SMAC1_RADIO_BUF_SIZE` bytes) and the length byte of its packet. */
    const txBuf: array<Byte>
    var txLen: nat
    var queue: seq<seq<Byte>>
    var driverLog: seq<DriverCall>

    predicate Valid()
      reads this
    {
      7 <= txBuf.Length <= 256 && txLen <= txBuf.Length
      && channel < 16 && outputPower < 16
      && |queue| <= QUEUE_NOF_ITEMS
      && (forall i | 0 <= i < |queue| :: 2 <= |queue[i]| <= QUEUE_ITEM_SIZE)
      && |expected| < 16
    }

    /** The packet the transmit structure describes. */
    function TxFrame(): seq<Byte>
      reads this, txBuf
      requires Valid()
    {
      txBuf[..txLen]
    }

    /** The current settings. */
    function Current(): Settings
      reads this
    {
      Settings(isOn, isSniffing, isContest, contestNo, channel, outputPower, expected)
    }

    /** The static initial values followed by `RADIO_Init`; `bufSize` is `SMAC1_RADIO_BUF_SIZE`. */
    constructor (bufSize: nat)
      requires 7 <= bufSize <= 256
      ensures Valid() && fresh(txBuf) && txBuf.Length == bufSize
      ensures status == Initial && isOn && !isSniffing && !isContest && contestNo == 0 && expected == []
      ensures channel == 5 && outputPower == 15 && TxFrame() == [] && queue == []
      ensures driverLog == [SetClockRate(0), SetChannelRequest(5), PowerAdjust(15)]
    {
      status := Initial;
      channel := 5;
      outputPower := 15;
      isOn := true;
      isSniffing := false;
      isContest := false;
      contestNo := 0;
      expected := [];
      txBuf := new Byte[bufSize](_ => 0);
      txLen := 0;
      queue := [];
      driverLog := [];
      new;
      Init();
    }

    /** `RADIO_Init`: clock rate, channel and output power, empty packet, initial state, new queue. */
    method Init()
      requires Valid()
      modifies this`channel, this`outputPower, this`txLen, this`status, this`queue, this`driverLog
      ensures Valid()
      ensures channel == Mask4(old(channel)) && outputPower == 15 && txLen == 0 && status == Initial && queue == []
      ensures driverLog == old(driverLog) + [SetClockRate(0), SetChannelRequest(Mask4(old(channel))), PowerAdjust(15)]
    {
      driverLog := driverLog + [SetClockRate(0)];
      SetChannel(channel);
      SetOutputPower(15);
      txLen := 0;
      status := Initial;
      queue := [];
    }

    /** `RADIO_HandleState`: one step of the state machine. */
    method HandleState(r: DriverResult)
      requires Valid()
      modifies this`status, this`driverLog
      ensures Valid()
      ensures status == Step(old(status), isContest, r)
      ensures driverLog == old(driverLog) + StepCalls(old(status), isContest, r, TxFrame())
    {
      match status {
        case Initial =>
          status := ReceiverAlwaysOn;
        case ReceiverAlwaysOn =>
          status := ReadyForTxRx;
          driverLog := driverLog + [RxEnable(0)];
        case ReadyForTxRx =>
        case TransmitData =>
          driverLog := driverLog + [RxDisable];
          if r.rxDisableOk {
            driverLog := driverLog + [DataRequest(txBuf[..txLen])];
            if r.txOk {
              status := if isContest then ReceiverAlwaysOn else WaitingForAck;
              driverLog := driverLog + [RxEnable(TIMEOUT_COUNT)];
            } else {
              status := ReceiverAlwaysOn;
            }
          }
        case TransmitAck =>
          driverLog := driverLog + [DataRequest(ACK_FRAME)];
          status := ReceiverAlwaysOn;
        case Reset =>
          driverLog := driverLog + [RadioInit];
          status := Initial;
        case WaitingForAck =>
      }
    }

    /** `RADIO_AppHandleEvent`. */
    method HandleEvent(e: Event)
      modifies this`status
      ensures status == EventTarget(e)
    {
      match e {
        case RadioReset => status := Reset;
        case RadioTimeout => status := ReceiverAlwaysOn;
        case RadioAck => status := ReceiverAlwaysOn;
        case RadioOverflow => status := ReceiverAlwaysOn;
        case RadioData => status := TransmitAck;
        case RadioUnknown => status := ReceiverAlwaysOn;
      }
    }

    /** `RADIO_SetChannel`: keep the low four bits and pass them to the driver. */
    method SetChannel(ch: Byte)
      requires Valid()
      modifies this`channel, this`driverLog
      ensures Valid()
      ensures channel == ch % 16
      ensures driverLog == old(driverLog) + [SetChannelRequest(channel)]
    {
      channel := Mask4(ch);
      driverLog := driverLog + [SetChannelRequest(channel)];
    }

    /** `RADIO_SetOutputPower`: keep the low four bits and pass them to the driver. */
    method SetOutputPower(power: Byte)
      requires Valid()
      modifies this`outputPower, this`driverLog
      ensures Valid()
      ensures outputPower == power % 16
      ensures driverLog == old(driverLog) + [PowerAdjust(outputPower)]
    {
      outputPower := Mask4(power);
      driverLog := driverLog + [PowerAdjust(outputPower)];
    }

    /** The copy of a string into the transmit buffer and the setting of the packet length. */
    method LoadTxBuffer(content: seq<Byte>)
      requires Valid()
      modifies txBuf, this`txLen
      ensures Valid()
      ensures TxFrame() == LoadedFrame(content, txBuf.Length)
    {
      var t := Truncate(CStr(content), txBuf.Length - 1);
      var i := 0;
      while i < |t|
        invariant 0 <= i <= |t|
        invariant txBuf[..i] == t[..i]
      {
        txBuf[i] := t[i];
        i := i + 1;
      }
      txBuf[|t|] := NUL;
      assert txBuf[..|t| + 1] == t + [NUL];
      txLen := (|t| + 1) % 256;
    }

    /** The busy loop of the send operations: step the machine until it is Ready. */
    method AwaitReady(drain: seq<DriverResult>)
      requires Valid()
      modifies this`status, this`driverLog
      ensures Valid()
      ensures status == Run(old(status), isContest, drain)
      ensures driverLog == old(driverLog) + RunCalls(old(status), isContest, drain, TxFrame())
    {
      ghost var frame := TxFrame();
      var i := 0;
      while status != ReadyForTxRx && i < |drain|
        invariant Valid() && 0 <= i <= |drain| && TxFrame() == frame
        invariant Run(status, isContest, drain[i..]) == Run(old(status), isContest, drain)
        invariant driverLog + RunCalls(status, isContest, drain[i..], frame)
               == old(driverLog) + RunCalls(old(status), isContest, drain, frame)
      {
        ghost var rest := drain[i..];
        assert rest[0] == drain[i] && rest[1..] == drain[i + 1..];
        RunUnfold(driverLog, status, isContest, rest, frame);
        HandleState(drain[i]);
        i := i + 1;
      }
    }

    /**
     * The body shared by `RADIO_SendString` and `RADIO_SendStringRaw`, after
     * the string to load is known: busy loop, load, TransmitData step.
     */
    method Transmit(content: seq<Byte>, drain: seq<DriverResult>, last: DriverResult) returns (outcome: SendOutcome)
      requires Valid()
      modifies this`status, this`driverLog, this`txLen, txBuf
      ensures Valid()
      ensures var r := SendSpec(old(isOn), old(status), isContest, drain, last, old(TxFrame()), content, txBuf.Length);
        outcome == r.outcome && status == r.status && driverLog == old(driverLog) + r.calls && TxFrame() == r.frame
    {
      if !isOn {
        return RadioOff;
      }
      AwaitReady(drain);
      if status != ReadyForTxRx {
        return Spinning;
      }
      LoadAndSend(content, last);
      outcome := Sent;
    }

    /** Once the transceiver is ready: load the buffer and take the TransmitData step. */
    method LoadAndSend(content: seq<Byte>, last: DriverResult)
      requires Valid() && status == ReadyForTxRx
      modifies this`status, this`driverLog, this`txLen, txBuf
      ensures Valid()
      ensures TxFrame() == LoadedFrame(content, txBuf.Length)
      ensures status == Step(TransmitData, isContest, last)
      ensures driverLog == old(driverLog) + StepCalls(TransmitData, isContest, last, TxFrame())
    {
      LoadTxBuffer(content);
      status := TransmitData;
      HandleState(last);
    }

    /** `RADIO_SendStringRaw`: send `data` as it is. */
    method SendStringRaw(data: seq<Byte>, drain: seq<DriverResult>, last: DriverResult) returns (outcome: SendOutcome)
      requires Valid()
      modifies this`status, this`driverLog, this`txLen, txBuf
      ensures Valid()
      ensures var r := SendSpec(old(isOn), old(status), isContest, drain, last, old(TxFrame()), data, txBuf.Length);
        outcome == r.outcome && status == r.status && driverLog == old(driverLog) + r.calls && TxFrame() == r.frame
    {
      outcome := Transmit(data, drain, last);
    }

    /** `RADIO_SendString`: send the frame prefix followed by `data`. */
    method SendString(data: seq<Byte>, drain: seq<DriverResult>, last: DriverResult) returns (outcome: SendOutcome)
      requires Valid()
      modifies this`status, this`driverLog, this`txLen, txBuf
      ensures Valid()
      ensures var r := SendSpec(old(isOn), old(status), isContest, drain, last, old(TxFrame()), PREFIX + CStr(data), txBuf.Length);
        outcome == r.outcome && status == r.status && driverLog == old(driverLog) + r.calls && TxFrame() == r.frame
    {
      outcome := Transmit(PREFIX + CStr(data), drain, last);
    }

    /** `QueueMessage`: encode a slot and append it, unless the queue is full. */
    method QueueMessage(kind: Byte, msg: Payload)
      requires Valid()
      modifies this`queue
      ensures Valid()
      ensures queue == Enqueue(old(queue), EncodeSlot(kind, msg))
    {
      var slot := BuildSlot(kind, msg);
      if |queue| < QUEUE_NOF_ITEMS {
        queue := queue + [slot];
      }
    }

    /** The part of `RADIO_DataIndicationPacket` that decides on a good packet. */
    method GoodPacket(data: Payload) returns (ev: Event)
      requires Valid()
      modifies this`queue
      ensures Valid()
      ensures ev == ClassifyGood(status, isContest, data).0
      ensures queue == EnqueueAll(old(queue), ClassifyGood(status, isContest, data).1)
    {
      var parsed := ParseContest(data);
      if status == WaitingForAck && IsAckText(data) {
        ev := RadioAck;
      } else if isContest && parsed.Some? {
        var kind := if parsed.value.isQuestion then MSG_CONTEST_QUESTION else MSG_CONTEST_ANSWER;
        QueueMessage(kind, data);
        ev := RadioData;
        assert queue == EnqueueAll(old(queue), [EncodeSlot(kind, data)]);
      } else if HasPrefix(data) {
        ev := RadioData;
      } else {
        ev := RadioUnknown;
      }
    }

    /** `RADIO_DataIndicationPacket`: classify a packet, queue its copies, and return the event it raises. */
    method DataIndication(pkt: RxPacket) returns (ev: Option<Event>)
      requires Valid()
      modifies this`queue
      ensures Valid()
      ensures var k := Classify(status, isSniffing, isContest, pkt);
        ev == k.event && queue == EnqueueAll(old(queue), k.slots)
    {
      if pkt.status == RxTimeout {
        ev := Some(RadioTimeout);
      } else if pkt.status == RxSuccess {
        ghost var sniff: seq<seq<Byte>> := [];
        if isSniffing {
          QueueMessage(MSG_SNIFF, pkt.data);
          sniff := [EncodeSlot(MSG_SNIFF, pkt.data)];
        }
        var e := GoodPacket(pkt.data);
        ev := Some(e);
        EnqueueAllAppend(old(queue), sniff, ClassifyGood(status, isContest, pkt.data).1);
      } else if pkt.status == RxOverflow {
        ev := Some(RadioOverflow);
      } else {
        ev := None;
      }
    }

    /** `RespondWithAnswer`: send the answer to a contest question, if `msg` is one. */
    method RespondWithAnswer(msg: seq<Byte>, drain: seq<DriverResult>, last: DriverResult) returns (outcome: Option<SendOutcome>)
      requires Valid()
      modifies this`status, this`driverLog, this`txLen, txBuf
      ensures Valid()
      ensures match AnswerFor(msg)
        case Some(answer) =>
          var r := SendSpec(old(isOn), old(status), isContest, drain, last, old(TxFrame()), answer, txBuf.Length);
          outcome == Some(r.outcome) && status == r.status && driverLog == old(driverLog) + r.calls && TxFrame() == r.frame
        case None =>
          outcome == None && status == old(status) && driverLog == old(driverLog) && TxFrame() == old(TxFrame())
    {
      match AnswerFor(msg) {
        case Some(answer) =>
          var o := SendStringRaw(answer, drain, last);
          outcome := Some(o);
        case None =>
          outcome := None;
      }
    }

    /** `RADIO_HandleMessage`: act on one dequeued slot. */
    method HandleMessage(slot: seq<Byte>, drain: seq<DriverResult>, last: DriverResult) returns (action: Action, outcome: Option<SendOutcome>)
      requires Valid() && |slot| >= 2
      modifies this`status, this`driverLog, this`txLen, txBuf
      ensures Valid()
      ensures action == Dispatch(slot, isSniffing, expected)
      ensures match action
        case Respond(answer) =>
          var r := SendSpec(old(isOn), old(status), isContest, drain, last, old(TxFrame()), answer, txBuf.Length);
          outcome == Some(r.outcome) && status == r.status && driverLog == old(driverLog) + r.calls && TxFrame() == r.frame
        case _ =>
          outcome == None && status == old(status) && driverLog == old(driverLog) && TxFrame() == old(TxFrame())
    {
      action := Dispatch(slot, isSniffing, expected);
      outcome := None;
      if isSniffing && slot[0] == MSG_SNIFF {
        // the packet is printed
      } else if slot[0] == MSG_CONTEST_QUESTION {
        outcome := RespondWithAnswer(slot[2..], drain, last);
      } else if slot[0] == MSG_CONTEST_ANSWER {
        // the win check only prints
      }
    }

    /** `RADIO_Handle`: one state machine step while the radio is on, then at most one queued message. */
    method Handle(r: DriverResult, drain: seq<DriverResult>, last: DriverResult) returns (action: Option<Action>, outcome: Option<SendOutcome>)
      requires Valid()
      modifies this`status, this`driverLog, this`txLen, txBuf, this`queue
      ensures Valid()
      ensures var s1 := if old(isOn) then Step(old(status), isContest, r) else old(status);
        var log1 := old(driverLog) + (if old(isOn) then StepCalls(old(status), isContest, r, old(TxFrame())) else []);
        if old(queue) == [] then
          action == None && outcome == None && queue == old(queue)
          && status == s1 && driverLog == log1 && TxFrame() == old(TxFrame())
        else
          queue == old(queue)[1..] && action == Some(Dispatch(old(queue)[0], isSniffing, expected))
          && match action.value
             case Respond(answer) =>
               var res := SendSpec(isOn, s1, isContest, drain, last, old(TxFrame()), answer, txBuf.Length);
               outcome == Some(res.outcome) && status == res.status && driverLog == log1 + res.calls && TxFrame() == res.frame
             case _ =>
               outcome == None && status == s1 && driverLog == log1 && TxFrame() == old(TxFrame())
    {
      if isOn {
        HandleState(r);
      }
      action, outcome := None, None;
      if queue != [] {
        var slot := queue[0];
        queue := queue[1..];
        var a;
        a, outcome := HandleMessage(slot, drain, last);
        action := Some(a);
      }
    }

    /** The branches of `RADIO_ParseCommand` that print, set a flag or set the contest number. */
    method SetFlag(c: Command) returns (handled: bool)
      requires Valid() && CommandSends(c).None? && !c.SetChannel? && !c.SetPower?
      modifies this`isOn, this`isSniffing, this`isContest, this`contestNo
      ensures Valid()
      ensures handled == (c != NotForRadio) && Current() == Apply(c, old(Current()))
    {
      handled := true;
      match c {
        case TurnOn => isOn := true;
        case TurnOff => isOn := false;
        case SniffOn => isSniffing := true;
        case SniffOff => isSniffing := false;
        case ContestOn => isContest := true;
        case ContestOff => isContest := false;
        case ContestNumber(no) => contestNo := no;
        case NotForRadio => handled := false;
        case _ =>
      }
    }

    /** The `radio channel` and `radio power` branches: range-checked argument, else `ERR_FAILED`. */
    method Adjust(c: Command) returns (handled: bool, res: ErrCode)
      requires Valid() && (c.SetChannel? || c.SetPower?)
      modifies this`channel, this`outputPower, this`driverLog
      ensures Valid()
      ensures handled == !Refused(c) && (res == ErrFailed <==> Refused(c))
      ensures Current() == Apply(c, old(Current())) && driverLog == old(driverLog) + SettingCalls(c)
    {
      handled, res := false, ErrOk;
      var arg := if c.SetChannel? then c.channel else c.power;
      if arg.None? {
        res := ErrFailed;
      } else if c.SetChannel? {
        SetChannel(arg.value);
        handled := true;
      } else {
        SetOutputPower(arg.value);
        handled := true;
      }
    }

    /** The `radio challenge` and `radio send` branches that transmit a string. */
    method SendCommand(c: Command, drain: seq<DriverResult>, last: DriverResult)
      requires Valid() && CommandSends(c).Some?
      modifies this`status, this`driverLog, this`txLen, txBuf, this`expected
      ensures Valid()
      ensures Current() == Apply(c, old(Current()))
      ensures var r := SendSpec(old(isOn), old(status), isContest, drain, last, old(TxFrame()), CommandSends(c).value, txBuf.Length);
        status == r.status && driverLog == old(driverLog) + r.calls && TxFrame() == r.frame
    {
      if c.Send? {
        var _ := SendString(c.text, drain, last);
      } else {
        var e := c.expr.value;
        var _ := SendStringRaw(ChallengeString(16, e.a, e.b, e.op), drain, last);
        expected := CalcResultString(16, e.a, e.b, e.op);
        ExpectedAnswerAlwaysCut(e.a, e.b, e.op);
      }
    }

    /** The branches of `RADIO_ParseCommand` once the command line is decoded. */
    method Execute(c: Command, drain: seq<DriverResult>, last: DriverResult) returns (handled: bool, res: ErrCode)
      requires Valid()
      modifies this, txBuf
      ensures Valid()
      ensures handled == (c != NotForRadio && !Refused(c)) && (res == ErrFailed <==> Refused(c))
      ensures Current() == Apply(c, old(Current())) && queue == old(queue)
      ensures match CommandSends(c)
        case Some(content) =>
          var r := SendSpec(old(isOn), old(status), old(isContest), drain, last, old(TxFrame()), content, txBuf.Length);
          status == r.status && driverLog == old(driverLog) + r.calls && TxFrame() == r.frame
        case None =>
          status == old(status) && driverLog == old(driverLog) + SettingCalls(c) && TxFrame() == old(TxFrame())
    {
      if CommandSends(c).Some? {
        SendCommand(c, drain, last);
        handled, res := true, ErrOk;
      } else if c.SetChannel? || c.SetPower? {
        handled, res := Adjust(c);
      } else {
        handled := SetFlag(c);
        res := ErrOk;
      }
    }

    /** `RADIO_ParseCommand`: decode a shell command line and act on it. */
    method ParseCommand(cmd: seq<Byte>, drain: seq<DriverResult>, last: DriverResult) returns (handled: bool, res: ErrCode)
      requires Valid()
      modifies this, txBuf
      ensures Valid()
      ensures var c := CommandOf(cmd);
        handled == (c != NotForRadio && !Refused(c)) && (res == ErrFailed <==> Refused(c))
      ensures Current() == Apply(CommandOf(cmd), old(Current())) && queue == old(queue)
      ensures match CommandSends(CommandOf(cmd))
        case Some(content) =>
          var r := SendSpec(old(isOn), old(status), old(isContest), drain, last, old(TxFrame()), content, txBuf.Length);
          status == r.status && driverLog == old(driverLog) + r.calls && TxFrame() == r.frame
        case None =>
          status == old(status) && driverLog == old(driverLog) + SettingCalls(CommandOf(cmd)) && TxFrame() == old(TxFrame())
    {
      handled, res := Execute(CommandOf(cmd), drain, last);
    }
  }

  // ---------------------------------------------------------------------
  // Properties of the shell commands

  /** A line not for the radio, a refused argument, help, status, a bad challenge or a send changes no setting. */
  lemma ApplyKeeps(c: Command, s: Settings)
    requires c == NotForRadio || Refused(c) || c == ShowHelp || c == ShowStatus || c.Send? || c == Challenge(None)
    ensures Apply(c, s) == s
  {
  }

  /** Giving the same command twice has the effect of giving it once. */
  lemma ApplyIdempotent(c: Command, s: Settings)
    ensures Apply(c, Apply(c, s)) == Apply(c, s)
  {
  }

  /** Commands keep the channel and the power in 0..15 and the cached answer shorter than its 16-byte buffer. */
  lemma ApplyKeepsRanges(c: Command, s: Settings)
    requires s.channel < 16 && s.power < 16 && |s.expected| < 16
    ensures Apply(c, s).channel < 16 && Apply(c, s).power < 16 && |Apply(c, s).expected| < 16
  {
    if c.Challenge? && c.expr.Some? {
      var e := c.expr.value;
      ExpectedAnswerAlwaysCut(e.a, e.b, e.op);
    }
  }

  // ---------------------------------------------------------------------
  // Properties of sending and of the contest exchange

  /**
   * The loaded frame is the C string of the content, cut to the buffer, with
   * its terminator; a NUL-free string that fits is sent whole.
   */
  lemma LoadedFrameIsCString(content: seq<Byte>, cap: nat)
    requires 1 <= cap
    ensures cap <= 255 || CStrLen(content) < 255 ==> LoadedFrame(content, cap) == Truncate(CStr(content), cap - 1) + [NUL]
    ensures NoNul(content) && |content| < Min(cap, 255) ==> LoadedFrame(content, cap) == content + [NUL]
  {
    if NoNul(content) {
      CStrCovers(content, |content|);
    }
  }

  /** The length byte wraps: in a 256-byte buffer a 255-character string goes out as an empty packet. */
  lemma LengthByteWraps(content: seq<Byte>)
    requires NoNul(content) && |content| == 255
    ensures LoadedFrame(content, 256) == []
  {
    CStrCovers(content, |content|);
  }

  /** While an acknowledge is awaited a send never gets past its busy loop, and the driver is not called. */
  lemma NoSendWhileWaiting(contest: bool, drain: seq<DriverResult>, last: DriverResult, oldFrame: seq<Byte>, content: seq<Byte>, cap: nat)
    requires 1 <= cap
    ensures SendSpec(true, WaitingForAck, contest, drain, last, oldFrame, content, cap)
         == SendResult(Spinning, WaitingForAck, [], oldFrame)
  {
    WaitingForAckIsStuck(contest, drain, oldFrame);
  }

  /** A send from state `s` goes out for some driver behaviour exactly when `s` is not WaitingForAck. */
  lemma SendPossibleIffNotWaiting(s: AppStatus, contest: bool, last: DriverResult, oldFrame: seq<Byte>, content: seq<Byte>, cap: nat)
    requires 1 <= cap
    ensures (exists drain :: SendSpec(true, s, contest, drain, last, oldFrame, content, cap).outcome == Sent)
        <==> s != WaitingForAck
  {
    DrainsIffNotWaiting(s, contest);
    if s == WaitingForAck {
      forall drain ensures SendSpec(true, s, contest, drain, last, oldFrame, content, cap).outcome != Sent {
        NoSendWhileWaiting(contest, drain, last, oldFrame, content, cap);
      }
    } else {
      var drain :| Run(s, contest, drain) == ReadyForTxRx;
      assert SendSpec(true, s, contest, drain, last, oldFrame, content, cap).outcome == Sent;
    }
  }

  /** A frame left pending in TransmitData goes to the driver before the new content is loaded. */
  lemma PendingFrameSentFirst(contest: bool, drain: seq<DriverResult>, last: DriverResult, oldFrame: seq<Byte>, content: seq<Byte>, cap: nat)
    requires 1 <= cap && drain != [] && drain[0].rxDisableOk
    ensures SendSpec(true, TransmitData, contest, drain, last, oldFrame, content, cap).calls[..2]
         == [RxDisable, DataRequest(oldFrame)]
  {
    var calls := RunCalls(TransmitData, contest, drain, oldFrame);
    PendingFrameGoesFirst(contest, drain, oldFrame);
    assert |calls| >= 2;
    if Run(TransmitData, contest, drain) == ReadyForTxRx {
      var frame := LoadedFrame(content, cap);
      assert (calls + StepCalls(TransmitData, contest, last, frame))[..2] == calls[..2];
    }
  }

  /**
   * `RADIO_SendString` puts the prefix, the text and the terminator on the
   * air, and a peer that is not awaiting an acknowledge takes it as data and
   * goes on to acknowledge it.
   */
  lemma SentStringIsData(text: seq<Byte>, cap: nat, app: AppStatus, sniffing: bool, contest: bool)
    requires NoNul(text) && |text| + 4 <= cap && |text| <= 251 && app != WaitingForAck
    ensures LoadedFrame(PREFIX + CStr(text), cap) == PREFIX + text + [NUL]
    ensures Classify(app, sniffing, contest, RxPacket(RxSuccess, PREFIX + text + [NUL])).event == Some(RadioData)
    ensures EventTarget(RadioData) == TransmitAck
  {
    SentStringLoaded(text, cap);
    SentStringClassified(text, app, sniffing, contest);
  }

  /** The frame `SendString` loads is the prefix, the text and the terminator. */
  lemma SentStringLoaded(text: seq<Byte>, cap: nat)
    requires NoNul(text) && |text| + 4 <= cap && |text| <= 251
    ensures LoadedFrame(PREFIX + CStr(text), cap) == PREFIX + text + [NUL]
  {
    assert CStr(text) == text by {
      CStrCovers(text, |text|);
      assert text[..|text|] == text;
    }
    assert NoNul(PREFIX + text) by {
      PrefixTexts();
      NoNulAppend(PREFIX, text);
    }
    LoadedFrameIsCString(PREFIX + text, cap);
  }

  /** A prefixed frame is data to a peer that is not awaiting an acknowledge. */
  lemma SentStringClassified(text: seq<Byte>, app: AppStatus, sniffing: bool, contest: bool)
    requires |text| <= 251 && app != WaitingForAck
    ensures Classify(app, sniffing, contest, RxPacket(RxSuccess, PREFIX + text + [NUL])).event == Some(RadioData)
  {
    PrefixTexts();
    var data := PREFIX + text + [NUL];
    assert data[..3] == PREFIX;
    PrefixedIsNotContest(data);
    StrNEqPrefix(data, PREFIX, |PREFIX|);
  }

  /** How an answer slot is dispatched: by the win check on the bytes the slot carries. */
  lemma AnswerSlotDispatch(msg: Payload, sniffing: bool, expected: seq<Byte>)
    ensures Dispatch(EncodeSlot(MSG_CONTEST_ANSWER, msg), sniffing, expected)
         == if IsWinner(msg[..Min(|msg|, SLOT_PAYLOAD)], expected) then ReportWinner else NoWinner
  {
    assert EncodeSlot(MSG_CONTEST_ANSWER, msg)[2..] == msg[..Min(|msg|, SLOT_PAYLOAD)];
  }

  /** A question slot is answered with the whole answer line, whatever else the slot carries. */
  lemma QuestionAnswered(a: Int8, b: Int8, op: Byte, rest: seq<Byte>, sniffing: bool, expected: seq<Byte>)
    requires IsOperator(op) && |ChallengeText(a, b, op) + rest| < 256
    ensures Dispatch(EncodeSlot(MSG_CONTEST_QUESTION, ChallengeText(a, b, op) + rest), sniffing, expected)
         == Respond(AnswerText(a, b, op))
  {
    var msg := ChallengeText(a, b, op) + rest;
    var k := Min(|msg|, SLOT_PAYLOAD);
    ChallengeNeverCut(a, b, op);
    var n := |ChallengeText(a, b, op)|;
    assert EncodeSlot(MSG_CONTEST_QUESTION, msg)[2..] == msg[..k] == ChallengeText(a, b, op) + rest[..k - n];
    ChallengeRoundTrip(a, b, op, rest[..k - n]);
    AnswerNeverCut(a, b, op);
  }

  /**
   * The win check on a slot, for any NUL-free expected text that fits the
   * slot: a winner is reported exactly when the frame does not start with it.
   */
  lemma SlotWinnerIff(msg: Payload, expected: seq<Byte>, sniffing: bool)
    requires NoNul(expected) && |expected| <= SLOT_PAYLOAD
    ensures Dispatch(EncodeSlot(MSG_CONTEST_ANSWER, msg), sniffing, expected) == ReportWinner
        <==> !(|expected| <= |msg| && msg[..|expected|] == expected)
  {
    var payload := msg[..Min(|msg|, SLOT_PAYLOAD)];
    WinnerIffMismatch(payload, expected);
    if |expected| <= |msg| {
      assert payload[..|expected|] == msg[..|expected|];
    }
    AnswerSlotDispatch(msg, sniffing, expected);
  }

  /** The inverted win check: a correct answer (up to the slot's 30 bytes) is never reported. */
  lemma CorrectAnswerNotReported(a: Int8, b: Int8, op: Byte, rest: seq<Byte>, sniffing: bool)
    requires |AnswerText(a, b, op) + rest| < 256
    ensures Dispatch(EncodeSlot(MSG_CONTEST_ANSWER, AnswerText(a, b, op) + rest), sniffing, CalcResultString(16, a, b, op))
         == NoWinner
  {
    var answer, expected := AnswerText(a, b, op), CalcResultString(16, a, b, op);
    AnswerTextLength(a, b, op);
    ExpectedAnswerAlwaysCut(a, b, op);
    StartSlotNotReported(answer, rest, expected, sniffing);
  }

  /** A slot whose frame starts with the whole expected text is not reported. */
  lemma StartSlotNotReported(start: seq<Byte>, rest: seq<Byte>, expected: seq<Byte>, sniffing: bool)
    requires |start + rest| < 256 && |expected| <= |start| && |expected| <= SLOT_PAYLOAD && start[..|expected|] == expected
    ensures Dispatch(EncodeSlot(MSG_CONTEST_ANSWER, start + rest), sniffing, expected) == NoWinner
  {
    var msg := start + rest;
    var payload := msg[..Min(|msg|, SLOT_PAYLOAD)];
    assert payload[..|expected|] == expected;
    PrefixNeverWins(payload, expected);
    AnswerSlotDispatch(msg, sniffing, expected);
  }

  /**
   * The inverted win check in full: an answer slot is reported as a winner
   * exactly when its first 15 bytes differ from the cached expected answer.
   */
  lemma WinnerIffWrongAnswer(msg: Payload, a: Int8, b: Int8, op: Byte, sniffing: bool)
    requires IsOperator(op)
    ensures Dispatch(EncodeSlot(MSG_CONTEST_ANSWER, msg), sniffing, CalcResultString(16, a, b, op)) == ReportWinner
        <==> !(15 <= |msg| && msg[..15] == AnswerText(a, b, op)[..15])
  {
    var expected := CalcResultString(16, a, b, op);
    ExpectedAnswerAlwaysCut(a, b, op);
    ContestTextsHaveNoNul(a, b, op);
    assert NoNul(expected);
    SlotWinnerIff(msg, expected, sniffing);
  }

  /** The challenge the `radio challenge` command sends is the whole question line with its terminator. */
  lemma QuestionFrame(a: Int8, b: Int8, op: Byte, cap: nat)
    requires IsOperator(op) && 16 <= cap
    ensures LoadedFrame(ChallengeString(16, a, b, op), cap) == ChallengeText(a, b, op) + [NUL]
  {
    ContestTextsHaveNoNul(a, b, op);
    ChallengeNeverCut(a, b, op);
    LoadedFrameIsCString(ChallengeText(a, b, op), cap);
  }

  /** An answer goes out whole, with its terminator, from a buffer of at least 33 bytes. */
  lemma AnswerFrame(a: Int8, b: Int8, op: Byte, cap: nat)
    requires IsOperator(op) && 33 <= cap
    ensures LoadedFrame(AnswerText(a, b, op), cap) == AnswerText(a, b, op) + [NUL]
  {
    ContestTextsHaveNoNul(a, b, op);
    AnswerTextLength(a, b, op);
    LoadedFrameIsCString(AnswerText(a, b, op), cap);
  }

  /** A node in contest mode queues a received question line as a question slot and raises a data event. */
  lemma QuestionQueued(app: AppStatus, sniffing: bool, a: Int8, b: Int8, op: Byte, rest: seq<Byte>)
    requires IsOperator(op) && |ChallengeText(a, b, op) + rest| < 256
    ensures var data := ChallengeText(a, b, op) + rest;
      var r := Classify(app, sniffing, true, RxPacket(RxSuccess, data));
      r.event == Some(RadioData) && r.slots != [] && r.slots[|r.slots| - 1] == EncodeSlot(MSG_CONTEST_QUESTION, data)
  {
    ChallengeRoundTrip(a, b, op, rest);
    ContestFrameQueued(app, sniffing, ChallengeText(a, b, op) + rest, MSG_CONTEST_QUESTION);
  }

  /** A node in contest mode queues a received answer line (one without a division by zero) as an answer slot. */
  lemma AnswerQueued(app: AppStatus, sniffing: bool, a: Int8, b: Int8, op: Byte, rest: seq<Byte>)
    requires IsOperator(op) && !(op == SLASH && b == 0) && |AnswerText(a, b, op) + rest| < 256
    ensures var data := AnswerText(a, b, op) + rest;
      var r := Classify(app, sniffing, true, RxPacket(RxSuccess, data));
      r.event == Some(RadioData) && r.slots != [] && r.slots[|r.slots| - 1] == EncodeSlot(MSG_CONTEST_ANSWER, data)
  {
    AnswerRoundTrip(a, b, op, rest);
    ContestFrameQueued(app, sniffing, AnswerText(a, b, op) + rest, MSG_CONTEST_ANSWER);
  }

  /**
   * A whole contest round between two nodes in contest mode: the challenge
   * frame is queued by the peer as a question, the peer's reply loads the
   * whole answer line, the challenger queues that as an answer, and the win
   * check, as written, does not report it.
   */
  lemma ContestRound(a: Int8, b: Int8, op: Byte, cap: nat, peerApp: AppStatus, peerSniffing: bool,
                     peerExpected: seq<Byte>, app: AppStatus, sniffing: bool)
    requires IsOperator(op) && !(op == SLASH && b == 0) && 33 <= cap
    ensures var question := LoadedFrame(ChallengeString(16, a, b, op), cap);
      var atPeer := Classify(peerApp, peerSniffing, true, RxPacket(RxSuccess, question));
      atPeer.event == Some(RadioData) && atPeer.slots != []
      && atPeer.slots[|atPeer.slots| - 1] == EncodeSlot(MSG_CONTEST_QUESTION, question)
      && Dispatch(EncodeSlot(MSG_CONTEST_QUESTION, question), peerSniffing, peerExpected) == Respond(AnswerText(a, b, op))
    ensures var reply := LoadedFrame(AnswerText(a, b, op), cap);
      var back := Classify(app, sniffing, true, RxPacket(RxSuccess, reply));
      back.event == Some(RadioData) && back.slots != []
      && back.slots[|back.slots| - 1] == EncodeSlot(MSG_CONTEST_ANSWER, reply)
      && Dispatch(EncodeSlot(MSG_CONTEST_ANSWER, reply), sniffing, CalcResultString(16, a, b, op)) == NoWinner
  {
    QuestionFrame(a, b, op, cap);
    QuestionQueued(peerApp, peerSniffing, a, b, op, [NUL]);
    QuestionAnswered(a, b, op, [NUL], peerSniffing, peerExpected);
    AnswerFrame(a, b, op, cap);
    AnswerQueued(app, sniffing, a, b, op, [NUL]);
    CorrectAnswerNotReported(a, b, op, [NUL], sniffing);
  }
}
