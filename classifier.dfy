/**
 * The receive callback `RADIO_DataIndicationPacket`: it classifies a packet
 * handed over by the driver, raises at most one radio event and puts copies
 * of the packet into the message queue.
 */
module Classifier {
  import opened Wrappers
  import opened Bytes
  import opened Numbers
  import opened Contest
  import opened States
  import opened MsgQueue

  /** The status the driver reports with a packet; `RxOther` is any other code, such as the initial value. */
  datatype RxStatus = RxSuccess | RxTimeout | RxOverflow | RxOther

  datatype RxPacket = RxPacket(status: RxStatus, data: Payload)

  /** The event raised (if any) and the slots queued, in order. */
  datatype Classification = Classification(event: Option<Event>, slots: seq<seq<Byte>>)

  predicate StartsWith(s: seq<Byte>, lit: seq<Byte>) {
    |lit| <= |s| && s[..|lit|] == lit
  }

  /** `strncmp(data, "ESTack", 6) == 0`. */
  predicate IsAckText(data: seq<Byte>) {
    StrNEq(data, ACK_TEXT, |ACK_TEXT|)
  }

  /** `strncmp(data, "EST", 3) == 0`. */
  predicate HasPrefix(data: seq<Byte>) {
    StrNEq(data, PREFIX, |PREFIX|)
  }

  /** The decision for a good packet: the event, and the contest slot if any. */
  function ClassifyGood(app: AppStatus, contest: bool, data: Payload): (Event, seq<seq<Byte>>) {
    if app == WaitingForAck && IsAckText(data) then (RadioAck, [])
    else if contest && ParseContest(data).Some? then
      var kind := if ParseContest(data).value.isQuestion then MSG_CONTEST_QUESTION else MSG_CONTEST_ANSWER;
      (RadioData, [EncodeSlot(kind, data)])
    else if HasPrefix(data) then (RadioData, [])
    else (RadioUnknown, [])
  }

  /** `RADIO_DataIndicationPacket` in the machine state `app`. */
  function Classify(app: AppStatus, sniffing: bool, contest: bool, pkt: RxPacket): (r: Classification)
    ensures r.event.None? <==> pkt.status == RxOther
    ensures pkt.status != RxSuccess ==> r.slots == []
    ensures |r.slots| <= 2
  {
    match pkt.status
    case RxTimeout => Classification(Some(RadioTimeout), [])
    case RxOverflow => Classification(Some(RadioOverflow), [])
    case RxOther => Classification(None, [])
    case RxSuccess =>
      var sniff := if sniffing then [EncodeSlot(MSG_SNIFF, pkt.data)] else [];
      var (e, slots) := ClassifyGood(app, contest, pkt.data);
      Classification(Some(e), sniff + slots)
  }

  // ---------------------------------------------------------------------
  // Properties

  lemma PrefixTexts()
    ensures NoNul(ACK_TEXT) && NoNul(PREFIX)
    ensures ACK_TEXT[..3] == PREFIX
  {
  }

  /** Only the acknowledge text is an acknowledge, and only while one is awaited. */
  lemma AckIff(app: AppStatus, sniffing: bool, contest: bool, data: Payload)
    ensures Classify(app, sniffing, contest, RxPacket(RxSuccess, data)).event == Some(RadioAck)
        <==> app == WaitingForAck && StartsWith(data, ACK_TEXT)
  {
    PrefixTexts();
    StrNEqPrefix(data, ACK_TEXT, |ACK_TEXT|);
  }

  /** A contest frame starts with a space, a '-' or a digit, so never with the frame prefix. */
  lemma ContestFrameHasNoPrefix(data: seq<Byte>)
    requires ParseContest(data).Some?
    ensures !StartsWith(data, PREFIX) && !StartsWith(data, ACK_TEXT)
    ensures !HasPrefix(data) && !IsAckText(data)
  {
    assert Xatoi(data).Some?;
    XatoiStart(data);
    assert PREFIX[0] == ACK_TEXT[0] == 'E' as int;
    PrefixTexts();
    StrNEqPrefix(data, ACK_TEXT, |ACK_TEXT|);
    StrNEqPrefix(data, PREFIX, |PREFIX|);
  }

  /** A frame that starts with the frame prefix (an acknowledge, say) is not a contest frame. */
  lemma PrefixedIsNotContest(data: seq<Byte>)
    requires StartsWith(data, PREFIX)
    ensures ParseContest(data) == None
  {
    if ParseContest(data).Some? {
      ContestFrameHasNoPrefix(data);
    }
  }

  /**
   * A sniffed copy of every good packet is queued first; it changes neither
   * the event nor the slots that follow it.
   */
  lemma SniffIsIndependent(app: AppStatus, contest: bool, pkt: RxPacket)
    ensures var on, off := Classify(app, true, contest, pkt), Classify(app, false, contest, pkt);
      on.event == off.event
      && on.slots == (if pkt.status == RxSuccess then [EncodeSlot(MSG_SNIFF, pkt.data)] else []) + off.slots
  {
  }

  /**
   * A good packet is unknown exactly when it neither carries the frame
   * prefix nor (in contest mode) parses as a contest frame; an awaited
   * acknowledge always carries the prefix.
   */
  lemma UnknownIff(app: AppStatus, sniffing: bool, contest: bool, pkt: RxPacket)
    ensures Classify(app, sniffing, contest, pkt).event == Some(RadioUnknown)
        <==> pkt.status == RxSuccess && !StartsWith(pkt.data, PREFIX) && !(contest && ParseContest(pkt.data).Some?)
  {
    if pkt.status == RxSuccess {
      GoodUnknownIff(app, contest, pkt.data);
    }
  }

  /** The same for the decision on a good packet. */
  lemma GoodUnknownIff(app: AppStatus, contest: bool, data: Payload)
    ensures ClassifyGood(app, contest, data).0 == RadioUnknown
        <==> !StartsWith(data, PREFIX) && !(contest && ParseContest(data).Some?)
  {
    PrefixTexts();
    StrNEqPrefix(data, ACK_TEXT, |ACK_TEXT|);
    StrNEqPrefix(data, PREFIX, |PREFIX|);
    if StartsWith(data, ACK_TEXT) {
      assert data[..3] == data[..6][..3];
    }
  }

  /**
   * In contest mode a contest frame is queued as a question or an answer,
   * after the sniffed copy if any, and raises a data event.
   */
  lemma ContestFrameQueued(app: AppStatus, sniffing: bool, data: Payload, kind: Byte)
    requires ParseContest(data).Some?
    requires kind == if ParseContest(data).value.isQuestion then MSG_CONTEST_QUESTION else MSG_CONTEST_ANSWER
    ensures var r := Classify(app, sniffing, true, RxPacket(RxSuccess, data));
      r.event == Some(RadioData) && r.slots != [] && r.slots[|r.slots| - 1] == EncodeSlot(kind, data)
  {
    ContestFrameHasNoPrefix(data);
  }

  /** Outside contest mode a contest frame is an unknown packet. */
  lemma ContestFrameOutsideContest(app: AppStatus, sniffing: bool, data: Payload)
    requires ParseContest(data).Some?
    ensures var r := Classify(app, sniffing, false, RxPacket(RxSuccess, data));
      r.event == Some(RadioUnknown) && r.slots == (if sniffing then [EncodeSlot(MSG_SNIFF, data)] else [])
  {
    ContestFrameHasNoPrefix(data);
  }

  /**
   * Outside contest mode a challenge (which carries no frame prefix) is an
   * unknown packet and nothing but the sniffed copy is queued.
   */
  lemma ChallengeNeedsContestMode(app: AppStatus, sniffing: bool, a: Int8, b: Int8, op: Byte, rest: seq<Byte>)
    requires IsOperator(op) && |ChallengeText(a, b, op) + rest| < 256
    ensures var data := ChallengeText(a, b, op) + rest;
      var r := Classify(app, sniffing, false, RxPacket(RxSuccess, data));
      r.event == Some(RadioUnknown) && r.slots == (if sniffing then [EncodeSlot(MSG_SNIFF, data)] else [])
  {
    var data: Payload := ChallengeText(a, b, op) + rest;
    ChallengeRoundTrip(a, b, op, rest);
    ContestFrameOutsideContest(app, sniffing, data);
  }

  /**
   * A node that is not waiting for an acknowledge takes an acknowledge frame
   * for data and answers it with an acknowledge of its own.
   */
  lemma AckOutsideWaitIsData(app: AppStatus, sniffing: bool, contest: bool, data: Payload)
    requires app != WaitingForAck && StartsWith(data, ACK_TEXT)
    ensures var r := Classify(app, sniffing, contest, RxPacket(RxSuccess, data));
      r.event == Some(RadioData) && EventTarget(r.event.value) == TransmitAck
  {
    assert StartsWith(data, PREFIX) by {
      assert data[..3] == data[..6][..3];
    }
    PrefixedIsNotContest(data);
    PrefixTexts();
    StrNEqPrefix(data, PREFIX, |PREFIX|);
  }

  /** The frame a TransmitAck sends is taken as the acknowledge by a peer that awaits one. */
  lemma AckFrameAcknowledges(sniffing: bool, contest: bool)
    ensures Classify(WaitingForAck, sniffing, contest, RxPacket(RxSuccess, ACK_FRAME)).event == Some(RadioAck)
    ensures EventTarget(RadioAck) == ReceiverAlwaysOn
  {
    AckIff(WaitingForAck, sniffing, contest, ACK_FRAME);
    assert ACK_FRAME[..6] == ACK_TEXT;
  }

  /** The answer to a division by zero is not a contest frame, so in contest mode it is an unknown packet. */
  lemma ErrorAnswerIsUnknown(app: AppStatus, sniffing: bool, a: Int8, rest: seq<Byte>)
    requires |AnswerText(a, 0, SLASH) + rest| < 256
    ensures Classify(app, sniffing, true, RxPacket(RxSuccess, AnswerText(a, 0, SLASH) + rest)).event == Some(RadioUnknown)
  {
    var data: Payload := AnswerText(a, 0, SLASH) + rest;
    ErrorAnswerIsNotContest(a, rest);
    DecimalInt8Length(a);
    assert data[0] == DecimalString(a)[0];
    UnknownIff(app, sniffing, true, RxPacket(RxSuccess, data));
  }
}
