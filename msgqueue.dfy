/**
 * The message queue between the radio callback and the radio task. Each slot
 * is `[kind][size][payload...]` in `QUEUE_ITEM_SIZE` bytes; the queue holds
 * at most `QUEUE_NOF_ITEMS` slots, and a message that finds it full is dropped.
 */
module MsgQueue {
  import opened Bytes

  const QUEUE_NOF_ITEMS: nat := 8
  const QUEUE_ITEM_SIZE: nat := 32
  /** The payload bytes a slot can carry. */
  const SLOT_PAYLOAD: nat := QUEUE_ITEM_SIZE - 2

  /** The message kinds of a slot. */
  const MSG_SNIFF: Byte := 0
  const MSG_CONTEST_QUESTION: Byte := 1
  const MSG_CONTEST_ANSWER: Byte := 2
  const MSG_ACCEL: Byte := 3

  /** A received frame: its length travels in one byte. */
  type Payload = s: seq<Byte> | |s| < 256

  /**
   * The bytes `QueueMessage(kind, msg, size)` writes into its slot: kind, size
   * (the full size, even when the payload is cut), then the payload bytes that fit.
   */
  function EncodeSlot(kind: Byte, msg: Payload): seq<Byte> {
    [kind, |msg|] + msg[..Min(|msg|, SLOT_PAYLOAD)]
  }

  /** The kind, the announced size and the carried bytes of a slot. */
  datatype SlotView = SlotView(kind: Byte, size: Byte, data: seq<Byte>)

  function DecodeSlot(slot: seq<Byte>): SlotView
    requires |slot| >= 2
  {
    SlotView(slot[0], slot[1], slot[2..])
  }

  /**
   * The copy loop of `QueueMessage`: fills a 32-byte buffer and hands back
   * the bytes it wrote (the bytes after them are never initialised).
   */
  method BuildSlot(kind: Byte, msg: Payload) returns (slot: seq<Byte>)
    ensures slot == EncodeSlot(kind, msg)
    ensures 2 <= |slot| <= QUEUE_ITEM_SIZE
  {
    var buf := new Byte[QUEUE_ITEM_SIZE];
    buf[0] := kind;
    buf[1] := |msg|;
    var i := 2;
    var size := |msg|;
    while size > 0 && i < buf.Length
      invariant 2 <= i <= buf.Length
      invariant 0 <= size == |msg| - (i - 2)
      invariant buf[0] == kind && buf[1] == |msg|
      invariant buf[2..i] == msg[..i - 2]
    {
      buf[i] := msg[i - 2];
      i := i + 1;
      size := size - 1;
    }
    assert i - 2 == Min(|msg|, SLOT_PAYLOAD);
    slot := buf[..i];
    assert slot == [buf[0], buf[1]] + buf[2..i];
  }

  /** `xQueueSendToBackFromISR`: append when there is room, drop otherwise. */
  function Enqueue(q: seq<seq<Byte>>, slot: seq<Byte>): seq<seq<Byte>> {
    if |q| < QUEUE_NOF_ITEMS then q + [slot] else q
  }

  /** Enqueue several slots in order. */
  function EnqueueAll(q: seq<seq<Byte>>, slots: seq<seq<Byte>>): seq<seq<Byte>>
    decreases |slots|
  {
    if slots == [] then q else EnqueueAll(Enqueue(q, slots[0]), slots[1..])
  }

  // ---------------------------------------------------------------------
  // Properties

  /** The slot layout: the kind, the full size, and the first 30 payload bytes. */
  lemma EncodeSlotLayout(kind: Byte, msg: Payload)
    ensures |EncodeSlot(kind, msg)| == 2 + Min(|msg|, SLOT_PAYLOAD) <= QUEUE_ITEM_SIZE
    ensures DecodeSlot(EncodeSlot(kind, msg)) == SlotView(kind, |msg|, msg[..Min(|msg|, SLOT_PAYLOAD)])
  {
  }

  /** Round trip: a payload that fits comes back out of its slot unchanged, with its size. */
  lemma SlotRoundTrip(kind: Byte, msg: Payload)
    requires |msg| <= SLOT_PAYLOAD
    ensures var v := DecodeSlot(EncodeSlot(kind, msg)); v.kind == kind && v.size == |msg| && v.data == msg
  {
  }

  /**
   * A burst of messages into a queue that is not overfull keeps the oldest
   * ones in order and drops the rest: the queue ends up full or with all of them.
   */
  lemma {:induction false} EnqueueAllKeepsPrefix(q: seq<seq<Byte>>, slots: seq<seq<Byte>>)
    requires |q| <= QUEUE_NOF_ITEMS
    ensures EnqueueAll(q, slots) == q + slots[..Min(|slots|, QUEUE_NOF_ITEMS - |q|)]
    decreases |slots|
  {
    if slots != [] {
      var q' := Enqueue(q, slots[0]);
      EnqueueAllKeepsPrefix(q', slots[1..]);
      if |q| < QUEUE_NOF_ITEMS {
        var k := Min(|slots|, QUEUE_NOF_ITEMS - |q|);
        assert q' + slots[1..][..k - 1] == q + slots[..k];
      } else {
        assert slots[..0] == [];
      }
    }
  }

  /** Enqueueing two batches one after the other is enqueueing their concatenation. */
  lemma {:induction false} EnqueueAllAppend(q: seq<seq<Byte>>, a: seq<seq<Byte>>, b: seq<seq<Byte>>)
    ensures EnqueueAll(q, a + b) == EnqueueAll(EnqueueAll(q, a), b)
    decreases |a|
  {
    if a == [] {
      assert a + b == b;
    } else {
      assert (a + b)[1..] == a[1..] + b;
      EnqueueAllAppend(Enqueue(q, a[0]), a[1..], b);
    }
  }

  /** The queue never holds more than its capacity. */
  lemma EnqueueAllBounded(q: seq<seq<Byte>>, slots: seq<seq<Byte>>)
    requires |q| <= QUEUE_NOF_ITEMS
    ensures |EnqueueAll(q, slots)| == Min(|q| + |slots|, QUEUE_NOF_ITEMS)
  {
    EnqueueAllKeepsPrefix(q, slots);
  }

  /**
   * Drained one slot per poll, a queue filled from empty by more messages
   * than it holds gives back exactly the first eight, in order.
   */
  lemma OverflowKeepsFirst(slots: seq<seq<Byte>>)
    requires |slots| >= QUEUE_NOF_ITEMS
    ensures EnqueueAll([], slots) == slots[..QUEUE_NOF_ITEMS]
  {
    EnqueueAllKeepsPrefix([], slots);
  }
}
