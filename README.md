# Radio module of the MC13213 SRB SMAC example, in Dafny

This project models the radio application layer of the SRB board example
(`Examples/MC13213_SRB/SRB_SMAC/Common/Radio.c`), which sits on top of the
SMAC driver. The model covers these parts of that layer:

- **The application state machine.** `RADIO_HandleState` moves the status through
  Initial, ReceiverAlwaysOn, Ready, TransmitData, WaitingForAck, TransmitAck and
  Reset. `RADIO_AppHandleEvent` sets the status for the radio events.
- **The receive callback.** `RADIO_DataIndicationPacket` classifies a packet as
  timeout, acknowledge, contest question or answer, data, unknown or overflow. It
  queues a sniffed copy and any contest copy into the message queue. The queue has
  8 slots of 32 bytes, and each slot holds `[kind][size][payload]`.
- **The radio task.** `RADIO_Handle` makes one state step while the radio is on.
  It then takes one slot off the queue, and `RADIO_HandleMessage` acts on it.
- **The send operations.** `RADIO_SendString` sends "EST" followed by the text.
  `RADIO_SendStringRaw` sends the text as it is. Both spin on the state machine
  until it is Ready, load the transmit buffer, and enter TransmitData.
- **The shell commands** of `RADIO_ParseCommand`: on/off, sniffing, contest
  mode and number, challenge, channel, power and send.
- **The arithmetic contest.** `IsContestMessage` parses "a op b = ?" and
  "a op b = r". `CalcResultString` formats the answer line, which ends in
  " Joe TheBest!". `RespondWithAnswer` answers a question, and
  `RADIO_HandleMessage` runs the win check against a 16-byte cache of the
  expected answer. The parser is pinned down both ways: it accepts a line
  exactly when the line is spaces, a number, an operator, a number, '=' and then
  '?' or a number, with any spacing (`Contest.ParseContestIff`).

## Layout

One module per file:

- `Wrappers`: the `Option` type.
- `Bytes`: bytes and C strings, and the bounded string helpers the module calls
  (`strlen`, `strncmp`, bounded `strcpy`/`strcat`).
- `Numbers`: 8- and 32-bit wrap-around, `xatoi`, and the decimal formatting of
  `Num8sToStr`.
- `Contest`: the contest parser and the answer formatting.
- `States`: the state machine as pure step functions, with the busy loop of the
  send operations as `Run`/`RunCalls`.
- `MsgQueue`: the slot layout, the slot copy loop and the bounded FIFO.
- `Classifier`: the receive classification.
- `Commands`: the decoding of shell command lines.
- `Radio`: the module's state as the class `Transceiver`. Its fields are the
  status, the flags, the contest number, the expected-answer cache, channel and
  power, the transmit buffer (an `array`), the packet length, the queue, and a
  log of the requests made of the driver. Each operation is a method, proved
  against the step functions above. The file also holds the end-to-end
  properties of sending and of a contest round between two nodes.

Driver calls become entries in `driverLog`. Their outcomes (receiver switch-off
success, data request success) are inputs. The busy loop of the send operations
gets one input per iteration.

## Model

| member | source | states |
|---|---|---|
| `Bytes.CStrLen` | Examples/MC13213_SRB/SRB_SMAC/Common/Radio.c:545 | `strlen`: the count is within the buffer, the bytes before it are not NUL, and the byte at it is NUL |
| `Bytes.CStr` | Examples/MC13213_SRB/SRB_SMAC/Common/Radio.c:339-366 | the C string a buffer holds is a NUL-free prefix of it |
| `Bytes.Truncate` | Examples/MC13213_SRB/SRB_SMAC/Common/Radio.c:295-316 | assumed behaviour of the bounded copy (helper library not part of this model): the first `n` bytes, or all of a shorter string |
| `Bytes.BoundedCat` | Examples/MC13213_SRB/SRB_SMAC/Common/Radio.c:295-316 | assumed behaviour of `strcat`/`chcat`/`strcatNum8s(dst, size, …)`: the string and the appended text, cut to `size - 1` bytes so the terminator fits |
| `Bytes.StrNEq` | Examples/MC13213_SRB/SRB_SMAC/Common/Radio.c:229-243 | assumed behaviour of `strncmp(a, b, n) == 0`: the first `n` bytes agree, stopping early at a common NUL; reads past the end see NUL |
| `Bytes.CStrCovers` | Examples/MC13213_SRB/SRB_SMAC/Common/Radio.c:339-366 | a NUL-free run at the start of a buffer belongs to its C string |
| `Bytes.NoNulAppend` | Examples/MC13213_SRB/SRB_SMAC/Common/Radio.c:346-347 | a concatenation is NUL-free exactly when both parts are |
| `Bytes.TruncateAppend` | Examples/MC13213_SRB/SRB_SMAC/Common/Radio.c:295-316 | successive bounded appends into one buffer keep the same bytes as one bounded append of the whole |
| `Bytes.TruncateIsPrefix` | Examples/MC13213_SRB/SRB_SMAC/Common/Radio.c:295-316 | a bounded copy keeps a prefix of length min(length, bound) |
| `Bytes.StrNEqCommonPrefix` | Examples/MC13213_SRB/SRB_SMAC/Common/Radio.c:545 | two strings that agree on their first n bytes compare equal under `strncmp(_, _, n)` |
| `Bytes.StrNEqPrefix` | Examples/MC13213_SRB/SRB_SMAC/Common/Radio.c:229-243 | against a NUL-free literal, `strncmp(a, lit, n) == 0` holds exactly when `a` starts with the literal's first n bytes |
| `Numbers.ToInt8` | Examples/MC13213_SRB/SRB_SMAC/Common/Radio.c:169-210 | the `(int8_t)` conversion lands in -128..127 and differs from its input by a multiple of 256 |
| `Numbers.ToUint8` | Examples/MC13213_SRB/SRB_SMAC/Common/Radio.c:454 | the `(uint8_t)` conversion differs from its input by a multiple of 256 and leaves a value in 0..255 alone |
| `Numbers.ToInt32` | Examples/MC13213_SRB/SRB_SMAC/Common/Radio.c:476-480 | the value `xatoi` hands back as a `long` lands in the 32-bit range and differs from the number read by a multiple of 2^32 |
| `Numbers.ToInt8Periodic` | Examples/MC13213_SRB/SRB_SMAC/Common/Radio.c:169-210 | `(int8_t)` depends only on its argument modulo 256 |
| `Numbers.Int8OfInt32` | Examples/MC13213_SRB/SRB_SMAC/Common/Radio.c:176-192 | narrowing to `long` and then to `int8_t` gives the same value as narrowing straight to `int8_t` |
| `Numbers.NatDigits` | Examples/MC13213_SRB/SRB_SMAC/Common/Radio.c:296-300 | the decimal digits of a number are non-empty, are all digits, and have that number as their value |
| `Numbers.SkipSpaces` | Examples/MC13213_SRB/SRB_SMAC/Common/Radio.c:182-200 | skipping spaces never lengthens the input and stops at a byte that is not a space |
| `Numbers.SkipSpacesSuffix` | Examples/MC13213_SRB/SRB_SMAC/Common/Radio.c:182-200 | what is left after skipping spaces is a suffix of the input |
| `Numbers.DigitRun` | Examples/MC13213_SRB/SRB_SMAC/Common/Radio.c:176 | the digit run at the start of the input is all digits and maximal |
| `Numbers.Xatoi` | Examples/MC13213_SRB/SRB_SMAC/Common/Radio.c:176 | assumed behaviour of `xatoi` (helper library not part of this model): skip spaces, then a number; `None` (not `ERR_OK`) when no digit follows the spaces and the optional '-' |
| `Numbers.ScanNumber` | Examples/MC13213_SRB/SRB_SMAC/Common/Radio.c:176 | assumed behaviour after the spaces: an optional '-', the maximal run of digits, the signed value narrowed to a 32-bit `long`, and the bytes after the digits |
| `Numbers.XatoiNeedsDigit` | Examples/MC13213_SRB/SRB_SMAC/Common/Radio.c:176-180 | a successful scan consumes input and starts with a digit, after optional spaces and a '-' |
| `Numbers.ScanNumberStart` | Examples/MC13213_SRB/SRB_SMAC/Common/Radio.c:176-180 | after the spaces, a successful scan starts with '-' or a digit |
| `Numbers.XatoiStart` | Examples/MC13213_SRB/SRB_SMAC/Common/Radio.c:176-180 | a successful scan starts with a space, '-' or a digit |
| `Numbers.DecimalInt8Length` | Examples/MC13213_SRB/SRB_SMAC/Common/Radio.c:296-300 | an 8-bit value is written as 1 to 4 NUL-free characters, the first a digit or '-' |
| `Numbers.XatoiDecimal` | Examples/MC13213_SRB/SRB_SMAC/Common/Radio.c:176-192 | round trip: scanning a written number after any spaces gives it back (as a `long`) and stops right after it |
| `Numbers.ScanMagnitude` | Examples/MC13213_SRB/SRB_SMAC/Common/Radio.c:176-192 | a successful scan of digits gives a non-negative value and consumes at least one byte |
| `Numbers.MagnitudeOver` | Examples/MC13213_SRB/SRB_SMAC/Common/Radio.c:176-192 | the digits of a number followed by a non-digit scan to the digits' value, leaving exactly the bytes after them |
| `Numbers.SignedScan` | Examples/MC13213_SRB/SRB_SMAC/Common/Radio.c:176-192 | a leading '-' negates the magnitude read after it, and the result is narrowed to a `long` |
| `Numbers.ScanNumberDecimal` | Examples/MC13213_SRB/SRB_SMAC/Common/Radio.c:176-192 | round trip without leading spaces: a written number (either sign) scans back to itself as a `long`, stopping right after it |
| `Numbers.ScanNegativeDecimal` | Examples/MC13213_SRB/SRB_SMAC/Common/Radio.c:176-192 | round trip for a negative number: its '-' and digits scan back to it |
| `Numbers.NegativeDecimalParts` | Examples/MC13213_SRB/SRB_SMAC/Common/Radio.c:296-300 | a negative number is written as '-' followed by the digits of its magnitude, which scan to the magnitude |
| `Numbers.ScanNonNegativeDecimal` | Examples/MC13213_SRB/SRB_SMAC/Common/Radio.c:176-192 | round trip for a non-negative number: its digits scan back to it |
| `Numbers.NatDigitsLength` | Examples/MC13213_SRB/SRB_SMAC/Common/Radio.c:296-300 | numbers below 10, 100 and 1000 take at most 1, 2 and 3 digits |
| `Numbers.ScanMagnitudeSound` | Examples/MC13213_SRB/SRB_SMAC/Common/Radio.c:176 | a successful magnitude scan read a non-empty, maximal run of digits and returns its value and the bytes after it |
| `Numbers.ScanNumberSound` | Examples/MC13213_SRB/SRB_SMAC/Common/Radio.c:176 | a successful scan after the spaces read the text of a number (optional '-', digits) up to a non-digit, and its value as a `long` |
| `Numbers.XatoiSound` | Examples/MC13213_SRB/SRB_SMAC/Common/Radio.c:176-192 | soundness of `xatoi`: success means spaces, a number text up to a non-digit, and the text's value as a `long`; nothing else is accepted |
| `Numbers.XatoiNumberText` | Examples/MC13213_SRB/SRB_SMAC/Common/Radio.c:176-192 | completeness of `xatoi`: spaces and any number text (leading zeros, "-0") before a non-digit scan to the text's value |
| `Numbers.SkipSpacesSplit` | Examples/MC13213_SRB/SRB_SMAC/Common/Radio.c:180-182 | the input is its leading spaces followed by what the space-skipping loop leaves |
| `Numbers.ScanStartsNumber` | Examples/MC13213_SRB/SRB_SMAC/Common/Radio.c:206 | input that starts with a digit, or '-' and a digit, scans successfully |
| `Contest.OperandsStringIsCut` | Examples/MC13213_SRB/SRB_SMAC/Common/Radio.c:296-300 | the operand part built with bounded appends is the text "a op b" cut to the buffer |
| `Contest.CalcResultStringIsCut` | Examples/MC13213_SRB/SRB_SMAC/Common/Radio.c:295-316 | `CalcResultString` leaves the answer line "a op b = r Joe TheBest!" cut to the buffer |
| `Contest.ChallengeStringIsCut` | Examples/MC13213_SRB/SRB_SMAC/Common/Radio.c:463-470 | the challenge built by `radio challenge` is "a op b = ?" cut to the buffer |
| `Contest.ResultTextLength` | Examples/MC13213_SRB/SRB_SMAC/Common/Radio.c:295-316 | the result part of an answer (a signed 8-bit number or "ERROR") takes at most five characters |
| `Contest.AnswerTextLength` | Examples/MC13213_SRB/SRB_SMAC/Common/Radio.c:295-316 | an answer line has 21 to 32 characters |
| `Contest.AnswerNeverCut` | Examples/MC13213_SRB/SRB_SMAC/Common/Radio.c:318-331 | the 36-byte buffer of `RespondWithAnswer` always holds the whole answer line |
| `Contest.ExpectedAnswerAlwaysCut` | Examples/MC13213_SRB/SRB_SMAC/Common/Radio.c:472 | the 16-byte expected-answer cache always holds only the first 15 characters of the answer line |
| `Contest.ChallengeNeverCut` | Examples/MC13213_SRB/SRB_SMAC/Common/Radio.c:463-470 | the 16-byte challenge buffer always holds the whole question line (at most 15 characters) |
| `Contest.ParseContest` | Examples/MC13213_SRB/SRB_SMAC/Common/Radio.c:169-210 | `IsContestMessage`: the first number, then the rest of the line; see `ParseContestIff` for what it accepts |
| `Contest.AfterFirst` | Examples/MC13213_SRB/SRB_SMAC/Common/Radio.c:180-191 | spaces, one of `+ - * /`, then the second number; anything else rejects |
| `Contest.AfterSecond` | Examples/MC13213_SRB/SRB_SMAC/Common/Radio.c:192-198 | spaces and '='; anything else rejects |
| `Contest.AfterEquals` | Examples/MC13213_SRB/SRB_SMAC/Common/Radio.c:199-209 | spaces, then '?' (a question) or a number (an answer; what follows it is not looked at) |
| `Contest.IsQuestion` | Examples/MC13213_SRB/SRB_SMAC/Common/Radio.c:174-205 | the `isQuestion` out-parameter: set only when the line is accepted with '?' after '=' |
| `Contest.ParseContestComplete` | Examples/MC13213_SRB/SRB_SMAC/Common/Radio.c:169-210 | every contest layout (any spacing, any number texts) is accepted, with its operands as `(int8_t)` casts, its operator and its question flag |
| `Contest.ParseContestSound` | Examples/MC13213_SRB/SRB_SMAC/Common/Radio.c:169-210 | every accepted line is a contest layout, and the parse is what the layout says; a question exactly when '?' follows '=' |
| `Contest.ParseContestIff` | Examples/MC13213_SRB/SRB_SMAC/Common/Radio.c:169-210 | `IsContestMessage` accepts a line with a given meaning exactly when the line is a contest layout with that meaning |
| `Contest.IsQuestionIff` | Examples/MC13213_SRB/SRB_SMAC/Common/Radio.c:174-205 | `isQuestion` is set exactly for a contest layout with '?' after '=' |
| `Contest.ParseFirstText` | Examples/MC13213_SRB/SRB_SMAC/Common/Radio.c:176-179 | any number text after spaces is read as the first operand, cast to `int8_t` |
| `Contest.ParseOperatorText` | Examples/MC13213_SRB/SRB_SMAC/Common/Radio.c:180-191 | spaces, the operator and any number text are read as the operator and the second operand |
| `Contest.AfterEqualsTail` | Examples/MC13213_SRB/SRB_SMAC/Common/Radio.c:199-209 | after '=', spaces and '?' give a question, spaces and a number give an answer |
| `Contest.AfterEqualsSound` | Examples/MC13213_SRB/SRB_SMAC/Common/Radio.c:199-209 | an accepted ending is spaces followed by '?' or a number, and the flag says which |
| `Contest.AfterSecondSound` | Examples/MC13213_SRB/SRB_SMAC/Common/Radio.c:192-209 | an accepted rest after the second operand is spaces, '=', spaces and '?' or a number |
| `Contest.AfterFirstSound` | Examples/MC13213_SRB/SRB_SMAC/Common/Radio.c:180-209 | an accepted rest after the first operand is spaces, an operator, a number text, spaces, '=', spaces and '?' or a number |
| `Contest.ResultText` | Examples/MC13213_SRB/SRB_SMAC/Common/Radio.c:295-316 | the result part of the answer line: the sum, difference, product or C quotient narrowed to `int8_t` in decimal, or "ERROR" for a division by zero; see `ResultTextLength` |
| `Contest.AnswerText` | Examples/MC13213_SRB/SRB_SMAC/Common/Radio.c:295-316 | the whole answer line "a op b = r Joe TheBest!"; see `AnswerTextLength`, `AnswerRoundTrip` |
| `Contest.CalcResultString` | Examples/MC13213_SRB/SRB_SMAC/Common/Radio.c:295-316 | `CalcResultString` into a buffer of the given size, as its chain of bounded appends; see `CalcResultStringIsCut` |
| `Contest.AnswerFor` | Examples/MC13213_SRB/SRB_SMAC/Common/Radio.c:318-331 | `RespondWithAnswer`: a question line is answered with its answer line; anything else gets no answer |
| `Contest.IsWinner` | Examples/MC13213_SRB/SRB_SMAC/Common/Radio.c:545 | the win check as written: `strncmp(msg, expected, strlen(expected)) != 0`; see `WinnerIffMismatch` |
| `Contest.ParseFirst` | Examples/MC13213_SRB/SRB_SMAC/Common/Radio.c:176-181 | the parser reads the first operand (wrapped to `int8_t`) and continues after it |
| `Contest.ParseOperator` | Examples/MC13213_SRB/SRB_SMAC/Common/Radio.c:182-193 | after the first operand it reads spaces, an operator and the second operand |
| `Contest.ParseEquals` | Examples/MC13213_SRB/SRB_SMAC/Common/Radio.c:194-199 | after the second operand it reads spaces and '=' |
| `Contest.ParseFrame` | Examples/MC13213_SRB/SRB_SMAC/Common/Radio.c:169-200 | a line "a op b =" with any spacing parses up to what follows '=' |
| `Contest.AfterEqualsQuestion` | Examples/MC13213_SRB/SRB_SMAC/Common/Radio.c:200-205 | a '?' after '=' and spaces makes the line a question |
| `Contest.AfterEqualsAnswer` | Examples/MC13213_SRB/SRB_SMAC/Common/Radio.c:206-209 | a number after '=' and spaces makes the line an answer |
| `Contest.AfterEqualsOther` | Examples/MC13213_SRB/SRB_SMAC/Common/Radio.c:200-209 | anything else after '=' makes the line no contest message |
| `Contest.ParseQuestion` | Examples/MC13213_SRB/SRB_SMAC/Common/Radio.c:169-205 | any "a op b = ?" line parses as a question with those operands and that operator |
| `Contest.ParseAnswer` | Examples/MC13213_SRB/SRB_SMAC/Common/Radio.c:169-209 | any "a op b = c" line parses as an answer with those operands and that operator |
| `Contest.ChallengeRoundTrip` | Examples/MC13213_SRB/SRB_SMAC/Common/Radio.c:456-470 | round trip: the challenge line a node formats parses back to the same operands and operator, as a question |
| `Contest.AnswerRoundTrip` | Examples/MC13213_SRB/SRB_SMAC/Common/Radio.c:295-331 | round trip: an answer line (not a division by zero) parses back to the same operands and operator, as an answer |
| `Contest.ErrorAnswerIsNotContest` | Examples/MC13213_SRB/SRB_SMAC/Common/Radio.c:308-312 | the "ERROR" answer to a division by zero is not a contest message |
| `Contest.ContestTextsHaveNoNul` | Examples/MC13213_SRB/SRB_SMAC/Common/Radio.c:295-316 | with an operator, the question and answer lines contain no NUL |
| `Contest.NoChallengeNoWinner` | Examples/MC13213_SRB/SRB_SMAC/Common/Radio.c:545 | with an empty expected-answer cache no winner is ever reported |
| `Contest.WinnerIffMismatch` | Examples/MC13213_SRB/SRB_SMAC/Common/Radio.c:545 | as written, the win check reports a winner exactly when the message does NOT start with the expected answer |
| `Contest.CorrectAnswerNeverWins` | Examples/MC13213_SRB/SRB_SMAC/Common/Radio.c:542-548 | a message that starts with the correct answer is never reported as a winner |
| `Contest.PrefixNeverWins` | Examples/MC13213_SRB/SRB_SMAC/Common/Radio.c:545 | a message that starts with the whole expected text is never reported as a winner |
| `States.Retries` | Examples/MC13213_SRB/SRB_SMAC/Common/Radio.c:97-102 | counts the leading steps whose receiver switch-off failed, and the step after them succeeded |
| `States.Step` | Examples/MC13213_SRB/SRB_SMAC/Common/Radio.c:80-147 | the status after one `RADIO_HandleState` step, given the driver's outcomes; see `DrainsIffNotWaiting`, `WaitingForAckIsStuck` |
| `States.StepCalls` | Examples/MC13213_SRB/SRB_SMAC/Common/Radio.c:80-147 | the driver requests of one step, in order; see `TransmitOnlyWhenReceiverOff`, `DataIsAcknowledged` |
| `States.EventTarget` | Examples/MC13213_SRB/SRB_SMAC/Common/Radio.c:264-292 | the status `RADIO_AppHandleEvent` sets for each event; see `EventsUnblock` |
| `States.Run` | Examples/MC13213_SRB/SRB_SMAC/Common/Radio.c:343-345 | the busy loop `while (status != READY) RADIO_HandleState();`, one driver outcome per turn; see `DrainsIffNotWaiting` |
| `States.RunCalls` | Examples/MC13213_SRB/SRB_SMAC/Common/Radio.c:343-345 | the driver requests of the busy loop, in order; see `PendingFrameGoesFirst` |
| `States.WaitingForAckIsStuck` | Examples/MC13213_SRB/SRB_SMAC/Common/Radio.c:137-145 | WaitingForAck is never left by the state machine itself, and makes no driver request |
| `States.FixedPathDrains` | Examples/MC13213_SRB/SRB_SMAC/Common/Radio.c:84-96 | a state on the fixed path reaches Ready exactly when the loop can take its distance in steps |
| `States.TransmitDataDrains` | Examples/MC13213_SRB/SRB_SMAC/Common/Radio.c:97-118 | a pending TransmitData reaches Ready exactly when the switch-off eventually succeeds, one more step remains, and the send does not wait for an acknowledge |
| `States.DrainsIffNotWaiting` | Examples/MC13213_SRB/SRB_SMAC/Common/Radio.c:80-147 | some driver behaviour brings a state to Ready exactly when it is not WaitingForAck |
| `States.ContestNeverWaits` | Examples/MC13213_SRB/SRB_SMAC/Common/Radio.c:104-109 | in contest mode the state machine never enters WaitingForAck |
| `States.TransmitOnlyWhenReceiverOff` | Examples/MC13213_SRB/SRB_SMAC/Common/Radio.c:97-118 | a frame goes to the driver only after the receiver switch-off succeeded; the acknowledge timeout is armed only after a successful transmission |
| `States.EventsUnblock` | Examples/MC13213_SRB/SRB_SMAC/Common/Radio.c:264-292 | no event leaves the machine waiting, and after any event a send can go ahead again |
| `States.DataIsAcknowledged` | Examples/MC13213_SRB/SRB_SMAC/Common/Radio.c:119-130 | a data event is answered with exactly one "ESTack" frame, and then the receiver comes back on |
| `States.PendingFrameGoesFirst` | Examples/MC13213_SRB/SRB_SMAC/Common/Radio.c:97-103 | a pending transmission hands the frame still loaded to the driver first |
| `MsgQueue.BuildSlot` | Examples/MC13213_SRB/SRB_SMAC/Common/Radio.c:149-162 | the copy loop writes kind, size and at most 30 payload bytes, which is the slot encoding |
| `MsgQueue.EncodeSlot` | Examples/MC13213_SRB/SRB_SMAC/Common/Radio.c:149-161 | the slot `QueueMessage` writes: kind, full size, payload cut to 30 bytes; see `EncodeSlotLayout`, `SlotRoundTrip` |
| `MsgQueue.Enqueue` | Examples/MC13213_SRB/SRB_SMAC/Common/Radio.c:162-164 | `xQueueSendToBackFromISR`: append when fewer than 8 slots are queued, drop otherwise; see `EnqueueAllKeepsPrefix` |
| `MsgQueue.EnqueueAll` | Examples/MC13213_SRB/SRB_SMAC/Common/Radio.c:162-164 | a burst of messages queued in order; see `EnqueueAllKeepsPrefix`, `OverflowKeepsFirst` |
| `MsgQueue.EncodeSlotLayout` | Examples/MC13213_SRB/SRB_SMAC/Common/Radio.c:149-162 | a slot is 2 to 32 bytes: kind, full size, then the payload cut to 30 bytes |
| `MsgQueue.SlotRoundTrip` | Examples/MC13213_SRB/SRB_SMAC/Common/Radio.c:149-162 | round trip: decoding a slot gives back the kind, the size, and the payload up to 30 bytes |
| `MsgQueue.EnqueueAllKeepsPrefix` | Examples/MC13213_SRB/SRB_SMAC/Common/Radio.c:163-165 | FIFO: enqueueing keeps the queue and appends the messages that fit, in order; the rest are dropped |
| `MsgQueue.EnqueueAllAppend` | Examples/MC13213_SRB/SRB_SMAC/Common/Radio.c:163-165 | enqueueing two batches in turn is enqueueing their concatenation |
| `MsgQueue.EnqueueAllBounded` | Examples/MC13213_SRB/SRB_SMAC/Common/Radio.c:46 | the queue never holds more than 8 slots |
| `MsgQueue.OverflowKeepsFirst` | Examples/MC13213_SRB/SRB_SMAC/Common/Radio.c:46-47 | of many messages sent to an empty queue, exactly the first 8 are kept |
| `Classifier.Classify` | Examples/MC13213_SRB/SRB_SMAC/Common/Radio.c:214-258 | no event exactly for an unexpected status; nothing queued unless the packet is good; at most two slots |
| `Classifier.ClassifyGood` | Examples/MC13213_SRB/SRB_SMAC/Common/Radio.c:229-253 | the decision for a good packet: acknowledge, contest question or answer, data or unknown, in the source's order; see `AckIff`, `UnknownIff` |
| `Classifier.AckIff` | Examples/MC13213_SRB/SRB_SMAC/Common/Radio.c:229-233 | a good packet raises the acknowledge event exactly when one is awaited and the packet starts with "ESTack" |
| `Classifier.ContestFrameHasNoPrefix` | Examples/MC13213_SRB/SRB_SMAC/Common/Radio.c:229-243 | a contest line never starts with "EST" or "ESTack" |
| `Classifier.PrefixedIsNotContest` | Examples/MC13213_SRB/SRB_SMAC/Common/Radio.c:235-243 | a frame that starts with "EST" is never a contest line |
| `Classifier.SniffIsIndependent` | Examples/MC13213_SRB/SRB_SMAC/Common/Radio.c:225-228 | sniffing adds one copy of every good packet first, and changes neither the event nor the other slots |
| `Classifier.UnknownIff` | Examples/MC13213_SRB/SRB_SMAC/Common/Radio.c:251-253 | a good packet is unknown exactly when it lacks the prefix and is not a contest line in contest mode |
| `Classifier.GoodUnknownIff` | Examples/MC13213_SRB/SRB_SMAC/Common/Radio.c:251-253 | a good packet's decision is unknown exactly when it neither carries the frame prefix nor, in contest mode, parses as a contest line |
| `Classifier.ContestFrameQueued` | Examples/MC13213_SRB/SRB_SMAC/Common/Radio.c:235-241 | in contest mode a contest line raises a data event and is queued last, as a question (`MSG_CONTEST_QUESTION`) or an answer (`MSG_CONTEST_ANSWER`) according to its form |
| `Classifier.ContestFrameOutsideContest` | Examples/MC13213_SRB/SRB_SMAC/Common/Radio.c:235-253 | outside contest mode a contest line is an unknown packet and only a sniffed copy is queued |
| `Classifier.ChallengeNeedsContestMode` | Examples/MC13213_SRB/SRB_SMAC/Common/Radio.c:235-253 | outside contest mode a challenge is ignored as unknown |
| `Classifier.AckOutsideWaitIsData` | Examples/MC13213_SRB/SRB_SMAC/Common/Radio.c:229-250 | an acknowledge that is not awaited is data, and is itself acknowledged |
| `Classifier.AckFrameAcknowledges` | Examples/MC13213_SRB/SRB_SMAC/Common/Radio.c:119-130 | the acknowledge frame this module sends is recognised by a waiting peer and brings its receiver back |
| `Classifier.ErrorAnswerIsUnknown` | Examples/MC13213_SRB/SRB_SMAC/Common/Radio.c:308-312 | the "ERROR" answer to a division by zero reaches the challenger as an unknown packet |
| `Commands.RangeArg` | Examples/MC13213_SRB/SRB_SMAC/Common/Radio.c:478 | an argument is accepted exactly when it scans as a number in 0..15 |
| `Commands.RangeArgDecimal` | Examples/MC13213_SRB/SRB_SMAC/Common/Radio.c:476-493 | a decimal number after spaces passes the range check exactly when it lies in 0..15 |
| `Commands.CommandOf` | Examples/MC13213_SRB/SRB_SMAC/Common/Radio.c:422-500 | the branch `RADIO_ParseCommand` takes for a line; see the `*Command` lemmas below |
| `Commands.WholeCommand` | Examples/MC13213_SRB/SRB_SMAC/Common/Radio.c:427-451 | the `strcmp` branches, in the source's order |
| `Commands.ArgCommand` | Examples/MC13213_SRB/SRB_SMAC/Common/Radio.c:452-498 | the `strncmp` branches with their arguments, in the source's order |
| `Commands.Mismatch` | Examples/MC13213_SRB/SRB_SMAC/Common/Radio.c:427-494 | a line that differs from a keyword before its end matches neither `strcmp` nor `strncmp` |
| `Commands.Match` | Examples/MC13213_SRB/SRB_SMAC/Common/Radio.c:452-494 | a line that starts with a keyword passes the `strncmp` test |
| `Commands.NotEarlyCommand` | Examples/MC13213_SRB/SRB_SMAC/Common/Radio.c:427-444 | a line starting "radio c" and longer than it matches none of the first eight keywords |
| `Commands.ContestNumberCommand` | Examples/MC13213_SRB/SRB_SMAC/Common/Radio.c:452-455 | "radio contest d" sets the contest number to the digit's value |
| `Commands.ContestNumberKeyword` | Examples/MC13213_SRB/SRB_SMAC/Common/Radio.c:427-455 | a line "radio contest " followed by a digit matches no whole-line keyword and passes the contest-number test |
| `Commands.NotContestCommand` | Examples/MC13213_SRB/SRB_SMAC/Common/Radio.c:446-455 | a "radio cha..." line matches no contest keyword |
| `Commands.ChallengeLine` | Examples/MC13213_SRB/SRB_SMAC/Common/Radio.c:456-462 | a "radio challenge" line carries the parse of what follows the keyword and one more byte |
| `Commands.ChallengeCommand` | Examples/MC13213_SRB/SRB_SMAC/Common/Radio.c:456-462 | "radio challenge a op b = ?" decodes to that challenge |
| `Commands.ChannelLine` | Examples/MC13213_SRB/SRB_SMAC/Common/Radio.c:476-478 | a "radio channel" line carries the range-checked scan of its argument |
| `Commands.ChannelKeyword` | Examples/MC13213_SRB/SRB_SMAC/Common/Radio.c:427-478 | a line starting "radio channel" fails every earlier test and passes the channel test |
| `Commands.ChannelCommand` | Examples/MC13213_SRB/SRB_SMAC/Common/Radio.c:476-484 | "radio channel v" sets channel v when 0 <= v <= 15 and is refused otherwise |
| `Commands.NotRadioC` | Examples/MC13213_SRB/SRB_SMAC/Common/Radio.c:427-444 | a line whose seventh byte rules out the whole-line keywords matches none of them |
| `Commands.PowerLine` | Examples/MC13213_SRB/SRB_SMAC/Common/Radio.c:485-487 | a "radio power" line carries the range-checked scan of its argument |
| `Commands.PowerCommand` | Examples/MC13213_SRB/SRB_SMAC/Common/Radio.c:485-493 | "radio power v" sets power v when 0 <= v <= 15 and is refused otherwise |
| `Commands.SendLine` | Examples/MC13213_SRB/SRB_SMAC/Common/Radio.c:494-497 | "radio send text" sends the text after the keyword and one more byte |
| `Radio.Mask4` | Examples/MC13213_SRB/SRB_SMAC/Common/Radio.c:373-385 | `x & 0xF` is the value modulo 16 |
| `Radio.BitAndLow4` | Examples/MC13213_SRB/SRB_SMAC/Common/Radio.c:373-385 | masking with `0xF`, computed bit by bit, leaves the value modulo 16 |
| `Radio.LoadedFrame` | Examples/MC13213_SRB/SRB_SMAC/Common/Radio.c:346-349 | the loaded packet fits the buffer, and its length fits the length byte |
| `Radio.SendSpec` | Examples/MC13213_SRB/SRB_SMAC/Common/Radio.c:339-366 | a send: nothing when off, the busy loop, then load and one TransmitData step; see `SendPossibleIffNotWaiting`, `NoSendWhileWaiting` |
| `Radio.Dispatch` | Examples/MC13213_SRB/SRB_SMAC/Common/Radio.c:506-559 | what `RADIO_HandleMessage` does with a slot, by kind; see `QuestionAnswered`, `SlotWinnerIff` |
| `Radio.Apply` | Examples/MC13213_SRB/SRB_SMAC/Common/Radio.c:422-500 | the settings after a decoded command; see `ApplyKeeps`, `ApplyIdempotent`, `ApplyKeepsRanges` |
| `Radio.Transceiver.constructor` | Examples/MC13213_SRB/SRB_SMAC/Common/Radio.c:65-69 | the static initial values followed by `RADIO_Init`: status Initial, on, not sniffing, no contest, channel 5, power 15, empty packet and queue |
| `Radio.Transceiver.Init` | Examples/MC13213_SRB/SRB_SMAC/Common/Radio.c:641-662 | sets clock rate 0, the channel and power 15 through the driver, an empty packet, the initial state and an empty queue |
| `Radio.Transceiver.HandleState` | Examples/MC13213_SRB/SRB_SMAC/Common/Radio.c:80-147 | the new status and the driver requests are one step of the state machine on the loaded packet |
| `Radio.Transceiver.HandleEvent` | Examples/MC13213_SRB/SRB_SMAC/Common/Radio.c:264-292 | the status the event selects |
| `Radio.Transceiver.SetChannel` | Examples/MC13213_SRB/SRB_SMAC/Common/Radio.c:373-376 | stores the channel modulo 16 and passes it to the driver |
| `Radio.Transceiver.SetOutputPower` | Examples/MC13213_SRB/SRB_SMAC/Common/Radio.c:382-385 | stores the power modulo 16 and passes it to the driver |
| `Radio.Transceiver.LoadTxBuffer` | Examples/MC13213_SRB/SRB_SMAC/Common/Radio.c:346-349 | the copy loop leaves the C string, cut to the buffer, with its terminator as the packet |
| `Radio.Transceiver.AwaitReady` | Examples/MC13213_SRB/SRB_SMAC/Common/Radio.c:343-345 | the busy loop leaves the state and driver requests of `Run`/`RunCalls` on its inputs |
| `Radio.Transceiver.Transmit` | Examples/MC13213_SRB/SRB_SMAC/Common/Radio.c:354-366 | off: nothing happens; on: spin, load, then a TransmitData step, as `SendSpec` |
| `Radio.Transceiver.LoadAndSend` | Examples/MC13213_SRB/SRB_SMAC/Common/Radio.c:361-365 | once ready, the buffer holds the loaded frame and the status and driver calls are those of one TransmitData step |
| `Radio.Transceiver.SendStringRaw` | Examples/MC13213_SRB/SRB_SMAC/Common/Radio.c:354-366 | sends the string as it is, as `SendSpec` |
| `Radio.Transceiver.SendString` | Examples/MC13213_SRB/SRB_SMAC/Common/Radio.c:339-352 | sends "EST" followed by the string, as `SendSpec` |
| `Radio.Transceiver.QueueMessage` | Examples/MC13213_SRB/SRB_SMAC/Common/Radio.c:149-166 | appends the encoded slot when the queue has room, and drops it otherwise |
| `Radio.Transceiver.GoodPacket` | Examples/MC13213_SRB/SRB_SMAC/Common/Radio.c:229-253 | the event and the contest slot of a good packet |
| `Radio.Transceiver.DataIndication` | Examples/MC13213_SRB/SRB_SMAC/Common/Radio.c:214-258 | returns the classification's event and enqueues its slots in order |
| `Radio.Transceiver.RespondWithAnswer` | Examples/MC13213_SRB/SRB_SMAC/Common/Radio.c:318-331 | a question is answered by sending the full answer line; anything else changes nothing |
| `Radio.Transceiver.HandleMessage` | Examples/MC13213_SRB/SRB_SMAC/Common/Radio.c:506-559 | acts as `Dispatch` on the slot; only a question triggers a send |
| `Radio.Transceiver.Handle` | Examples/MC13213_SRB/SRB_SMAC/Common/Radio.c:562-573 | one state step if on, then the head of the queue is removed and dispatched, and its answer is sent from the stepped state |
| `Radio.Transceiver.SetFlag` | Examples/MC13213_SRB/SRB_SMAC/Common/Radio.c:427-455 | the help, status, on/off, sniff, contest and contest-number branches set exactly the setting they name and report the line handled |
| `Radio.Transceiver.Adjust` | Examples/MC13213_SRB/SRB_SMAC/Common/Radio.c:476-493 | channel and power commands with an argument in range set the setting and call the driver; otherwise nothing changes and the result is `ERR_FAILED` |
| `Radio.Transceiver.SendCommand` | Examples/MC13213_SRB/SRB_SMAC/Common/Radio.c:456-475 | a good challenge transmits its question and caches the cut answer; `radio send` transmits the prefixed text |
| `Radio.Transceiver.Execute` | Examples/MC13213_SRB/SRB_SMAC/Common/Radio.c:426-499 | the settings after a decoded command are `Apply` of the command, its transmission follows the send model, a setting command makes its one driver call, and the queue is untouched |
| `Radio.Transceiver.ParseCommand` | Examples/MC13213_SRB/SRB_SMAC/Common/Radio.c:422-500 | the same effects for the decoded command line; `handled` unless not for the radio or refused, and `ERR_FAILED` exactly for a bad channel or power argument |
| `Radio.ApplyKeeps` | Examples/MC13213_SRB/SRB_SMAC/Common/Radio.c:422-500 | a line not for the radio, a refused argument, help, status, a malformed challenge or a send leave every setting as it was |
| `Radio.ApplyIdempotent` | Examples/MC13213_SRB/SRB_SMAC/Common/Radio.c:422-500 | repeating a command has no further effect on the settings |
| `Radio.ApplyKeepsRanges` | Examples/MC13213_SRB/SRB_SMAC/Common/Radio.c:373-385 | commands keep channel and power in 0..15 and the cached answer within its 16-byte buffer |
| `Radio.LoadedFrameIsCString` | Examples/MC13213_SRB/SRB_SMAC/Common/Radio.c:346-349 | the packet is the string's C string cut to the buffer plus the terminator (for any buffer when the string is shorter than 255 bytes); a NUL-free string shorter than the buffer and than 255 bytes goes out whole |
| `Radio.LengthByteWraps` | Examples/MC13213_SRB/SRB_SMAC/Common/Radio.c:349 | with a 256-byte buffer, a 255-character string gets the length byte 0 |
| `Radio.NoSendWhileWaiting` | Examples/MC13213_SRB/SRB_SMAC/Common/Radio.c:137-145 | a send started while an acknowledge is awaited spins forever, with no driver request |
| `Radio.SendPossibleIffNotWaiting` | Examples/MC13213_SRB/SRB_SMAC/Common/Radio.c:339-366 | some driver behaviour lets a send go out exactly when the state is not WaitingForAck |
| `Radio.PendingFrameSentFirst` | Examples/MC13213_SRB/SRB_SMAC/Common/Radio.c:97-103 | a send that finds TransmitData pending first hands the old packet to the driver |
| `Radio.SentStringIsData` | Examples/MC13213_SRB/SRB_SMAC/Common/Radio.c:339-352 | "radio send" of a NUL-free text of at most 251 bytes, in any buffer that holds it, puts "EST", the text and NUL on the air, which a peer not awaiting an acknowledge takes as data and acknowledges |
| `Radio.SentStringLoaded` | Examples/MC13213_SRB/SRB_SMAC/Common/Radio.c:339-352 | the frame loaded for a NUL-free text that fits is "EST", the text and the terminator |
| `Radio.SentStringClassified` | Examples/MC13213_SRB/SRB_SMAC/Common/Radio.c:229-243 | a frame starting with "EST" is data to a peer that is not awaiting an acknowledge |
| `Radio.AnswerSlotDispatch` | Examples/MC13213_SRB/SRB_SMAC/Common/Radio.c:542-548 | an answer slot goes to the win check on the bytes the slot carries |
| `Radio.QuestionAnswered` | Examples/MC13213_SRB/SRB_SMAC/Common/Radio.c:535-541 | a question slot is answered with the full answer line |
| `Radio.CorrectAnswerNotReported` | Examples/MC13213_SRB/SRB_SMAC/Common/Radio.c:542-548 | a correct answer is never reported as a winner |
| `Radio.StartSlotNotReported` | Examples/MC13213_SRB/SRB_SMAC/Common/Radio.c:542-548 | an answer slot whose payload starts with the whole expected text gives no winner |
| `Radio.WinnerIffWrongAnswer` | Examples/MC13213_SRB/SRB_SMAC/Common/Radio.c:545 | an answer slot is reported exactly when its first 15 bytes differ from the expected answer |
| `Radio.SlotWinnerIff` | Examples/MC13213_SRB/SRB_SMAC/Common/Radio.c:542-548 | for any NUL-free expected text, an answer slot is reported exactly when its frame does not start with that text |
| `Radio.QuestionFrame` | Examples/MC13213_SRB/SRB_SMAC/Common/Radio.c:456-471 | from any buffer of at least 16 bytes, `radio challenge` puts the whole question line and its terminator on the air |
| `Radio.AnswerFrame` | Examples/MC13213_SRB/SRB_SMAC/Common/Radio.c:318-331 | from a buffer of at least 33 bytes (any size the module accepts, 256 included) an answer goes out whole, with its terminator |
| `Radio.QuestionQueued` | Examples/MC13213_SRB/SRB_SMAC/Common/Radio.c:235-238 | a peer in contest mode queues a question line as a question slot |
| `Radio.AnswerQueued` | Examples/MC13213_SRB/SRB_SMAC/Common/Radio.c:235-241 | a node in contest mode queues an answer line as an answer slot |
| `Radio.ContestRound` | Examples/MC13213_SRB/SRB_SMAC/Common/Radio.c:456-548 | in a full challenge, answer and check round between two nodes in contest mode with buffers of at least 33 bytes, the correct answer arrives and is not reported |

## Left out

- **The radio driver.** Only its requests and their outcomes are modelled:
  SMAC, the transceiver registers and the driver's interrupt handlers are not
  part of this model. Driver outcomes are inputs, and requests are logged.
- **The string library.** UTIL1 is not part of this model. Its helpers are
  modelled by the behaviour stated in `Bytes` and `Numbers`:
  - `xatoi` reads decimal only, with an optional '-', and wraps the value to
    32 bits;
  - bounded copies keep `size - 1` bytes;
  - `Num8sToStr` writes plain decimal.
- **The shell's command names.** `CLS1_CMD_HELP` and `CLS1_CMD_STATUS` come
  from the shell header, which is not part of this model; they are taken to be
  "help" and "status".
- **Reads past a payload's end.** A payload is a sequence, and a read past its
  end yields NUL. In the source such a read sees the rest of the receive
  buffer or of the 32-byte slot on the stack, including the uninitialised
  bytes after a short payload.
- **A command that is exactly a keyword.** `radio challenge`, `channel`,
  `power` and `send` skip the keyword and one more byte. When the line ends
  right after the keyword, the source reads past its terminator; the model
  reads an empty argument.
- **`SMAC1_RADIO_BUF_SIZE`.** The size of the transmit buffer is not visible,
  so it is the constructor's parameter (7 to 256 bytes).
- **The receive buffer and `u8MaxDataLength = 24`.** These are the driver's
  concern, so a received payload is any sequence of fewer than 256 bytes.
- `Radio.Transceiver.Transmit`: the source's busy loop runs forever when the
  state never reaches Ready (for instance in WaitingForAck, which only an
  interrupt can leave). The model feeds one driver outcome per iteration and
  reports `Spinning` when they run out.
- **Concurrency.** The receive callback runs in interrupt context and the
  queue is a FreeRTOS queue. The model runs operations one at a time, and the
  queue is a sequence.
- **Printing.** `RADIO_PrintHelp`, `RADIO_PrintStatus`, the console output of
  the sniffer and of the contest, and the "wrong argument" message are left
  out. `Dispatch` names what would be printed (`ShowSniff`, `ReportWinner`).
- **LEDs, the link-quality value and trace hooks** are left out.
- **The remote-control path.** The accelerometer prefix check, the
  `MSG_ACCEL` slot and `REMOTE_ParseMsg` belong to the remote-control module
  and are not part of this model. A slot of any other kind is ignored.
- **Disabled code.** The contest task and `SendContest` are inside `#if 0`,
  so they are left out; with them go the tables `contest0`/`contest1` and
  `RADIO_isContestSender`, which nothing else uses.
- **The fail-stop.** `RADIO_Init` spins forever when the queue cannot be
  created. The model's queue always exists.
- `Radio.Transceiver.ParseCommand`: the source writes `*handled` only when it
  handles the line, and otherwise leaves the caller's value. The model returns
  `false` in that case.
- **The win check.** It is modelled as written and not corrected:
  `strncmp(...) != 0` reports a winner when the answer does NOT match
  (`Contest.WinnerIffMismatch`, `Radio.ContestRound`).
