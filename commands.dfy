/**
 * The `radio ...` shell commands of `RADIO_ParseCommand`: which branch a
 * command line takes, and the argument that branch reads. The comparisons
 * are `strcmp` for whole commands and `strncmp` for commands with an
 * argument, tried in the order of the source.
 */
module Commands {
  import opened Wrappers
  import opened Bytes
  import opened Numbers
  import opened Contest

  /** `CLS1_CMD_HELP` and `CLS1_CMD_STATUS` of the shell, taken to be "help" and "status". */
  const HELP: seq<Byte> := Ascii("help")
  const RADIO_HELP: seq<Byte> := Ascii("radio help")
  const STATUS: seq<Byte> := Ascii("status")
  const RADIO_STATUS: seq<Byte> := Ascii("radio status")
  const RADIO_ON: seq<Byte> := Ascii("radio on")
  const RADIO_OFF: seq<Byte> := Ascii("radio off")
  const SNIFF_ON: seq<Byte> := Ascii("radio sniff on")
  const SNIFF_OFF: seq<Byte> := Ascii("radio sniff off")
  const CONTEST_ON: seq<Byte> := Ascii("radio contest on")
  const CONTEST_OFF: seq<Byte> := Ascii("radio contest off")
  const CONTEST_NR: seq<Byte> := Ascii("radio contest ")
  const CHALLENGE: seq<Byte> := Ascii("radio challenge")
  const CHANNEL: seq<Byte> := Ascii("radio channel")
  const POWER: seq<Byte> := Ascii("radio power")
  const SEND: seq<Byte> := Ascii("radio send")

  /** The branch of `RADIO_ParseCommand` a command line takes, with what it reads from the line. */
  datatype Command =
    | ShowHelp
    | ShowStatus
    | TurnOn
    | TurnOff
    | SniffOn
    | SniffOff
    | ContestOn
    | ContestOff
    | ContestNumber(no: Byte)
    | Challenge(expr: Option<ContestExpr>)
    | SetChannel(channel: Option<Byte>)
    | SetPower(power: Option<Byte>)
    | Send(text: seq<Byte>)
    | NotForRadio

  /** `strcmp(cmd, lit) == 0`. */
  predicate Is(cmd: seq<Byte>, lit: seq<Byte>) {
    CStr(cmd) == lit
  }

  /** `strncmp(cmd, lit, sizeof(lit) - 1) == 0`. */
  predicate Starts(cmd: seq<Byte>, lit: seq<Byte>) {
    StrNEq(cmd, lit, |lit|)
  }

  /** The argument of `radio channel` and `radio power`: a number in 0..15, or `None` (`ERR_FAILED`). */
  function RangeArg(p: seq<Byte>): (r: Option<Byte>)
    ensures r.Some? ==> 0 <= r.value <= 15
    ensures r.Some? <==> Xatoi(p).Some? && 0 <= Xatoi(p).value.value <= 15
  {
    match Xatoi(p)
    case Some(scan) => if 0 <= scan.value <= 15 then Some(scan.value) else None
    case None => None
  }

  /**
   * The branch taken for `cmd`: first the commands compared whole, then those
   * compared as a prefix.
   */
  function CommandOf(cmd: seq<Byte>): Command {
    match WholeCommand(cmd)
    case Some(c) => c
    case None => ArgCommand(cmd)
  }

  /** The branches that compare the whole line (`strcmp`). */
  function WholeCommand(cmd: seq<Byte>): Option<Command> {
    if Is(cmd, HELP) || Is(cmd, RADIO_HELP) then Some(ShowHelp)
    else if Is(cmd, STATUS) || Is(cmd, RADIO_STATUS) then Some(ShowStatus)
    else if Is(cmd, RADIO_ON) then Some(TurnOn)
    else if Is(cmd, RADIO_OFF) then Some(TurnOff)
    else if Is(cmd, SNIFF_ON) then Some(SniffOn)
    else if Is(cmd, SNIFF_OFF) then Some(SniffOff)
    else if Is(cmd, CONTEST_ON) then Some(ContestOn)
    else if Is(cmd, CONTEST_OFF) then Some(ContestOff)
    else None
  }

  /**
   * The branches that compare a keyword (`strncmp`). An argument is read
   * `sizeof(keyword)` bytes in, that is one byte past the keyword, whatever
   * that byte is; the digit of `radio contest <nr>` is read right after the
   * keyword's trailing space.
   */
  function ArgCommand(cmd: seq<Byte>): Command {
    if Starts(cmd, CONTEST_NR) then ContestNumber(ToUint8(Head(Drop(cmd, |CONTEST_NR|)) - DIGIT_ZERO))
    else if Starts(cmd, CHALLENGE) then Challenge(ParseContest(Drop(cmd, |CHALLENGE| + 1)))
    else if Starts(cmd, CHANNEL) then SetChannel(RangeArg(Drop(cmd, |CHANNEL| + 1)))
    else if Starts(cmd, POWER) then SetPower(RangeArg(Drop(cmd, |POWER| + 1)))
    else if Starts(cmd, SEND) then Send(Drop(cmd, |SEND| + 1))
    else NotForRadio
  }

  // ---------------------------------------------------------------------
  // Properties

  /** A line that differs from a literal at a position inside both matches it neither whole nor as a prefix. */
  lemma Mismatch(cmd: seq<Byte>, lit: seq<Byte>, j: nat)
    requires j < |lit| && j < |cmd| && NoNul(cmd[..j + 1]) && NoNul(lit) && cmd[j] != lit[j]
    ensures !Is(cmd, lit) && !Starts(cmd, lit)
  {
    CStrCovers(cmd, j + 1);
    assert CStr(cmd)[j] == cmd[..j + 1][j];
    StrNEqPrefix(cmd, lit, |lit|);
  }

  /** The parts of a line made of a keyword, one separator byte and an argument. */
  lemma KeywordLine(lit: seq<Byte>, x: Byte, arg: seq<Byte>)
    ensures var cmd := lit + ([x] + arg);
      |cmd| > |lit| && cmd[..|lit|] == lit && cmd[|lit|] == x && cmd[|lit| + 1..] == arg
  {
    var cmd := lit + ([x] + arg);
    assert cmd[..|lit|] == lit;
    assert cmd[|lit| + 1..] == arg;
  }

  /** A line that starts with a literal matches it as a prefix. */
  lemma Match(lit: seq<Byte>, rest: seq<Byte>)
    ensures Starts(lit + rest, lit)
  {
    assert (lit + rest)[..|lit|] == lit;
    StrNEqCommonPrefix(lit + rest, lit, |lit|);
  }

  /** None of the command literals holds a NUL byte. */
  lemma LiteralsHaveNoNul()
    ensures NoNul(HELP) && NoNul(RADIO_HELP) && NoNul(STATUS) && NoNul(RADIO_STATUS)
    ensures NoNul(RADIO_ON) && NoNul(RADIO_OFF) && NoNul(SNIFF_ON) && NoNul(SNIFF_OFF)
    ensures NoNul(CONTEST_ON) && NoNul(CONTEST_OFF) && NoNul(CONTEST_NR)
    ensures NoNul(CHALLENGE) && NoNul(CHANNEL) && NoNul(POWER) && NoNul(SEND)
  {
    ShowLiteralsHaveNoNul();
    SwitchLiteralsHaveNoNul();
    ArgLiteralsHaveNoNul();
  }

  lemma ShowLiteralsHaveNoNul()
    ensures NoNul(HELP) && NoNul(RADIO_HELP) && NoNul(STATUS) && NoNul(RADIO_STATUS)
  {
    AsciiNoNul("help");
    AsciiNoNul("radio help");
    AsciiNoNul("status");
    AsciiNoNul("radio status");
  }

  lemma SwitchLiteralsHaveNoNul()
    ensures NoNul(RADIO_ON) && NoNul(RADIO_OFF) && NoNul(SNIFF_ON) && NoNul(SNIFF_OFF)
    ensures NoNul(CONTEST_ON) && NoNul(CONTEST_OFF)
  {
    AsciiNoNul("radio on");
    AsciiNoNul("radio off");
    AsciiNoNul("radio sniff on");
    AsciiNoNul("radio sniff off");
    AsciiNoNul("radio contest on");
    AsciiNoNul("radio contest off");
  }

  lemma ArgLiteralsHaveNoNul()
    ensures NoNul(CONTEST_NR) && NoNul(CHALLENGE) && NoNul(CHANNEL) && NoNul(POWER) && NoNul(SEND)
  {
    AsciiNoNul("radio contest ");
    AsciiNoNul("radio challenge");
    AsciiNoNul("radio channel");
    AsciiNoNul("radio power");
    AsciiNoNul("radio send");
  }

  /** The literals a line starting "radio c" may be confused with, all rejected before position 8. */
  lemma NotEarlyCommand(cmd: seq<Byte>, j: nat)
    requires 7 <= j < |cmd| && NoNul(cmd[..j + 1])
    requires cmd[..7] == Ascii("radio c")
    ensures !(Is(cmd, HELP) || Is(cmd, RADIO_HELP) || Is(cmd, STATUS) || Is(cmd, RADIO_STATUS))
    ensures !Is(cmd, RADIO_ON) && !Is(cmd, RADIO_OFF) && !Is(cmd, SNIFF_ON) && !Is(cmd, SNIFF_OFF)
  {
    LiteralsHaveNoNul();
    assert cmd[0] == 'r' as int && cmd[6] == 'c' as int;
    assert NoNul(cmd[..1]) && NoNul(cmd[..7]) by {
      assert cmd[..1] == cmd[..j + 1][..1];
      assert cmd[..7] == cmd[..j + 1][..7];
    }
    assert !Is(cmd, HELP) by { Mismatch(cmd, HELP, 0); }
    assert !Is(cmd, STATUS) by { Mismatch(cmd, STATUS, 0); }
    assert !Is(cmd, RADIO_HELP) by { Mismatch(cmd, RADIO_HELP, 6); }
    assert !Is(cmd, RADIO_STATUS) by { Mismatch(cmd, RADIO_STATUS, 6); }
    assert !Is(cmd, RADIO_ON) by { Mismatch(cmd, RADIO_ON, 6); }
    assert !Is(cmd, RADIO_OFF) by { Mismatch(cmd, RADIO_OFF, 6); }
    assert !Is(cmd, SNIFF_ON) by { Mismatch(cmd, SNIFF_ON, 6); }
    assert !Is(cmd, SNIFF_OFF) by { Mismatch(cmd, SNIFF_OFF, 6); }
  }

  /** `radio contest <d>` with a digit `d` sets the contest number to that digit. */
  lemma ContestNumberCommand(d: Byte, rest: seq<Byte>)
    requires IsDigit(d)
    ensures CommandOf(CONTEST_NR + ([d] + rest)) == ContestNumber(d - DIGIT_ZERO)
  {
    var cmd := CONTEST_NR + ([d] + rest);
    KeywordLine(CONTEST_NR, d, rest);
    ContestNumberKeyword(cmd);
    assert CommandOf(cmd) == ArgCommand(cmd);
    assert |CONTEST_NR| == 14;
    assert Head(Drop(cmd, 14)) == d;
  }

  /** A line starting with `radio contest ` and a digit takes the contest number branch. */
  lemma ContestNumberKeyword(cmd: seq<Byte>)
    requires |cmd| > 14 && cmd[..14] == CONTEST_NR && IsDigit(cmd[14])
    ensures WholeCommand(cmd) == None && Starts(cmd, CONTEST_NR)
  {
    LiteralsHaveNoNul();
    assert NoNul(cmd[..15]) by {
      assert cmd[..15] == CONTEST_NR + [cmd[14]];
      NoNulAppend(CONTEST_NR, [cmd[14]]);
    }
    assert cmd[..7] == CONTEST_NR[..7] == Ascii("radio c");
    NotEarlyCommand(cmd, 14);
    Mismatch(cmd, CONTEST_ON, 14);
    Mismatch(cmd, CONTEST_OFF, 14);
    StrNEqCommonPrefix(cmd, CONTEST_NR, 14);
  }

  /** The line after `radio c` rules out every `radio contest` branch at position 8. */
  lemma NotContestCommand(cmd: seq<Byte>)
    requires 9 < |cmd| && NoNul(cmd[..10])
    requires cmd[..9] == Ascii("radio cha")
    ensures WholeCommand(cmd) == None && !Starts(cmd, CONTEST_NR)
  {
    LiteralsHaveNoNul();
    assert cmd[..7] == cmd[..9][..7];
    NotEarlyCommand(cmd, 9);
    assert cmd[8] == 'a' as int;
    Mismatch(cmd, CONTEST_ON, 8);
    Mismatch(cmd, CONTEST_OFF, 8);
    Mismatch(cmd, CONTEST_NR, 8);
  }

  /** A line `radio challenge` + one byte + `arg` reads `arg` as a contest frame. */
  lemma ChallengeLine(cmd: seq<Byte>, arg: seq<Byte>)
    requires |cmd| > 15 && cmd[..15] == CHALLENGE && cmd[15] != NUL && cmd[16..] == arg
    ensures CommandOf(cmd) == Challenge(ParseContest(arg))
  {
    LiteralsHaveNoNul();
    assert cmd[..9] == CHALLENGE[..9] == Ascii("radio cha");
    assert NoNul(cmd[..10]) by { assert cmd[..10] == CHALLENGE[..10]; }
    NotContestCommand(cmd);
    StrNEqCommonPrefix(cmd, CHALLENGE, 15);
  }

  /**
   * `radio challenge` followed by one separator byte and a contest frame reads
   * the frame; the challenge the command itself sends is such a frame.
   */
  lemma ChallengeCommand(x: Byte, a: Int8, b: Int8, op: Byte, rest: seq<Byte>)
    requires x != NUL && IsOperator(op)
    ensures CommandOf(CHALLENGE + ([x] + (ChallengeText(a, b, op) + rest))) == Challenge(Some(ContestExpr(a, b, op, true)))
  {
    var tail := ChallengeText(a, b, op) + rest;
    var cmd := CHALLENGE + ([x] + tail);
    KeywordLine(CHALLENGE, x, tail);
    ChallengeLine(cmd, tail);
    ChallengeRoundTrip(a, b, op, rest);
  }

  /** The range check of `radio channel` and `radio power` on a number written in decimal after spaces. */
  lemma RangeArgDecimal(n: nat, v: int, rest: seq<Byte>)
    requires !IsDigit(Head(rest)) && -0x8000_0000 <= v < 0x8000_0000
    ensures RangeArg(Spaces(n) + (DecimalString(v) + rest)) == if 0 <= v <= 15 then Some(v) else None
  {
    XatoiDecimal(n, v, rest);
    ToInt32Identity(v);
  }

  /** A line `radio channel` + one byte + `arg` reads `arg` as the channel. */
  lemma ChannelLine(cmd: seq<Byte>, arg: seq<Byte>)
    requires |cmd| > 13 && cmd[..13] == CHANNEL && cmd[13] != NUL && cmd[14..] == arg
    ensures CommandOf(cmd) == SetChannel(RangeArg(arg))
  {
    ChannelKeyword(cmd);
    assert Drop(cmd, |CHANNEL| + 1) == arg;
  }

  /** A line starting with `radio channel` takes the channel branch. */
  lemma ChannelKeyword(cmd: seq<Byte>)
    requires |cmd| >= 13 && cmd[..13] == CHANNEL
    ensures WholeCommand(cmd) == None && !Starts(cmd, CONTEST_NR) && !Starts(cmd, CHALLENGE) && Starts(cmd, CHANNEL)
  {
    LiteralsHaveNoNul();
    assert cmd[..9] == CHANNEL[..9] == Ascii("radio cha");
    assert NoNul(cmd[..10]) by { assert cmd[..10] == CHANNEL[..10]; }
    NotContestCommand(cmd);
    Mismatch(cmd, CHALLENGE, 9);
    StrNEqCommonPrefix(cmd, CHANNEL, 13);
  }

  /**
   * `radio channel` followed by any one byte and a number in 0..15 selects
   * that channel; a number outside the range is refused.
   */
  lemma ChannelCommand(x: Byte, n: nat, v: int, rest: seq<Byte>)
    requires x != NUL && !IsDigit(Head(rest)) && -0x8000_0000 <= v < 0x8000_0000
    ensures CommandOf(CHANNEL + ([x] + (Spaces(n) + (DecimalString(v) + rest))))
         == SetChannel(if 0 <= v <= 15 then Some(v) else None)
  {
    var arg := Spaces(n) + (DecimalString(v) + rest);
    var cmd := CHANNEL + ([x] + arg);
    KeywordLine(CHANNEL, x, arg);
    ChannelLine(cmd, arg);
    RangeArgDecimal(n, v, rest);
  }

  /** The literals a line starting "radio " and then neither "c", "h", "o", "st" nor "sn" may be confused with. */
  lemma NotRadioC(cmd: seq<Byte>)
    requires 7 < |cmd| && NoNul(cmd[..8])
    requires cmd[..6] == Ascii("radio ") && cmd[6] != 'c' as int && cmd[6] != 'h' as int
    requires cmd[6] != 'o' as int && (cmd[6] == 's' as int ==> cmd[7] != 't' as int && cmd[7] != 'n' as int)
    ensures WholeCommand(cmd) == None
    ensures !Starts(cmd, CONTEST_NR) && !Starts(cmd, CHALLENGE) && !Starts(cmd, CHANNEL)
  {
    LiteralsHaveNoNul();
    assert cmd[0] == 'r' as int;
    assert NoNul(cmd[..1]) && NoNul(cmd[..7]) by {
      assert cmd[..1] == cmd[..8][..1];
      assert cmd[..7] == cmd[..8][..7];
    }
    assert !Is(cmd, HELP) by { Mismatch(cmd, HELP, 0); }
    assert !Is(cmd, STATUS) by { Mismatch(cmd, STATUS, 0); }
    assert !Is(cmd, RADIO_HELP) by { Mismatch(cmd, RADIO_HELP, 6); }
    assert !Is(cmd, RADIO_ON) by { Mismatch(cmd, RADIO_ON, 6); }
    assert !Is(cmd, RADIO_OFF) by { Mismatch(cmd, RADIO_OFF, 6); }
    assert !Is(cmd, CONTEST_ON) by { Mismatch(cmd, CONTEST_ON, 6); }
    assert !Is(cmd, CONTEST_OFF) by { Mismatch(cmd, CONTEST_OFF, 6); }
    assert !Starts(cmd, CONTEST_NR) by { Mismatch(cmd, CONTEST_NR, 6); }
    assert !Starts(cmd, CHALLENGE) by { Mismatch(cmd, CHALLENGE, 6); }
    assert !Starts(cmd, CHANNEL) by { Mismatch(cmd, CHANNEL, 6); }
    var k := if cmd[6] == 's' as int then 7 else 6;
    assert !Is(cmd, RADIO_STATUS) by { Mismatch(cmd, RADIO_STATUS, k); }
    assert !Is(cmd, SNIFF_ON) by { Mismatch(cmd, SNIFF_ON, k); }
    assert !Is(cmd, SNIFF_OFF) by { Mismatch(cmd, SNIFF_OFF, k); }
  }

  /** A line `radio power` + one byte + `arg` reads `arg` as the output power. */
  lemma PowerLine(cmd: seq<Byte>, arg: seq<Byte>)
    requires |cmd| > 11 && cmd[..11] == POWER && cmd[11] != NUL && cmd[12..] == arg
    ensures CommandOf(cmd) == SetPower(RangeArg(arg))
  {
    LiteralsHaveNoNul();
    assert cmd[..6] == POWER[..6] == Ascii("radio ");
    assert cmd[6] == 'p' as int;
    assert NoNul(cmd[..8]) by { assert cmd[..8] == POWER[..8]; }
    NotRadioC(cmd);
    StrNEqCommonPrefix(cmd, POWER, 11);
  }

  /**
   * `radio power` followed by any one byte and a number in 0..15 selects that
   * output power; a number outside the range is refused.
   */
  lemma PowerCommand(x: Byte, n: nat, v: int, rest: seq<Byte>)
    requires x != NUL && !IsDigit(Head(rest)) && -0x8000_0000 <= v < 0x8000_0000
    ensures CommandOf(POWER + ([x] + (Spaces(n) + (DecimalString(v) + rest))))
         == SetPower(if 0 <= v <= 15 then Some(v) else None)
  {
    var arg := Spaces(n) + (DecimalString(v) + rest);
    var cmd := POWER + ([x] + arg);
    KeywordLine(POWER, x, arg);
    PowerLine(cmd, arg);
    RangeArgDecimal(n, v, rest);
  }

  /** `radio send` followed by any one byte sends the rest of the line. */
  lemma SendLine(x: Byte, text: seq<Byte>)
    requires x != NUL
    ensures CommandOf(SEND + ([x] + text)) == Send(text)
  {
    var cmd := SEND + ([x] + text);
    LiteralsHaveNoNul();
    assert cmd[..10] == SEND && cmd[10] == x && cmd[11..] == text;
    assert cmd[..6] == SEND[..6] == Ascii("radio ");
    assert cmd[6] == 's' as int && cmd[7] == 'e' as int;
    assert NoNul(cmd[..8]) by { assert cmd[..8] == SEND[..8]; }
    NotRadioC(cmd);
    assert !Starts(cmd, POWER) by { Mismatch(cmd, POWER, 6); }
    StrNEqCommonPrefix(cmd, SEND, 10);
  }
}
