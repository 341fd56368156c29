/**
 * The contest protocol: the parser of `a op b = ?` / `a op b = n` frames
 * (`IsContestMessage`), the answer formatter (`CalcResultString`), the
 * challenge formatter of the `radio challenge` command, and the check of a
 * received answer against the cached expected answer.
 */
module Contest {
  import opened Wrappers
  import opened Bytes
  import opened Numbers

  /** A parsed contest frame: operands as `int8_t`, the operator byte, and whether it asks. */
  datatype ContestExpr = ContestExpr(a: Int8, b: Int8, op: Byte, isQuestion: bool)

  predicate IsOperator(c: Byte) {
    c == PLUS || c == MINUS || c == STAR || c == SLASH
  }

  /**
   * `IsContestMessage`: a number, spaces, an operator, a number, spaces, '=',
   * spaces, then '?' (a question) or a number (an answer; what follows the
   * number is not looked at). `None` is the `FALSE` return; the out-parameter
   * `isQuestion` is then `FALSE` as well.
   */
  function ParseContest(msg: seq<Byte>): Option<ContestExpr> {
    match Xatoi(msg)
    case None => None
    case Some(first) => AfterFirst(ToInt8(first.value), first.rest)
  }

  /** After the first operand: spaces, the operator, the second operand. */
  function AfterFirst(a: Int8, s: seq<Byte>): Option<ContestExpr> {
    var p := SkipSpaces(s);
    if !IsOperator(Head(p)) then None
    else
      match Xatoi(p[1..])
      case None => None
      case Some(second) => AfterSecond(a, Head(p), ToInt8(second.value), second.rest)
  }

  /** After the second operand: spaces and '='. */
  function AfterSecond(a: Int8, op: Byte, b: Int8, s: seq<Byte>): Option<ContestExpr> {
    var q := SkipSpaces(s);
    if Head(q) != EQUALS then None else AfterEquals(a, op, b, q[1..])
  }

  /** After '=': spaces, then '?' or a number. */
  function AfterEquals(a: Int8, op: Byte, b: Int8, s: seq<Byte>): Option<ContestExpr> {
    var t := SkipSpaces(s);
    var asks := Head(t) == QUESTION;
    if asks || Xatoi(t).Some? then Some(ContestExpr(a, b, op, asks)) else None
  }

  /** The `isQuestion` out-parameter of `IsContestMessage`. */
  function IsQuestion(msg: seq<Byte>): bool {
    ParseContest(msg).Some? && ParseContest(msg).value.isQuestion
  }

  const EQUALS_TEXT: seq<Byte> := [SPACE, EQUALS, SPACE]          // " = "
  const ASK_TEXT: seq<Byte> := [SPACE, EQUALS, SPACE, QUESTION]   // " = ?"
  const ERROR_TEXT: seq<Byte> := Ascii("ERROR")
  const TRAILER: seq<Byte> := Ascii(" Joe TheBest!")

  /** C's `/` on `int`: the quotient truncated toward zero. */
  function CDiv(a: int, b: int): int
    requires b != 0
  {
    var q := (if a < 0 then -a else a) / (if b < 0 then -b else b);
    if (a < 0) != (b < 0) then -q else q
  }

  /**
   * The result part of an answer. The operands are promoted to `int`, and the
   * result is passed to the 8-bit signed formatter, hence `ToInt8`.
   */
  function ResultText(a: Int8, b: Int8, op: Byte): seq<Byte> {
    if op == PLUS then DecimalString(ToInt8(a + b))
    else if op == MINUS then DecimalString(ToInt8(a - b))
    else if op == STAR then DecimalString(ToInt8(a * b))
    else if op == SLASH then (if b != 0 then DecimalString(ToInt8(CDiv(a, b))) else ERROR_TEXT)
    else []
  }

  /** `"a op b"`, the start of both contest lines. */
  function OperandsText(a: Int8, op: Byte, b: Int8): seq<Byte> {
    DecimalString(a) + [SPACE, op, SPACE] + DecimalString(b)
  }

  /** The full answer line `"a op b = r Joe TheBest!"` before any buffer limit. */
  function AnswerText(a: Int8, b: Int8, op: Byte): seq<Byte> {
    OperandsText(a, op, b) + EQUALS_TEXT + ResultText(a, b, op) + TRAILER
  }

  /** The full challenge line `"a op b = ?"`. */
  function ChallengeText(a: Int8, b: Int8, op: Byte): seq<Byte> {
    OperandsText(a, op, b) + ASK_TEXT
  }

  /**
   * `Num8sToStr(buf, size, a)`, then `chcat` of ' ', `op`, ' ', then
   * `strcatNum8s(buf, size, b)`: the string left in `buf`.
   */
  function OperandsString(size: nat, a: Int8, op: Byte, b: Int8): seq<Byte>
    requires size >= 1
  {
    var s0 := Truncate(DecimalString(a), size - 1);
    var s1 := BoundedCat(size, s0, [SPACE]);
    var s2 := BoundedCat(size, s1, [op]);
    var s3 := BoundedCat(size, s2, [SPACE]);
    BoundedCat(size, s3, DecimalString(b))
  }

  /**
   * `CalcResultString(buf, size, a, b, op)`: the string left in `buf`. For an
   * operator the result (or "ERROR") is appended; for any other byte nothing is.
   */
  function CalcResultString(size: nat, a: Int8, b: Int8, op: Byte): seq<Byte>
    requires size >= 1
  {
    var s5 := BoundedCat(size, OperandsString(size, a, op, b), EQUALS_TEXT);
    var s6 := if IsOperator(op) then BoundedCat(size, s5, ResultText(a, b, op)) else s5;
    BoundedCat(size, s6, TRAILER)
  }

  /** The challenge string the `radio challenge` command builds in a buffer of `size` bytes. */
  function ChallengeString(size: nat, a: Int8, b: Int8, op: Byte): seq<Byte>
    requires size >= 1
  {
    BoundedCat(size, OperandsString(size, a, op, b), ASK_TEXT)
  }

  /** `RespondWithAnswer`: the answer to send for a received question, if it is one. */
  function AnswerFor(msg: seq<Byte>): Option<seq<Byte>> {
    match ParseContest(msg)
    case Some(e) => if e.isQuestion then Some(CalcResultString(36, e.a, e.b, e.op)) else None
    case None => None
  }

  /**
   * The win check of a received answer, as written: a winner is reported when
   * `strncmp(msg, expected, strlen(expected))` is NON-zero.
   */
  function IsWinner(msg: seq<Byte>, expected: seq<Byte>): bool {
    !StrNEq(msg, expected, CStrLen(expected))
  }

  // ---------------------------------------------------------------------
  // Formatting

  lemma OperandsStringIsCut(size: nat, a: Int8, op: Byte, b: Int8)
    requires size >= 1
    ensures OperandsString(size, a, op, b) == Truncate(OperandsText(a, op, b), size - 1)
  {
    var n := size - 1;
    var d := DecimalString(a);
    var s0 := Truncate(d, n);
    var s1 := BoundedCat(size, s0, [SPACE]);
    assert s1 == Truncate(d + [SPACE], n) by { TruncateAppend(d, [SPACE], n); }
    var s2 := BoundedCat(size, s1, [op]);
    assert s2 == Truncate(d + [SPACE] + [op], n) by { TruncateAppend(d + [SPACE], [op], n); }
    var s3 := BoundedCat(size, s2, [SPACE]);
    assert s3 == Truncate(d + [SPACE, op, SPACE], n) by {
      TruncateAppend(d + [SPACE] + [op], [SPACE], n);
      assert d + [SPACE] + [op] + [SPACE] == d + [SPACE, op, SPACE];
    }
    assert BoundedCat(size, s3, DecimalString(b)) == Truncate(OperandsText(a, op, b), n) by {
      TruncateAppend(d + [SPACE, op, SPACE], DecimalString(b), n);
    }
  }

  /** The bounded formatter keeps exactly the first `size - 1` bytes of the full answer. */
  lemma CalcResultStringIsCut(size: nat, a: Int8, b: Int8, op: Byte)
    requires size >= 1
    ensures CalcResultString(size, a, b, op) == Truncate(AnswerText(a, b, op), size - 1)
  {
    var n := size - 1;
    var x4 := OperandsText(a, op, b);
    OperandsStringIsCut(size, a, op, b);
    var s5 := BoundedCat(size, OperandsString(size, a, op, b), EQUALS_TEXT);
    assert s5 == Truncate(x4 + EQUALS_TEXT, n) by { TruncateAppend(x4, EQUALS_TEXT, n); }
    var x5 := x4 + EQUALS_TEXT;
    var x6 := x5 + ResultText(a, b, op);
    var s6 := if IsOperator(op) then BoundedCat(size, s5, ResultText(a, b, op)) else s5;
    assert s6 == Truncate(x6, n) by {
      TruncateAppend(x5, ResultText(a, b, op), n);
      if !IsOperator(op) {
        assert x6 == x5;
      }
    }
    assert BoundedCat(size, s6, TRAILER) == Truncate(x6 + TRAILER, n) by { TruncateAppend(x6, TRAILER, n); }
  }

  lemma ChallengeStringIsCut(size: nat, a: Int8, b: Int8, op: Byte)
    requires size >= 1
    ensures ChallengeString(size, a, b, op) == Truncate(ChallengeText(a, b, op), size - 1)
  {
    OperandsStringIsCut(size, a, op, b);
    TruncateAppend(OperandsText(a, op, b), ASK_TEXT, size - 1);
  }

  /** The result part takes at most five characters: four for a number, five for "ERROR". */
  lemma ResultTextLength(a: Int8, b: Int8, op: Byte)
    ensures |ResultText(a, b, op)| <= 5
  {
    if op == PLUS {
      DecimalInt8Length(ToInt8(a + b));
    } else if op == MINUS {
      DecimalInt8Length(ToInt8(a - b));
    } else if op == STAR {
      var p := a * b;
      DecimalInt8Length(ToInt8(p));
    } else if op == SLASH && b != 0 {
      var q := CDiv(a, b);
      DecimalInt8Length(ToInt8(q));
    }
  }

  lemma AnswerTextLength(a: Int8, b: Int8, op: Byte)
    ensures 21 <= |AnswerText(a, b, op)| <= 32
  {
    DecimalInt8Length(a);
    DecimalInt8Length(b);
    ResultTextLength(a, b, op);
    var o, r := OperandsText(a, op, b), ResultText(a, b, op);
    assert |o| == |DecimalString(a)| + 3 + |DecimalString(b)|;
    assert |AnswerText(a, b, op)| == |o| + |EQUALS_TEXT| + |r| + |TRAILER|;
  }

  /** The 36-byte buffer of `RespondWithAnswer` always holds the whole answer. */
  lemma AnswerNeverCut(a: Int8, b: Int8, op: Byte)
    ensures CalcResultString(36, a, b, op) == AnswerText(a, b, op)
  {
    CalcResultStringIsCut(36, a, b, op);
    AnswerTextLength(a, b, op);
  }

  /**
   * The 16-byte cache of the expected answer is always too small: it holds the
   * first 15 bytes of the answer and never its result trailer.
   */
  lemma ExpectedAnswerAlwaysCut(a: Int8, b: Int8, op: Byte)
    ensures CalcResultString(16, a, b, op) == AnswerText(a, b, op)[..15]
    ensures |CalcResultString(16, a, b, op)| == 15 < |AnswerText(a, b, op)|
  {
    CalcResultStringIsCut(16, a, b, op);
    AnswerTextLength(a, b, op);
  }

  /** The 16-byte challenge buffer always holds the whole challenge. */
  lemma ChallengeNeverCut(a: Int8, b: Int8, op: Byte)
    ensures ChallengeString(16, a, b, op) == ChallengeText(a, b, op)
    ensures |ChallengeText(a, b, op)| <= 15
  {
    ChallengeStringIsCut(16, a, b, op);
    DecimalInt8Length(a);
    DecimalInt8Length(b);
  }

  // ---------------------------------------------------------------------
  // Parsing

  /** A contest frame with arbitrary spacing, up to and including '=', followed by `tail`. */
  function Frame(n1: nat, a: int, n2: nat, op: Byte, n3: nat, b: int, n4: nat, tail: seq<Byte>): seq<Byte> {
    Spaces(n1) + (DecimalString(a) + (Spaces(n2) + ([op] + (Spaces(n3) + (DecimalString(b) + (Spaces(n4) + ([EQUALS] + tail)))))))
  }

  lemma ParseFirst(n1: nat, a: int, rest: seq<Byte>)
    requires !IsDigit(Head(rest))
    ensures ParseContest(Spaces(n1) + (DecimalString(a) + rest)) == AfterFirst(ToInt8(a), rest)
  {
    XatoiDecimal(n1, a, rest);
    Int8OfInt32(a);
  }

  lemma ParseOperator(a: Int8, n2: nat, op: Byte, n3: nat, b: int, rest: seq<Byte>)
    requires IsOperator(op) && !IsDigit(Head(rest))
    ensures AfterFirst(a, Spaces(n2) + ([op] + (Spaces(n3) + (DecimalString(b) + rest))))
         == AfterSecond(a, op, ToInt8(b), rest)
  {
    var x := Spaces(n3) + (DecimalString(b) + rest);
    SkipSpacesOver(n2, [op] + x);
    assert ([op] + x)[1..] == x;
    XatoiDecimal(n3, b, rest);
    Int8OfInt32(b);
  }

  lemma ParseEquals(a: Int8, op: Byte, b: Int8, n4: nat, rest: seq<Byte>)
    ensures AfterSecond(a, op, b, Spaces(n4) + ([EQUALS] + rest)) == AfterEquals(a, op, b, rest)
  {
    SkipSpacesOver(n4, [EQUALS] + rest);
    assert ([EQUALS] + rest)[1..] == rest;
  }

  /**
   * Up to '=' the parser accepts exactly what `Frame` writes, and keeps the
   * operands as `(int8_t)` truncations of the numbers written; what follows
   * '=' decides between question, answer and rejection.
   */
  lemma ParseFrame(n1: nat, a: int, n2: nat, op: Byte, n3: nat, b: int, n4: nat, tail: seq<Byte>)
    requires IsOperator(op)
    ensures ParseContest(Frame(n1, a, n2, op, n3, b, n4, tail)) == AfterEquals(ToInt8(a), op, ToInt8(b), tail)
  {
    var x4 := Spaces(n4) + ([EQUALS] + tail);
    var x2 := Spaces(n2) + ([op] + (Spaces(n3) + (DecimalString(b) + x4)));
    assert Head(x2) == SPACE || Head(x2) == op;
    ParseFirst(n1, a, x2);
    assert Head(x4) == SPACE || Head(x4) == EQUALS;
    ParseOperator(ToInt8(a), n2, op, n3, b, x4);
    ParseEquals(ToInt8(a), op, ToInt8(b), n4, tail);
  }

  /** '?' after '=' and spaces makes a question. */
  lemma AfterEqualsQuestion(a: Int8, op: Byte, b: Int8, n5: nat, rest: seq<Byte>)
    ensures AfterEquals(a, op, b, Spaces(n5) + ([QUESTION] + rest)) == Some(ContestExpr(a, b, op, true))
  {
    SkipSpacesOver(n5, [QUESTION] + rest);
  }

  /** A number after '=' and spaces makes an answer. */
  lemma AfterEqualsAnswer(a: Int8, op: Byte, b: Int8, n5: nat, c: int, rest: seq<Byte>)
    requires !IsDigit(Head(rest))
    ensures AfterEquals(a, op, b, Spaces(n5) + (DecimalString(c) + rest)) == Some(ContestExpr(a, b, op, false))
  {
    var t := DecimalString(c) + rest;
    var m: nat := if c < 0 then -c else c;
    assert t[0] == MINUS || IsDigit(NatDigits(m)[0]);
    SkipSpacesOver(n5, t);
    assert SkipSpaces(t) == t;
    ScanNumberDecimal(c, rest);
  }

  /** Anything else after '=' (neither '?' nor a number) rejects the frame. */
  lemma AfterEqualsOther(a: Int8, op: Byte, b: Int8, n5: nat, rest: seq<Byte>)
    requires Head(rest) != SPACE && Head(rest) != QUESTION && Head(rest) != MINUS && !IsDigit(Head(rest))
    ensures AfterEquals(a, op, b, Spaces(n5) + rest) == None
  {
    SkipSpacesOver(n5, rest);
    assert SkipSpaces(rest) == rest;
  }

  /** A question written with any spacing parses as that question. */
  lemma ParseQuestion(n1: nat, a: int, n2: nat, op: Byte, n3: nat, b: int, n4: nat, n5: nat, rest: seq<Byte>)
    requires IsOperator(op)
    ensures ParseContest(Frame(n1, a, n2, op, n3, b, n4, Spaces(n5) + ([QUESTION] + rest)))
         == Some(ContestExpr(ToInt8(a), ToInt8(b), op, true))
  {
    ParseFrame(n1, a, n2, op, n3, b, n4, Spaces(n5) + ([QUESTION] + rest));
    AfterEqualsQuestion(ToInt8(a), op, ToInt8(b), n5, rest);
  }

  /** An answer written with any spacing, followed by a non-digit, parses as an answer. */
  lemma ParseAnswer(n1: nat, a: int, n2: nat, op: Byte, n3: nat, b: int, n4: nat, n5: nat, c: int, rest: seq<Byte>)
    requires IsOperator(op) && !IsDigit(Head(rest))
    ensures ParseContest(Frame(n1, a, n2, op, n3, b, n4, Spaces(n5) + (DecimalString(c) + rest)))
         == Some(ContestExpr(ToInt8(a), ToInt8(b), op, false))
  {
    ParseFrame(n1, a, n2, op, n3, b, n4, Spaces(n5) + (DecimalString(c) + rest));
    AfterEqualsAnswer(ToInt8(a), op, ToInt8(b), n5, c, rest);
  }

  // ---------------------------------------------------------------------
  // What the parser accepts, and only that

  /**
   * The layout of a contest line with general number texts (leading zeros,
   * "-0"): spaces, the first number, spaces, the operator, spaces, the second
   * number, spaces, '=', spaces, and whatever follows.
   */
  datatype ContestLayout = ContestLayout(n1: nat, x: seq<Byte>, n2: nat, op: Byte, n3: nat, y: seq<Byte>,
                                         n4: nat, n5: nat, tail: seq<Byte>)

  /** The bytes of a layout. */
  function Render(l: ContestLayout): seq<Byte> {
    Spaces(l.n1) + (l.x + (Spaces(l.n2) + ([l.op] + (Spaces(l.n3) + (l.y + (Spaces(l.n4) + ([EQUALS] + (Spaces(l.n5) + l.tail))))))))
  }

  /** What may follow '=' and its spaces: '?' or the start of a number. */
  predicate IsAfterEquals(tail: seq<Byte>) {
    Head(tail) == QUESTION || StartsNumber(tail)
  }

  predicate IsContestLayout(l: ContestLayout) {
    IsNumberText(l.x) && IsOperator(l.op) && IsNumberText(l.y) && IsAfterEquals(l.tail)
  }

  /** What a contest line says: its operands as `int8_t`, its operator, and whether '?' follows '='. */
  function Meaning(l: ContestLayout): ContestExpr
    requires IsContestLayout(l)
  {
    ContestExpr(ToInt8(NumberValue(l.x)), ToInt8(NumberValue(l.y)), l.op, Head(l.tail) == QUESTION)
  }

  lemma ParseFirstText(n1: nat, x: seq<Byte>, rest: seq<Byte>)
    requires IsNumberText(x) && !IsDigit(Head(rest))
    ensures ParseContest(Spaces(n1) + (x + rest)) == AfterFirst(ToInt8(NumberValue(x)), rest)
  {
    XatoiNumberText(n1, x, rest);
    Int8OfInt32(NumberValue(x));
  }

  lemma ParseOperatorText(a: Int8, n2: nat, op: Byte, n3: nat, y: seq<Byte>, rest: seq<Byte>)
    requires IsOperator(op) && IsNumberText(y) && !IsDigit(Head(rest))
    ensures AfterFirst(a, Spaces(n2) + ([op] + (Spaces(n3) + (y + rest))))
         == AfterSecond(a, op, ToInt8(NumberValue(y)), rest)
  {
    var z := Spaces(n3) + (y + rest);
    SkipSpacesOver(n2, [op] + z);
    assert ([op] + z)[1..] == z;
    XatoiNumberText(n3, y, rest);
    Int8OfInt32(NumberValue(y));
  }

  lemma AfterEqualsTail(a: Int8, op: Byte, b: Int8, n5: nat, tail: seq<Byte>)
    requires IsAfterEquals(tail)
    ensures AfterEquals(a, op, b, Spaces(n5) + tail) == Some(ContestExpr(a, b, op, Head(tail) == QUESTION))
  {
    SkipSpacesOver(n5, tail);
    if Head(tail) != QUESTION {
      SkipNoSpaces(tail);
      ScanStartsNumber(tail);
    }
  }

  /** Completeness: every contest layout parses, to what it says. */
  lemma ParseContestComplete(l: ContestLayout)
    requires IsContestLayout(l)
    ensures ParseContest(Render(l)) == Some(Meaning(l))
  {
    var r4 := Spaces(l.n4) + ([EQUALS] + (Spaces(l.n5) + l.tail));
    var r2 := Spaces(l.n2) + ([l.op] + (Spaces(l.n3) + (l.y + r4)));
    assert Head(r2) == SPACE || Head(r2) == l.op;
    ParseFirstText(l.n1, l.x, r2);
    assert Head(r4) == SPACE || Head(r4) == EQUALS;
    var a, b := ToInt8(NumberValue(l.x)), ToInt8(NumberValue(l.y));
    ParseOperatorText(a, l.n2, l.op, l.n3, l.y, r4);
    ParseEquals(a, l.op, b, l.n4, Spaces(l.n5) + l.tail);
    AfterEqualsTail(a, l.op, b, l.n5, l.tail);
  }

  lemma AfterEqualsSound(a: Int8, op: Byte, b: Int8, s: seq<Byte>) returns (n5: nat, tail: seq<Byte>)
    requires AfterEquals(a, op, b, s).Some?
    ensures s == Spaces(n5) + tail && IsAfterEquals(tail)
    ensures AfterEquals(a, op, b, s) == Some(ContestExpr(a, b, op, Head(tail) == QUESTION))
  {
    tail := SkipSpaces(s);
    n5 := |s| - |tail|;
    SkipSpacesSplit(s);
    if Head(tail) != QUESTION {
      SkipNoSpaces(tail);
      XatoiNeedsDigit(tail);
    }
  }

  lemma AfterSecondSound(a: Int8, op: Byte, b: Int8, s: seq<Byte>) returns (n4: nat, n5: nat, tail: seq<Byte>)
    requires AfterSecond(a, op, b, s).Some?
    ensures s == Spaces(n4) + ([EQUALS] + (Spaces(n5) + tail)) && IsAfterEquals(tail)
    ensures AfterSecond(a, op, b, s) == Some(ContestExpr(a, b, op, Head(tail) == QUESTION))
  {
    var q := SkipSpaces(s);
    n4 := |s| - |q|;
    SkipSpacesSplit(s);
    assert q == [EQUALS] + q[1..];
    n5, tail := AfterEqualsSound(a, op, b, q[1..]);
  }

  lemma AfterFirstSound(a: Int8, s: seq<Byte>)
    returns (n2: nat, op: Byte, n3: nat, y: seq<Byte>, n4: nat, n5: nat, tail: seq<Byte>)
    requires AfterFirst(a, s).Some?
    ensures IsOperator(op) && IsNumberText(y) && IsAfterEquals(tail)
    ensures s == Spaces(n2) + ([op] + (Spaces(n3) + (y + (Spaces(n4) + ([EQUALS] + (Spaces(n5) + tail))))))
    ensures AfterFirst(a, s) == Some(ContestExpr(a, ToInt8(NumberValue(y)), op, Head(tail) == QUESTION))
  {
    var p := SkipSpaces(s);
    n2, op := |s| - |p|, Head(p);
    var u := p[1..];
    assert s == Spaces(n2) + ([op] + u) by {
      SkipSpacesSplit(s);
      assert p == [op] + u;
    }
    var second := Xatoi(u).value;
    assert IsOperator(op) && AfterFirst(a, s) == AfterSecond(a, op, ToInt8(second.value), second.rest);
    n3, y := XatoiSound(u);
    assert ToInt8(second.value) == ToInt8(NumberValue(y)) by {
      Int8OfInt32(NumberValue(y));
    }
    n4, n5, tail := AfterSecondSound(a, op, ToInt8(second.value), second.rest);
  }

  /**
   * Soundness: a line the parser accepts is a contest layout, and the parse
   * is what the layout says; in particular it is a question exactly when '?'
   * follows '='.
   */
  lemma ParseContestSound(msg: seq<Byte>)
    requires ParseContest(msg).Some?
    ensures exists l :: IsContestLayout(l) && Render(l) == msg && Meaning(l) == ParseContest(msg).value
  {
    var first := Xatoi(msg).value;
    var n1, x := XatoiSound(msg);
    Int8OfInt32(NumberValue(x));
    var n2, op, n3, y, n4, n5, tail := AfterFirstSound(ToInt8(first.value), first.rest);
    var l := ContestLayout(n1, x, n2, op, n3, y, n4, n5, tail);
    assert Render(l) == msg;
  }

  /** `IsContestMessage` accepts a line, with a given meaning, exactly when the line is a contest layout with that meaning. */
  lemma ParseContestIff(msg: seq<Byte>, e: ContestExpr)
    ensures ParseContest(msg) == Some(e) <==> exists l :: IsContestLayout(l) && Render(l) == msg && Meaning(l) == e
  {
    if ParseContest(msg) == Some(e) {
      ParseContestSound(msg);
    }
    if exists l :: IsContestLayout(l) && Render(l) == msg && Meaning(l) == e {
      var l :| IsContestLayout(l) && Render(l) == msg && Meaning(l) == e;
      ParseContestComplete(l);
    }
  }

  /** The `isQuestion` flag is set exactly for a contest layout with '?' after '='. */
  lemma IsQuestionIff(msg: seq<Byte>)
    ensures IsQuestion(msg) <==> exists l :: IsContestLayout(l) && Render(l) == msg && Head(l.tail) == QUESTION
  {
    if IsQuestion(msg) {
      ParseContestSound(msg);
    }
    if exists l :: IsContestLayout(l) && Render(l) == msg && Head(l.tail) == QUESTION {
      var l :| IsContestLayout(l) && Render(l) == msg && Head(l.tail) == QUESTION;
      ParseContestComplete(l);
    }
  }

  /** The contest lines as `Frame`s with single spaces. */
  lemma OperandsAsFrame(a: Int8, op: Byte, b: Int8, tail: seq<Byte>)
    ensures OperandsText(a, op, b) + ([SPACE, EQUALS] + tail) == Frame(0, a, 1, op, 1, b, 1, tail)
  {
    assert Spaces(0) == [] && Spaces(1) == [SPACE];
    var da, db := DecimalString(a), DecimalString(b);
    calc {
      OperandsText(a, op, b) + ([SPACE, EQUALS] + tail);
      (da + [SPACE, op, SPACE] + db) + ([SPACE, EQUALS] + tail);
      { assert [SPACE, op, SPACE] == [SPACE] + ([op] + [SPACE]);
        assert [SPACE, EQUALS] + tail == [SPACE] + ([EQUALS] + tail); }
      da + ([SPACE] + ([op] + ([SPACE] + (db + ([SPACE] + ([EQUALS] + tail))))));
    }
  }

  /** The challenge line as a `Frame` with single spaces and a '?' after the '='. */
  lemma ChallengeAsFrame(a: Int8, b: Int8, op: Byte, rest: seq<Byte>)
    ensures ChallengeText(a, b, op) + rest == Frame(0, a, 1, op, 1, b, 1, Spaces(1) + ([QUESTION] + rest))
  {
    var tail := Spaces(1) + ([QUESTION] + rest);
    var o := OperandsText(a, op, b);
    calc {
      ChallengeText(a, b, op) + rest;
      (o + ASK_TEXT) + rest;
      { AppendAssoc(o, ASK_TEXT, rest); }
      o + (ASK_TEXT + rest);
      { AskTextSplit(rest); }
      o + ([SPACE, EQUALS] + tail);
      { OperandsAsFrame(a, op, b, tail); }
      Frame(0, a, 1, op, 1, b, 1, tail);
    }
  }

  lemma AskTextSplit(rest: seq<Byte>)
    ensures ASK_TEXT + rest == [SPACE, EQUALS] + (Spaces(1) + ([QUESTION] + rest))
  {
    assert Spaces(1) == [SPACE];
    assert ASK_TEXT == [SPACE, EQUALS] + [SPACE, QUESTION];
  }

  /** Round trip: the challenge the command sends parses back to its operands and operator. */
  lemma ChallengeRoundTrip(a: Int8, b: Int8, op: Byte, rest: seq<Byte>)
    requires IsOperator(op)
    ensures ParseContest(ChallengeText(a, b, op) + rest) == Some(ContestExpr(a, b, op, true))
    ensures IsQuestion(ChallengeText(a, b, op) + rest)
  {
    ChallengeAsFrame(a, b, op, rest);
    ParseQuestion(0, a, 1, op, 1, b, 1, 1, rest);
    ToInt8Identity(a);
    ToInt8Identity(b);
  }

  /** The answer line, split where the parser looks: operands, " =", then what follows. */
  lemma AnswerSplit(a: Int8, b: Int8, op: Byte, rest: seq<Byte>)
    ensures AnswerText(a, b, op) + rest
         == OperandsText(a, op, b) + ([SPACE, EQUALS] + ([SPACE] + (ResultText(a, b, op) + (TRAILER + rest))))
  {
    var o, r := OperandsText(a, op, b), ResultText(a, b, op);
    var y := r + (TRAILER + rest);
    AppendAssoc(o + EQUALS_TEXT + r, TRAILER, rest);
    AppendAssoc(o + EQUALS_TEXT, r, TRAILER + rest);
    AppendAssoc(o, EQUALS_TEXT, y);
    assert EQUALS_TEXT == [SPACE, EQUALS] + [SPACE];
    AppendAssoc([SPACE, EQUALS], [SPACE], y);
  }

  /** The answer line as a `Frame` with single spaces, the result after the '='. */
  lemma AnswerAsFrame(a: Int8, b: Int8, op: Byte, rest: seq<Byte>)
    ensures AnswerText(a, b, op) + rest
         == Frame(0, a, 1, op, 1, b, 1, Spaces(1) + (ResultText(a, b, op) + (TRAILER + rest)))
  {
    var tail := [SPACE] + (ResultText(a, b, op) + (TRAILER + rest));
    AnswerSplit(a, b, op, rest);
    OperandsAsFrame(a, op, b, tail);
    assert Spaces(1) == [SPACE];
  }

  /**
   * Round trip: an answer with a numeric result parses back as an answer to
   * the same operands and operator.
   */
  lemma AnswerRoundTrip(a: Int8, b: Int8, op: Byte, rest: seq<Byte>)
    requires IsOperator(op) && !(op == SLASH && b == 0)
    ensures ParseContest(AnswerText(a, b, op) + rest) == Some(ContestExpr(a, b, op, false))
  {
    var c := if op == PLUS then ToInt8(a + b)
      else if op == MINUS then ToInt8(a - b)
      else if op == STAR then ToInt8(a * b)
      else ToInt8(CDiv(a, b));
    assert ResultText(a, b, op) == DecimalString(c);
    assert Head(TRAILER + rest) == SPACE;
    AnswerAsFrame(a, b, op, rest);
    ParseAnswer(0, a, 1, op, 1, b, 1, 1, c, TRAILER + rest);
    ToInt8Identity(a);
    ToInt8Identity(b);
  }

  /**
   * The answer to a division by zero carries "ERROR" where the number should be,
   * so it is not a contest frame at all.
   */
  lemma ErrorAnswerIsNotContest(a: Int8, rest: seq<Byte>)
    ensures ParseContest(AnswerText(a, 0, SLASH) + rest) == None
  {
    var after := ERROR_TEXT + (TRAILER + rest);
    AnswerAsFrame(a, 0, SLASH, rest);
    ParseFrame(0, a, 1, SLASH, 1, 0, 1, Spaces(1) + after);
    assert Head(after) == 'E' as int;
    AfterEqualsOther(a, SLASH, 0, 1, after);
    ToInt8Identity(a);
  }

  // ---------------------------------------------------------------------
  // The win check

  /** With an operator, the contest lines contain no terminator, so a C string holds them whole. */
  lemma ContestTextsHaveNoNul(a: Int8, b: Int8, op: Byte)
    requires IsOperator(op)
    ensures NoNul(ChallengeText(a, b, op)) && NoNul(AnswerText(a, b, op))
  {
    DecimalInt8Length(a);
    DecimalInt8Length(b);
    var ops := OperandsText(a, op, b);
    NoNulAppend(DecimalString(a), [SPACE, op, SPACE]);
    NoNulAppend(DecimalString(a) + [SPACE, op, SPACE], DecimalString(b));
    NoNulAppend(ops, ASK_TEXT);
    var r := ResultText(a, b, op);
    if op == PLUS {
      DecimalInt8Length(ToInt8(a + b));
    } else if op == MINUS {
      DecimalInt8Length(ToInt8(a - b));
    } else if op == STAR {
      DecimalInt8Length(ToInt8(a * b));
    } else if b != 0 {
      DecimalInt8Length(ToInt8(CDiv(a, b)));
    }
    assert NoNul(r);
    NoNulAppend(ops, EQUALS_TEXT);
    NoNulAppend(ops + EQUALS_TEXT, r);
    NoNulAppend(ops + EQUALS_TEXT + r, TRAILER);
  }

  /** Before any challenge the cache is empty, and no answer is reported as a winner. */
  lemma NoChallengeNoWinner(msg: seq<Byte>)
    ensures !IsWinner(msg, [])
  {
  }

  /**
   * The win check is inverted: against a cache without NUL bytes, an answer is
   * reported as a winner exactly when it does NOT start with the cached string.
   */
  lemma WinnerIffMismatch(msg: seq<Byte>, expected: seq<Byte>)
    requires NoNul(expected)
    ensures IsWinner(msg, expected) <==> !(|expected| <= |msg| && msg[..|expected|] == expected)
  {
    assert CStrLen(expected) == |expected|;
    StrNEqPrefix(msg, expected, |expected|);
  }

  /**
   * The correct answer to the last challenge (or any frame that agrees with it
   * on the first 15 bytes) is never reported as a winner.
   */
  lemma CorrectAnswerNeverWins(a: Int8, b: Int8, op: Byte, msg: seq<Byte>)
    requires 15 <= |msg| && msg[..15] == AnswerText(a, b, op)[..15]
    ensures !IsWinner(msg, CalcResultString(16, a, b, op))
  {
    ExpectedAnswerAlwaysCut(a, b, op);
    PrefixNeverWins(msg, CalcResultString(16, a, b, op));
  }

  /** A frame that starts with the whole expected text is never reported as a winner. */
  lemma PrefixNeverWins(msg: seq<Byte>, expected: seq<Byte>)
    requires |expected| <= |msg| && msg[..|expected|] == expected
    ensures !IsWinner(msg, expected)
  {
    var k := CStrLen(expected);
    assert msg[..k] == msg[..|expected|][..k] == expected[..k];
    StrNEqCommonPrefix(msg, expected, k);
  }
}
