/**
 * Bytes and the bounded C-string helpers (`strlen`, `strncmp`, `strcpy`,
 * `strcat`, `chcat`) that the radio module calls. The helper library itself
 * is not part of this model; the functions below state the behaviour the
 * radio module relies on:
 *   - a bounded copy or concatenation into a buffer of `size` bytes keeps at
 *     most `size - 1` characters (the last byte holds the terminator);
 *   - `strncmp(a, b, n) == 0` compares at most `n` bytes and stops at a NUL.
 * A payload is a sequence of bytes; a read past its end yields the terminator.
 */
module Bytes {

  /** An 8-bit unsigned value: `uint8_t`, `unsigned char`, `byte`. */
  type Byte = x: int | 0 <= x < 256

  const NUL: Byte := 0
  const SPACE: Byte := 32     // ' '
  const STAR: Byte := 42      // '*'
  const PLUS: Byte := 43      // '+'
  const MINUS: Byte := 45     // '-'
  const SLASH: Byte := 47     // '/'
  const DIGIT_ZERO: Byte := 48 // '0'
  const DIGIT_NINE: Byte := 57 // '9'
  const EQUALS: Byte := 61    // '='
  const QUESTION: Byte := 63  // '?'

  function Min(a: int, b: int): int { if a <= b then a else b }

  /** The bytes of a character literal whose characters all fit in one byte. */
  function Ascii(s: string): (r: seq<Byte>)
    requires forall i | 0 <= i < |s| :: s[i] as int < 256
    ensures |r| == |s|
    ensures forall i | 0 <= i < |s| :: r[i] == s[i] as int
  {
    seq(|s|, i requires 0 <= i < |s| => s[i] as int)
  }

  predicate NoNul(s: seq<Byte>) {
    forall i | 0 <= i < |s| :: s[i] != NUL
  }

  /** A literal without the character 0 has no NUL byte. */
  lemma AsciiNoNul(s: string)
    requires forall i | 0 <= i < |s| :: 0 < s[i] as int < 256
    ensures NoNul(Ascii(s))
  {
  }

  /** `*p`: the byte a pointer to `s` reads; at the end it reads the terminator. */
  function Head(s: seq<Byte>): Byte {
    if s == [] then NUL else s[0]
  }

  /** `p + 1`, never moving past the end. */
  function Tail(s: seq<Byte>): seq<Byte> {
    if s == [] then [] else s[1..]
  }

  /** `p + k`; a pointer moved past the end reads an empty string. */
  function Drop(s: seq<Byte>, k: nat): seq<Byte> {
    if k <= |s| then s[k..] else []
  }

  /** `strlen`: the number of bytes before the first NUL. */
  function CStrLen(s: seq<Byte>): (n: nat)
    ensures n <= |s|
    ensures NoNul(s[..n])
    ensures n < |s| ==> s[n] == NUL
  {
    if s == [] || s[0] == NUL then 0 else 1 + CStrLen(s[1..])
  }

  /** The C string a buffer holds: its bytes before the first NUL. */
  function CStr(s: seq<Byte>): (r: seq<Byte>)
    ensures NoNul(r) && r <= s
  {
    s[..CStrLen(s)]
  }

  lemma NoNulAppend(x: seq<Byte>, y: seq<Byte>)
    ensures NoNul(x + y) <==> NoNul(x) && NoNul(y)
  {
    assert forall i | 0 <= i < |x| :: x[i] == (x + y)[i];
    assert forall i | 0 <= i < |y| :: y[i] == (x + y)[|x| + i];
  }

  /** A run of non-NUL bytes at the start of a buffer belongs to its C string. */
  lemma CStrCovers(s: seq<Byte>, k: nat)
    requires k <= |s| && NoNul(s[..k])
    ensures k <= CStrLen(s) && CStr(s)[..k] == s[..k]
  {
    CStrLenAtLeast(s, k);
  }

  lemma {:induction false} CStrLenAtLeast(s: seq<Byte>, k: nat)
    requires k <= |s| && NoNul(s[..k])
    ensures k <= CStrLen(s)
    decreases k
  {
    if k > 0 {
      assert s[..k][0] == s[0];
      assert s[1..][..k - 1] == s[..k][1..];
      CStrLenAtLeast(s[1..], k - 1);
    }
  }

  /** The first `n` bytes of `s`, or all of `s` when it is shorter. */
  function Truncate(s: seq<Byte>, n: nat): seq<Byte> {
    if |s| <= n then s else s[..n]
  }

  /**
   * `strcat`/`chcat`/`strcatNum8s(dst, size, ...)`: append `src` to the string
   * `dst` held in a buffer of `size` bytes, keeping at most `size - 1` bytes.
   */
  function BoundedCat(size: nat, dst: seq<Byte>, src: seq<Byte>): seq<Byte>
    requires size >= 1
  {
    Truncate(dst + src, size - 1)
  }

  /** `strncmp(a, b, n) == 0`. */
  function StrNEq(a: seq<Byte>, b: seq<Byte>, n: nat): bool
    decreases n
  {
    n == 0 || (Head(a) == Head(b) && (Head(a) == NUL || StrNEq(Tail(a), Tail(b), n - 1)))
  }

  /** Cutting before and after appending gives the same string: successive bounded appends equal one. */
  lemma TruncateAppend(x: seq<Byte>, y: seq<Byte>, n: nat)
    ensures Truncate(Truncate(x, n) + y, n) == Truncate(x + y, n)
  {
    if |x| > n {
      assert (x[..n] + y)[..n] == x[..n] == (x + y)[..n];
    }
  }

  /** Concatenation is associative; stated once so that proofs about long messages can regroup them. */
  lemma AppendAssoc(x: seq<Byte>, y: seq<Byte>, z: seq<Byte>)
    ensures (x + y) + z == x + (y + z)
  {
  }

  /** Truncation keeps a prefix of at most `n` bytes. */
  lemma TruncateIsPrefix(s: seq<Byte>, n: nat)
    ensures |Truncate(s, n)| == Min(|s|, n)
    ensures Truncate(s, n) == s[..Min(|s|, n)]
  {
  }

  /** Two strings that agree on their first `n` bytes compare equal under `strncmp(_, _, n)`. */
  lemma {:induction false} StrNEqCommonPrefix(a: seq<Byte>, b: seq<Byte>, n: nat)
    requires n <= |a| && n <= |b| && a[..n] == b[..n]
    ensures StrNEq(a, b, n)
  {
    if n > 0 {
      assert a[0] == a[..n][0] == b[..n][0] == b[0];
      assert Tail(a)[..n - 1] == a[1..n] == b[1..n] == Tail(b)[..n - 1];
      StrNEqCommonPrefix(Tail(a), Tail(b), n - 1);
    }
  }

  /**
   * Against a literal without NUL bytes, `strncmp(a, lit, n) == 0` holds exactly
   * when `a` starts with the first `n` bytes of the literal.
   */
  lemma {:induction false} StrNEqPrefix(a: seq<Byte>, lit: seq<Byte>, n: nat)
    requires n <= |lit| && NoNul(lit)
    ensures StrNEq(a, lit, n) <==> n <= |a| && a[..n] == lit[..n]
  {
    if n > 0 {
      assert lit[0] != NUL;
      StrNEqPrefix(Tail(a), Tail(lit), n - 1);
      if n <= |a| && a[..n] == lit[..n] {
        assert a[0] == lit[0];
        assert Tail(a)[..n - 1] == a[1..n] == lit[1..n] == Tail(lit)[..n - 1];
      }
      if StrNEq(a, lit, n) {
        assert a != [] && a[0] == lit[0];
        assert a[..n] == [a[0]] + Tail(a)[..n - 1];
        assert lit[..n] == [lit[0]] + Tail(lit)[..n - 1];
      }
    }
  }
}
