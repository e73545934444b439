/** Values shared by the field codec and the connection engine: bytes, JavaScript's
    32-bit integer coercion, Node Buffer reads and slices, UTF-8 and decimal text. */
module Bytes {

  type byte = x: int | 0 <= x < 256

  datatype Option<T> = None | Some(value: T)

  const TwoTo31: int := 0x8000_0000
  const TwoTo32: int := 0x1_0000_0000

  /** ECMAScript ToInt32 of an integral number: the operand of every bitwise operator. */
  function ToInt32(x: int): (r: int)
    ensures -TwoTo31 <= r < TwoTo31
    ensures -TwoTo31 <= x < TwoTo31 ==> r == x
  {
    var m := x % TwoTo32;
    if m < TwoTo31 then m else m - TwoTo32
  }

  /** ToInt32 depends on the number's residue modulo 2^32 only. */
  lemma ToInt32OfResidue(x: int)
    ensures ToInt32(x % TwoTo32) == ToInt32(x)
  {
    assert (x % TwoTo32) % TwoTo32 == x % TwoTo32;
  }

  /** `buf[i]` as a bitwise operand: an index outside the buffer reads `undefined`, which
      the operator turns into 0. */
  function ByteAt(s: seq<byte>, i: int): (b: byte)
    ensures 0 <= i < |s| ==> b == s[i]
    ensures !(0 <= i < |s|) ==> b == 0
  {
    if 0 <= i < |s| then s[i] else 0
  }

  /** `buf.slice(start)` for a non-negative start: the bytes from start on, empty past the end. */
  function SliceFrom(s: seq<byte>, start: nat): (r: seq<byte>)
    ensures start <= |s| ==> r == s[start..]
    ensures start >= |s| ==> r == []
  {
    if start <= |s| then s[start..] else []
  }

  /** `buf.toString(enc, start, end)` on the byte level: start is clamped into the buffer,
      end is cut at the buffer's length, and an end at or before start gives nothing. */
  function Slice(s: seq<byte>, start: int, end: int): (r: seq<byte>)
    ensures 0 <= start <= end <= |s| ==> r == s[start..end]
    ensures |r| <= |s|
  {
    var lo := if start <= 0 then 0 else if start >= |s| then |s| else start;
    var hi := if end > |s| then |s| else end;
    if hi <= lo then [] else s[lo..hi]
  }

  /** A slice whose end runs past the buffer takes the rest of it. */
  lemma SliceToEnd(s: seq<byte>, start: int, end: int)
    requires 0 <= start <= |s| < end
    ensures Slice(s, start, end) == s[start..]
  {
  }

  /** The UTF-8 encoding of one Unicode scalar value. */
  function EncodeChar(c: char): (r: seq<byte>)
    ensures 1 <= |r| <= 4
    ensures |r| == 1 <==> (c as int) < 0x80
    ensures (c as int) < 0x80 ==> r == [c as int]
  {
    var n := c as int;
    if n < 0x80 then [n]
    else if n < 0x800 then [0xC0 + n / 0x40, 0x80 + n % 0x40]
    else if n < 0x1_0000 then [0xE0 + n / 0x1000, 0x80 + (n / 0x40) % 0x40, 0x80 + n % 0x40]
    else [0xF0 + n / 0x4_0000, 0x80 + (n / 0x1000) % 0x40, 0x80 + (n / 0x40) % 0x40, 0x80 + n % 0x40]
  }

  /** `new Buffer(s)` / `socket.write(s)`: a string as its UTF-8 bytes. */
  function Encode(s: string): (r: seq<byte>)
    ensures |r| >= |s|
  {
    if s == [] then [] else Encode(s[..|s| - 1]) + EncodeChar(s[|s| - 1])
  }

  /** A JavaScript string's `length`: UTF-16 code units, two for a character beyond U+FFFF. */
  function Utf16Length(s: string): (n: nat)
    ensures n >= |s|
  {
    if s == [] then 0 else Utf16Length(s[..|s| - 1]) + (if (s[|s| - 1] as int) < 0x1_0000 then 1 else 2)
  }

  predicate IsAscii(s: string) {
    forall i :: 0 <= i < |s| ==> (s[i] as int) < 0x80
  }

  lemma {:induction false} EncodeAppend(s: string, t: string)
    ensures Encode(s + t) == Encode(s) + Encode(t)
    decreases |t|
  {
    if t == [] {
      assert s + t == s;
    } else {
      var t', c := t[..|t| - 1], t[|t| - 1];
      assert (s + t)[..|s + t| - 1] == s + t' && (s + t)[|s + t| - 1] == c;
      EncodeAppend(s, t');
      assert Encode(s + t) == Encode(s + t') + EncodeChar(c);
      assert Encode(t) == Encode(t') + EncodeChar(c);
      AppendAssoc(Encode(s), Encode(t'), EncodeChar(c));
    }
  }

  lemma AppendAssoc<T>(a: seq<T>, b: seq<T>, c: seq<T>)
    ensures (a + b) + c == a + (b + c)
  {
  }

  /** An ASCII string encodes byte for byte. */
  lemma {:induction false} EncodeAscii(s: string)
    requires IsAscii(s)
    ensures |Encode(s)| == |s|
    ensures forall i :: 0 <= i < |s| ==> Encode(s)[i] == s[i] as int
    decreases |s|
  {
    if s != [] {
      EncodeAscii(s[..|s| - 1]);
    }
  }

  /** A string's UTF-8 byte count equals its JavaScript length exactly when it is ASCII. */
  lemma {:induction false} ByteCountIsLengthIffAscii(s: string)
    ensures |Encode(s)| == Utf16Length(s) <==> IsAscii(s)
    decreases |s|
  {
    if s != [] {
      var s' := s[..|s| - 1];
      var c := s[|s| - 1];
      ByteCountIsLengthIffAscii(s');
      EncodeLengthAtLeast(s');
      Utf16AtMost(s');
      if IsAscii(s) {
        assert IsAscii(s');
      } else if IsAscii(s') {
        assert (c as int) >= 0x80;
      }
    }
  }

  lemma {:induction false} EncodeLengthAtLeast(s: string)
    ensures |Encode(s)| >= Utf16Length(s)
    decreases |s|
  {
    if s != [] {
      EncodeLengthAtLeast(s[..|s| - 1]);
    }
  }

  lemma {:induction false} Utf16AtMost(s: string)
    ensures Utf16Length(s) <= 2 * |s|
    decreases |s|
  {
    if s != [] {
      Utf16AtMost(s[..|s| - 1]);
    }
  }

  // Decimal text, as JavaScript renders a number and as `Number("123")` reads one.

  predicate IsDigit(c: char) {
    '0' <= c <= '9'
  }

  predicate AllDigits(s: string) {
    forall i :: 0 <= i < |s| ==> IsDigit(s[i])
  }

  function DigitChar(d: nat): (c: char)
    requires d < 10
    ensures IsDigit(c) && (c as int) - ('0' as int) == d
  {
    ('0' as int + d) as char
  }

  /** `String(n)` for a non-negative integer. */
  function NatToString(n: nat): (s: string)
    ensures |s| >= 1 && AllDigits(s)
    ensures IsAscii(s)
    decreases n
  {
    if n < 10 then [DigitChar(n)] else NatToString(n / 10) + [DigitChar(n % 10)]
  }

  /** `String(i)` for an integer. */
  function IntToString(i: int): string {
    if i < 0 then "-" + NatToString(-i) else NatToString(i)
  }

  /** The value of a run of decimal digits. */
  function ParseDecimal(s: string): nat
    requires AllDigits(s)
  {
    if s == [] then 0 else 10 * ParseDecimal(s[..|s| - 1]) + ((s[|s| - 1] as int) - ('0' as int))
  }

  lemma {:induction false} DecimalRoundTrip(n: nat)
    ensures ParseDecimal(NatToString(n)) == n
    decreases n
  {
    if n >= 10 {
      var s := NatToString(n);
      assert s[..|s| - 1] == NatToString(n / 10);
      DecimalRoundTrip(n / 10);
    }
  }
}
