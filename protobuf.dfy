/** The reduced Protocol Buffers encoding of lib/protobuf.js: base-128 varints and
    length-delimited fields (wire type 2). Fields are kept as bytes; the UTF-8 text
    the source hands to `new Buffer` and reads back with `toString('utf8')` is
    encoded by the caller (Bytes.Encode). */
module Protobuf {
  import opened Bytes

  /** The object parseString fills: field number to field value. */
  type Fields = map<int, seq<byte>>

  // ---------------------------------------------------------------------------
  // Varints

  /** The bytes the encoder emits: 7-bit groups of n, least significant first, with
      0x80 on every byte but the last. Zero is encoded as no bytes at all. */
  function Varint(n: nat): seq<byte>
    decreases n
  {
    if n == 0 then [] else [n % 128 + (if n / 128 > 0 then 128 else 0)] + Varint(n / 128)
  }

  /** The number a sequence of 7-bit groups stands for, least significant group first. */
  function GroupsValue(s: seq<byte>): nat
  {
    if s == [] then 0 else s[0] % 128 + 128 * GroupsValue(s[1..])
  }

  function Pow128(k: nat): (p: nat)
    ensures p >= 1
  {
    if k == 0 then 1 else 128 * Pow128(k - 1)
  }

  /** Shape of an encoded varint: empty exactly for zero, continuation bit on every
      byte but the last, a non-zero last byte, and the groups add up to n. */
  lemma {:induction false} VarintShape(n: nat)
    ensures Varint(n) == [] <==> n == 0
    ensures forall i :: 0 <= i < |Varint(n)| - 1 ==> Varint(n)[i] >= 128
    ensures n > 0 ==> 1 <= Varint(n)[|Varint(n)| - 1] < 128
    ensures GroupsValue(Varint(n)) == n
    decreases n
  {
    if n > 0 {
      VarintShape(n / 128);
      assert Varint(n)[1..] == Varint(n / 128);
    }
  }

  /** n < 128^k exactly when the encoding of n takes at most k bytes. */
  lemma {:induction false} VarintLength(n: nat, k: nat)
    ensures n < Pow128(k) <==> |Varint(n)| <= k
    decreases n
  {
    if n > 0 && k > 0 {
      VarintLength(n / 128, k - 1);
      assert n < 128 * Pow128(k - 1) <==> n / 128 < Pow128(k - 1);
    }
  }

  /** varintToBytes: pushes the low 7 bits of `value` while `value > 0`, shifting it
      right by 7 each round and setting 0x80 when more bits remain. */
  method VarintToBytes(value: nat) returns (result: seq<byte>)
    requires value < TwoTo31
    ensures result == Varint(value)
  {
    result := [];
    var v: nat := value;
    while v > 0
      invariant v <= value
      invariant result + Varint(v) == Varint(value)
      decreases v
    {
      ghost var before := v;
      assert ToInt32(v) == v;
      var b := ToInt32(v) % 128;    // value & 0x7F
      v := ToInt32(v) / 128;        // value >> 7
      if v > 0 {
        b := b + 128;               // byte |= 0x80
      }
      VarintStep(before, result, b);
      result := result + [b];
    }
  }

  lemma VarintStep(n: nat, done: seq<byte>, b: byte)
    requires n > 0 && b == n % 128 + (if n / 128 > 0 then 128 else 0)
    ensures done + Varint(n) == (done + [b]) + Varint(n / 128)
  {
    assert Varint(n) == [b] + Varint(n / 128);
  }

  /** What bytesToVarint(data, start) returns, with every group added at its full
      weight: (value, bytes consumed through the first byte whose high bit is clear).
      Running off the end yields the bytes seen; a start at or past the end yields
      (0, 0). */
  function ReadVarint(data: seq<byte>, start: nat): (r: (nat, nat))
    ensures r.1 == 0 <==> start >= |data|
    ensures start + r.1 <= |data| || r.1 == 0
    decreases |data| - start
  {
    if start >= |data| then (0, 0)
    else if data[start] < 128 then (data[start], 1)
    else
      var rest := ReadVarint(data, start + 1);
      (data[start] - 128 + 128 * rest.0, rest.1 + 1)
  }

  /** One more group below a continuation byte: the rest is worth 128 times as much. */
  lemma ReadVarintCons(data: seq<byte>, start: nat)
    requires start < |data| && data[start] >= 128
    ensures ReadVarint(data, start).0 == data[start] % 128 + 128 * ReadVarint(data, start + 1).0
    ensures ReadVarint(data, start).1 == ReadVarint(data, start + 1).1 + 1
  {
  }

  lemma ScaleStep(value: nat, scale: nat, low: nat, tail: nat)
    ensures value + scale * (low + 128 * tail) == (value + low * scale) + (scale * 128) * tail
    ensures low * scale >= 0
  {
  }

  /** A continuation byte at offset + parsed: its low seven bits are worth `scale`, the
      groups after it 128 times as much. */
  lemma ContinuationStep(data: seq<byte>, offset: nat, parsed: nat, value: nat, scale: nat)
    requires offset + parsed < |data| && data[offset + parsed] >= 128
    requires ReadVarint(data, offset).0 == value + scale * ReadVarint(data, offset + parsed).0
    requires ReadVarint(data, offset).1 == parsed + ReadVarint(data, offset + parsed).1
    ensures ReadVarint(data, offset).0
         == (value + (data[offset + parsed] % 128) * scale) + (scale * 128) * ReadVarint(data, offset + parsed + 1).0
    ensures ReadVarint(data, offset).1 == (parsed + 1) + ReadVarint(data, offset + parsed + 1).1
    ensures (data[offset + parsed] % 128) * scale >= 0 && scale * 128 >= 0
  {
    ReadVarintCons(data, offset + parsed);
    ScaleStep(value, scale, data[offset + parsed] % 128, ReadVarint(data, offset + parsed + 1).0);
  }

  /** A final byte at offset + parsed ends the varint there. */
  lemma FinalStep(data: seq<byte>, offset: nat, parsed: nat, value: nat, scale: nat)
    requires offset + parsed < |data| && data[offset + parsed] < 128
    requires ReadVarint(data, offset).0 == value + scale * ReadVarint(data, offset + parsed).0
    requires ReadVarint(data, offset).1 == parsed + ReadVarint(data, offset + parsed).1
    ensures ReadVarint(data, offset) == (value + data[offset + parsed] * scale, parsed + 1)
    ensures data[offset + parsed] * scale >= 0
  {
    ScaleStep(value, scale, data[offset + parsed], 0);
  }

  /** bytesToVarint, with each 7-bit group weighted by 128^k exactly (see Findings:
      the source weights it with a 32-bit `<<`). */
  method BytesToVarint(data: seq<byte>, offset: nat) returns (value: nat, parsed: nat)
    ensures (value, parsed) == ReadVarint(data, offset)
  {
    value, parsed := 0, 0;
    var scale: nat := 1;
    while offset + parsed < |data|
      invariant offset + parsed <= |data| || parsed == 0
      invariant ReadVarint(data, offset).0 == value + scale * ReadVarint(data, offset + parsed).0
      invariant ReadVarint(data, offset).1 == parsed + ReadVarint(data, offset + parsed).1
      decreases |data| - offset - parsed
    {
      var b := data[offset + parsed];
      if b < 128 {
        FinalStep(data, offset, parsed, value, scale);
        return value + b * scale, parsed + 1;
      }
      ContinuationStep(data, offset, parsed, value, scale);
      value := value + (b % 128) * scale;     // result += (byte & 0x7F) << shift
      scale := scale * 128;                   // shift += 7
      parsed := parsed + 1;
    }
  }

  /** A varint followed by anything decodes to its value, consuming exactly its bytes. */
  lemma {:induction false} ReadVarintOfVarint(pre: seq<byte>, n: nat, rest: seq<byte>)
    requires n > 0
    ensures ReadVarint(pre + Varint(n) + rest, |pre|) == (n, |Varint(n)|)
    decreases n
  {
    var data := pre + Varint(n) + rest;
    assert data[|pre|] == Varint(n)[0];
    if n >= 128 {
      var pre' := pre + [Varint(n)[0]];
      assert data == pre' + Varint(n / 128) + rest;
      ReadVarintOfVarint(pre', n / 128, rest);
    }
  }

  /** bytesToVarint(varintToBytes(n), 0) == (n, |varintToBytes(n)|), zero included. */
  lemma VarintRoundTrip(n: nat)
    ensures ReadVarint(Varint(n), 0) == (n, |Varint(n)|)
  {
    if n > 0 {
      ReadVarintOfVarint([], n, []);
      assert [] + Varint(n) + [] == Varint(n);
    }
  }

  // ---------------------------------------------------------------------------
  // Fields

  /** The tag byte of serializeString: `(fieldNumber << 3) | 2`, cut to a byte by
      `new Buffer([...])`. */
  function Tag(fieldNumber: nat): (t: byte)
    requires fieldNumber < 0x1000_0000
    ensures fieldNumber < 16 ==> t == fieldNumber * 8 + 2 && t < 128
    ensures t % 8 == 2
  {
    (fieldNumber * 8 + 2) % 256
  }

  /** serializeString: tag byte, the value's length as a varint, the value. */
  function SerializeString(fieldNumber: nat, data: seq<byte>): (r: seq<byte>)
    requires fieldNumber < 0x1000_0000 && |data| < TwoTo31
    ensures |r| == 1 + |Varint(|data|)| + |data|
    ensures r[1 + |Varint(|data|)|..] == data
  {
    [Tag(fieldNumber)] + Varint(|data|) + data
  }

  /** Where one round of the parseString loop leaves the cursor. */
  datatype Cursor = Continue(offset: nat, fields: Fields) | Stop(fields: Fields)

  /** One round of the parseString loop at `offset` (inside the buffer): read the tag,
      move past it, and for wire type 2 read the length varint and the value, cut at
      the end of the buffer. A missing length varint stops the loop. */
  function ParseRound(data: seq<byte>, offset: nat, acc: Fields): (c: Cursor)
    requires offset < |data|
    ensures c.Continue? ==> c.offset > offset
  {
    var (value, parsed) := ReadVarint(data, offset);
    var next := offset + parsed;
    if ToInt32(value) % 8 != 2 then Continue(next, acc)
    else LengthField(data, next, acc, ToInt32(value) / 8)
  }

  /** The rest of a round after a wire-type-2 tag: the length varint at `next`, then
      the bytes it counts, cut at the end of the buffer, stored under `field`. A missing
      length varint stops the loop. */
  function LengthField(data: seq<byte>, next: nat, acc: Fields, field: int): (c: Cursor)
    ensures c.Continue? ==> c.offset > next
  {
    var (length, lp) := ReadVarint(data, next);
    if lp == 0 then Stop(acc)
    else Continue(next + length + lp, acc[field := Slice(data, next + lp, next + length + lp)])
  }

  /** What the parseString loop computes from `offset` on, given the fields found so far. */
  function ParseFrom(data: seq<byte>, offset: nat, acc: Fields): Fields
    decreases if offset <= |data| then |data| - offset else 0
  {
    if offset >= |data| then acc
    else match ParseRound(data, offset, acc)
      case Stop(fields) => fields
      case Continue(next, fields) => ParseFrom(data, next, fields)
  }

  function Parse(data: seq<byte>): Fields
  {
    ParseFrom(data, 0, map[])
  }

  /** parseString: reads a tag varint, advances past it, and for wire type 2 reads a
      length varint and that many bytes (cut at the end of the buffer) into the
      field; any other wire type consumes only its tag. The loop ends at the end of
      the buffer or when a length varint is missing. */
  method ParseString(data: seq<byte>) returns (result: Fields)
    ensures result == Parse(data)
  {
    var offset: nat := 0;
    result := map[];
    while offset < |data|
      invariant ParseFrom(data, offset, result) == Parse(data)
      decreases |data| - offset
    {
      var round := ReadField(data, offset, result);
      match round
      case Stop(fields) =>
        return fields;
      case Continue(next, fields) =>
        ParseFromStep(data, offset, result);
        offset, result := next, fields;
    }
  }

  /** The body of the parseString loop (lib/protobuf.js:40-51): one tag, and for wire
      type 2 one length and value; a missing varint returns the fields so far. */
  method ReadField(data: seq<byte>, offset: nat, result: Fields) returns (round: Cursor)
    requires offset < |data|
    ensures round == ParseRound(data, offset, result)
  {
    var value, parsed := BytesToVarint(data, offset);
    if parsed == 0 {
      return Stop(result);
    }
    var next := offset + parsed;
    var tag := ToInt32(value);
    var wireType := tag % 8;      // value & 0x07
    var fieldNumber := tag / 8;   // value >> 3
    if wireType == 2 {
      var length, lp := BytesToVarint(data, next);
      if lp == 0 {
        return Stop(result);
      }
      return Continue(next + length + lp, result[fieldNumber := Slice(data, next + lp, next + length + lp)]);
    }
    return Continue(next, result);
  }

  /** A round that continues hands the rest of the loop its cursor. */
  lemma ParseFromStep(data: seq<byte>, start: nat, acc: Fields)
    requires start < |data| && ParseRound(data, start, acc).Continue?
    ensures ParseFrom(data, start, acc)
         == ParseFrom(data, ParseRound(data, start, acc).offset, ParseRound(data, start, acc).fields)
  {
  }

  /** One round at a serialised field reads exactly that field and moves right after it. */
  lemma ParseFieldRound(pre: seq<byte>, f: nat, d: seq<byte>, rest: seq<byte>, acc: Fields)
    requires f < 16 && 0 < |d| < TwoTo31
    ensures var data := pre + SerializeString(f, d) + rest;
            |pre| < |data| &&
            ParseRound(data, |pre|, acc) == Continue(|pre| + |SerializeString(f, d)|, acc[f := d])
  {
    var t := Tag(f);
    var v := Varint(|d|);
    TagFacts(f);
    Regroup(pre, t, v, d, rest);
    ReadVarintOfVarint(pre, t, v + d + rest);
    ReadVarintOfVarint(pre + [t], |d|, d + rest);
    var start := |pre| + 1 + |v|;
    assert Slice(pre + SerializeString(f, d) + rest, start, start + |d|) == d;
  }

  /** The tag of a field below 16 is a one-byte varint that reads back as itself. */
  lemma TagFacts(f: nat)
    requires f < 16
    ensures Varint(Tag(f)) == [Tag(f)]
    ensures ToInt32(Tag(f)) == Tag(f) && Tag(f) % 8 == 2 && Tag(f) / 8 == f
  {
  }

  /** The ways ParseFieldRound cuts a serialised field inside a buffer. */
  lemma Regroup(pre: seq<byte>, t: byte, v: seq<byte>, d: seq<byte>, rest: seq<byte>)
    ensures pre + ([t] + v + d) + rest == pre + [t] + (v + d + rest)
    ensures pre + ([t] + v + d) + rest == (pre + [t]) + v + (d + rest)
    ensures (pre + ([t] + v + d) + rest)[|pre| + 1 + |v|..|pre| + 1 + |v| + |d|] == d
  {
    var data := pre + ([t] + v + d) + rest;
    assert data == pre + [t] + (v + d + rest);
    assert data == (pre + [t]) + v + (d + rest);
  }

  /** One serialised field inside a buffer is read back as exactly that field, and the
      loop goes on right after it. */
  lemma ParseField(pre: seq<byte>, f: nat, d: seq<byte>, rest: seq<byte>, acc: Fields)
    requires f < 16 && 0 < |d| < TwoTo31
    ensures ParseFrom(pre + SerializeString(f, d) + rest, |pre|, acc)
         == ParseFrom(pre + SerializeString(f, d) + rest, |pre| + |SerializeString(f, d)|, acc[f := d])
  {
    ParseFieldRound(pre, f, d, rest, acc);
    ParseFromStep(pre + SerializeString(f, d) + rest, |pre|, acc);
  }

  /** parseString(serializeString(f, d)) == {f: d} for a non-empty value. */
  lemma FieldRoundTrip(f: nat, d: seq<byte>)
    requires f < 16 && 0 < |d| < TwoTo31
    ensures Parse(SerializeString(f, d)) == map[f := d]
  {
    var data := SerializeString(f, d);
    ParseField([], f, d, [], map[]);
    assert [] + data + [] == data;
    assert ParseFrom(data, |data|, map[f := d]) == map[f := d];
  }

  /** An empty value has an empty length varint, so a field serialised last is dropped. */
  lemma EmptyFieldDropped(pre: seq<byte>, f: nat, acc: Fields)
    requires f < 16
    ensures ParseFrom(pre + SerializeString(f, []), |pre|, acc) == acc
  {
    var data := pre + SerializeString(f, []);
    assert data == pre + Varint(Tag(f)) + [];
    ReadVarintOfVarint(pre, Tag(f), []);
  }

  /** The two-field frame of a request (message, storage name) reads back as both
      fields; an empty storage name leaves only field 1. */
  lemma FrameFieldsRoundTrip(message: seq<byte>, storage: seq<byte>)
    requires 0 < |message| < TwoTo31 && |storage| < TwoTo31
    ensures storage != [] ==> Parse(SerializeString(1, message) + SerializeString(2, storage))
                              == map[1 := message, 2 := storage]
    ensures storage == [] ==> Parse(SerializeString(1, message) + SerializeString(2, storage))
                              == map[1 := message]
  {
    var a, b := SerializeString(1, message), SerializeString(2, storage);
    var data := a + b;
    var first: Fields := map[1 := message];
    var none: Fields := map[];
    ParseFirstField(1, message, b, none);
    assert none[1 := message] == first;
    if storage != [] {
      SecondField(a, storage, first);
    } else {
      EmptyFieldDropped(a, 2, first);
    }
  }

  lemma EmptyPrefix<T>(a: seq<T>, b: seq<T>)
    ensures [] + a + b == a + b
  {
  }

  /** ParseField for the field at the start of the buffer. */
  lemma ParseFirstField(f: nat, d: seq<byte>, rest: seq<byte>, acc: Fields)
    requires f < 16 && 0 < |d| < TwoTo31
    ensures ParseFrom(SerializeString(f, d) + rest, 0, acc)
         == ParseFrom(SerializeString(f, d) + rest, |SerializeString(f, d)|, acc[f := d])
  {
    var s := SerializeString(f, d);
    ParseFieldRound([], f, d, rest, acc);
    EmptyPrefix(s, rest);
    assert ParseRound(s + rest, 0, acc) == Continue(|s|, acc[f := d]);
    ParseFromStep(s + rest, 0, acc);
  }

  lemma SecondField(a: seq<byte>, storage: seq<byte>, first: Fields)
    requires 0 < |storage| < TwoTo31
    ensures ParseFrom(a + SerializeString(2, storage), |a|, first) == first[2 := storage]
  {
    var b := SerializeString(2, storage);
    ParseField(a, 2, storage, [], first);
    assert a + b + [] == a + b;
    assert ParseFrom(a + b, |a + b|, first[2 := storage]) == first[2 := storage];
  }

  /** A repeated field number keeps the value that comes last. */
  lemma LastValueWins(f: nat, first: seq<byte>, second: seq<byte>)
    requires f < 16 && 0 < |first| < TwoTo31 && 0 < |second| < TwoTo31
    ensures Parse(SerializeString(f, first) + SerializeString(f, second)) == map[f := second]
  {
    var a, b := SerializeString(f, first), SerializeString(f, second);
    var none: Fields := map[];
    ParseFirstField(f, first, b, none);
    assert none[f := first] == map[f := first];
    ParseField(a, f, second, [], map[f := first]);
    assert a + b + [] == a + b;
    assert map[f := first][f := second] == map[f := second];
    assert ParseFrom(a + b, |a + b|, map[f := second]) == map[f := second];
  }

  /** A tag whose wire type is not 2 consumes only its own bytes, and each round of the
      loop moves past at least one byte. */
  lemma OtherWireTypeSkipsTag(data: seq<byte>, offset: nat, acc: Fields)
    requires offset < |data|
    requires ToInt32(ReadVarint(data, offset).0) % 8 != 2
    ensures ReadVarint(data, offset).1 >= 1
    ensures ParseFrom(data, offset, acc) == ParseFrom(data, offset + ReadVarint(data, offset).1, acc)
  {
  }

  /** A declared length that runs past the end stores the remaining bytes and ends the
      loop. */
  lemma OverrunTakesRest(data: seq<byte>, offset: nat, acc: Fields)
    requires offset < |data|
    requires ToInt32(ReadVarint(data, offset).0) % 8 == 2
    requires var next := offset + ReadVarint(data, offset).1;
             var len := ReadVarint(data, next);
             len.1 > 0 && next + len.1 + len.0 > |data|
    ensures var next := offset + ReadVarint(data, offset).1;
            var lp := ReadVarint(data, next).1;
            ParseFrom(data, offset, acc) == acc[ToInt32(ReadVarint(data, offset).0) / 8 := data[next + lp..]]
  {
    var next := offset + ReadVarint(data, offset).1;
    var end := next + ReadVarint(data, next).0 + ReadVarint(data, next).1;
    var after := acc[ToInt32(ReadVarint(data, offset).0) / 8 := data[next + ReadVarint(data, next).1..]];
    OverrunRound(data, offset, acc);
    ParseFromStep(data, offset, acc);
    ParseFromPastEnd(data, end, after);
  }

  /** At or past the end the loop has nothing left to read. */
  lemma ParseFromPastEnd(data: seq<byte>, offset: nat, acc: Fields)
    requires offset >= |data|
    ensures ParseFrom(data, offset, acc) == acc
  {
  }

  /** The round of OverrunTakesRest: the value is the rest of the buffer and the cursor
      lands past its end. */
  lemma OverrunRound(data: seq<byte>, offset: nat, acc: Fields)
    requires offset < |data|
    requires ToInt32(ReadVarint(data, offset).0) % 8 == 2
    requires var next := offset + ReadVarint(data, offset).1;
             var len := ReadVarint(data, next);
             len.1 > 0 && next + len.1 + len.0 > |data|
    ensures var next := offset + ReadVarint(data, offset).1;
            var len := ReadVarint(data, next);
            ParseRound(data, offset, acc)
            == Continue(next + len.0 + len.1, acc[ToInt32(ReadVarint(data, offset).0) / 8 := data[next + len.1..]])
  {
    var next := offset + ReadVarint(data, offset).1;
    var len := ReadVarint(data, next);
    SliceToEnd(data, next + len.1, next + len.0 + len.1);
  }

  // ---------------------------------------------------------------------------
  // parseString as written (see Findings in README.md)

  function Pow2(k: nat): (p: nat)
    ensures p >= 1
  {
    if k == 0 then 1 else if k >= 7 then 128 * Pow2(k - 7) else 2 * Pow2(k - 1)
  }

  /** `x << shift` in JavaScript: the count is taken modulo 32 and the result wraps to a
      signed 32-bit integer. */
  function Shl32(x: int, shift: nat): int
  {
    ToInt32(x * Pow2(shift % 32))
  }

  /** bytesToVarint exactly as written: `result += (data[offset + parsed] & 0x7F) << shift`
      with `shift == 7 * parsed`. The offset may be negative; an index outside the buffer
      reads `undefined`, which the bitwise operators turn into 0. */
  function ReadVarintAsWritten(data: seq<byte>, offset: int, parsed: nat, result: int): (int, nat)
    decreases |data| - offset - parsed
  {
    if offset + parsed >= |data| then (result, parsed)
    else
      var b := ByteAt(data, offset + parsed);
      var result' := result + Shl32(b % 128, 7 * parsed);
      if b < 128 then (result', parsed + 1)
      else ReadVarintAsWritten(data, offset, parsed + 1, result')
  }

  /** bytesToVarint(data, offset) as written, from its default arguments. */
  function BytesToVarintAsWritten(data: seq<byte>, offset: int): (int, nat)
  {
    ReadVarintAsWritten(data, offset, 0, 0)
  }

  /** Seven bits of shift per group: 2^(7p) == 128^p. */
  lemma {:induction false} Pow2OfGroups(p: nat)
    ensures Pow2(7 * p) == Pow128(p)
  {
    if p > 0 {
      Pow2OfGroups(p - 1);
      assert 7 * p >= 7 && 7 * p - 7 == 7 * (p - 1);
    }
  }

  /** A group that stays below 2^31 at its full weight is shifted without wrapping:
      from the fifth group on only a zero group can do so. */
  lemma ShlExact(x: nat, p: nat)
    requires Pow128(p) * x < TwoTo31
    ensures Shl32(x, 7 * p) == Pow128(p) * x
  {
    if x > 0 {
      WeightBelow31(x, p);
      ShlInRange(x, p);
    }
  }

  /** Only the first four groups can carry a non-zero value below 2^31. */
  lemma WeightBelow31(x: nat, p: nat)
    requires x > 0 && Pow128(p) * x < TwoTo31
    ensures p <= 4
  {
    AtLeastOnce(x, Pow128(p));
    if p >= 5 {
      Pow128Grows(p);
    }
  }

  lemma ShlInRange(x: nat, p: nat)
    requires p <= 4 && Pow128(p) * x < TwoTo31
    ensures Shl32(x, 7 * p) == Pow128(p) * x
  {
    Pow2OfGroups(p);
    SmallShift(p);
    ShlOfWeight(x, 7 * p, Pow128(p));
  }

  lemma SmallShift(p: nat)
    requires p <= 4
    ensures (7 * p) % 32 == 7 * p
  {
  }

  /** A shift whose weight w keeps the value within 2^31 multiplies by w exactly. */
  lemma ShlOfWeight(x: nat, k: nat, w: nat)
    requires Pow2(k % 32) == w && w * x < TwoTo31
    ensures Shl32(x, k) == w * x
  {
    assert x * w == w * x;
  }

  lemma AtLeastOnce(x: nat, y: nat)
    requires x > 0
    ensures y <= y * x
  {
  }

  lemma {:induction false} Pow128Grows(p: nat)
    requires p >= 5
    ensures Pow128(p) >= TwoTo31
  {
    if p == 5 {
      assert Pow128(5) == 0x8_0000_0000;
    } else {
      Pow128Grows(p - 1);
    }
  }

  /** From group p on, the as-written reader adds the rest of the varint at its full
      weight as long as the total stays below 2^31. */
  lemma {:induction false} ReadVarintAsWrittenFrom(data: seq<byte>, s: nat, p: nat, r: nat)
    requires r + Pow128(p) * ReadVarint(data, s + p).0 < TwoTo31
    ensures ReadVarintAsWritten(data, s, p, r)
         == (r + Pow128(p) * ReadVarint(data, s + p).0, p + ReadVarint(data, s + p).1)
    decreases |data| - s - p
  {
    if s + p < |data| {
      if data[s + p] < 128 {
        FinalGroupAsWritten(data, s, p, r);
      } else {
        ContinuationGroupAsWritten(data, s, p, r);
        ReadVarintAsWrittenFrom(data, s, p + 1, r + Pow128(p) * (data[s + p] % 128));
      }
    }
  }

  /** A last group within 2^31 is added at its full weight and ends the varint. */
  lemma FinalGroupAsWritten(data: seq<byte>, s: nat, p: nat, r: nat)
    requires s + p < |data| && data[s + p] < 128
    requires r + Pow128(p) * ReadVarint(data, s + p).0 < TwoTo31
    ensures ReadVarintAsWritten(data, s, p, r)
         == (r + Pow128(p) * ReadVarint(data, s + p).0, p + ReadVarint(data, s + p).1)
  {
    var b, weight := data[s + p], Pow128(p);
    assert ReadVarint(data, s + p) == (b, 1);
    LastGroupAsWritten(data, s, p, r);
    ShlExact(b, p);
  }

  lemma LastGroupAsWritten(data: seq<byte>, s: nat, p: nat, r: int)
    requires s + p < |data| && data[s + p] < 128
    ensures ReadVarintAsWritten(data, s, p, r) == (r + Shl32(data[s + p], 7 * p), p + 1)
  {
    assert ByteAt(data, s + p) == data[s + p];
  }

  /** A continuation group within 2^31 is added at its full weight, and the rest of the
      varint then weighs 128 times as much. */
  lemma ContinuationGroupAsWritten(data: seq<byte>, s: nat, p: nat, r: nat)
    requires s + p < |data| && data[s + p] >= 128
    requires r + Pow128(p) * ReadVarint(data, s + p).0 < TwoTo31
    ensures ReadVarintAsWritten(data, s, p, r)
         == ReadVarintAsWritten(data, s, p + 1, r + Pow128(p) * (data[s + p] % 128))
    ensures r + Pow128(p) * ReadVarint(data, s + p).0
         == (r + Pow128(p) * (data[s + p] % 128)) + Pow128(p + 1) * ReadVarint(data, s + p + 1).0
    ensures ReadVarint(data, s + p).1 == ReadVarint(data, s + p + 1).1 + 1
    ensures Pow128(p) * (data[s + p] % 128) >= 0
  {
    var low, tail, weight := data[s + p] % 128, ReadVarint(data, s + p + 1).0, Pow128(p);
    ReadVarintCons(data, s + p);
    GroupWeights(low, tail, weight);
    ShlExact(low, p);
    assert ReadVarintAsWritten(data, s, p, r)
        == ReadVarintAsWritten(data, s, p + 1, r + Shl32(low, 7 * p));
  }

  lemma GroupWeights(low: nat, tail: nat, weight: nat)
    ensures weight * (low + 128 * tail) == weight * low + (128 * weight) * tail
    ensures 0 <= weight * low <= weight * (low + 128 * tail)
  {
  }

  /** Below 2^31 the reader as written and the exact-weight reader agree: on every
      varint a well-formed message holds, `<< shift` does not wrap. */
  lemma ReadVarintAgrees(data: seq<byte>, s: nat)
    requires ReadVarint(data, s).0 < TwoTo31
    ensures BytesToVarintAsWritten(data, s) == ReadVarint(data, s)
  {
    ReadVarintAsWrittenFrom(data, s, 0, 0);
  }

  /** bytesToVarint(varintToBytes(n), 0) as written is (n, its length) for every length
      the client serialises. */
  lemma VarintRoundTripAsWritten(n: nat)
    requires n < TwoTo31
    ensures BytesToVarintAsWritten(Varint(n), 0) == (n, |Varint(n)|)
  {
    VarintRoundTrip(n);
    ReadVarintAgrees(Varint(n), 0);
  }

  /** The state of the parseString loop as written: running at an offset, or returned. */
  datatype LoopState = Looping(offset: int, fields: Fields) | Returned(fields: Fields)

  /** One round of the parseString loop as written; the offset is a plain JavaScript
      number and may move backwards when a length decodes as negative. */
  function ParseRoundAsWritten(data: seq<byte>, s: LoopState): LoopState
  {
    match s
    case Returned(_) => s
    case Looping(offset, fields) =>
      if offset >= |data| then Returned(fields)
      else
        var (value, parsed) := BytesToVarintAsWritten(data, offset);
        if parsed == 0 then Returned(fields)
        else if ToInt32(value) % 8 != 2 then Looping(offset + parsed, fields)
        else LengthFieldAsWritten(data, offset + parsed, fields, ToInt32(value) / 8)
  }

  /** The rest of a round as written after a wire-type-2 tag: the length varint at
      `next`, then the bytes it counts stored under `field`. */
  function LengthFieldAsWritten(data: seq<byte>, next: int, fields: Fields, field: int): LoopState
  {
    var (length, lp) := BytesToVarintAsWritten(data, next);
    if lp == 0 then Returned(fields)
    else Looping(next + length + lp, fields[field := Slice(data, next + lp, next + length + lp)])
  }

  /** The loop state after k rounds. */
  function RunAsWritten(data: seq<byte>, s: LoopState, k: nat): LoopState
    decreases k
  {
    if k == 0 then s else RunAsWritten(data, ParseRoundAsWritten(data, s), k - 1)
  }

  /** The exact-weight round as a state of the loop as written. */
  function AsLoopState(c: Cursor): (s: LoopState)
    ensures s.fields == c.fields
    ensures s.Returned? <==> c.Stop?
  {
    match c
    case Continue(offset, fields) => Looping(offset, fields)
    case Stop(fields) => Returned(fields)
  }

  /** The varints one round at `offset` reads are below 2^31: the tag, and for wire
      type 2 the length. */
  ghost predicate RoundBelow31(data: seq<byte>, offset: nat)
  {
    var (value, parsed) := ReadVarint(data, offset);
    value < TwoTo31 && (value % 8 == 2 ==> ReadVarint(data, offset + parsed).0 < TwoTo31)
  }

  /** Where the varints of a round stay below 2^31, the round as written is the
      exact-weight round. */
  lemma ParseRoundAgrees(data: seq<byte>, offset: nat, acc: Fields)
    requires offset < |data| && RoundBelow31(data, offset)
    ensures ParseRoundAsWritten(data, Looping(offset, acc)) == AsLoopState(ParseRound(data, offset, acc))
  {
    var tag := ReadVarint(data, offset);
    ReadVarintAgrees(data, offset);
    if tag.0 % 8 != 2 {
      TagOnlyRound(data, offset, acc, tag);
    } else {
      assert ToInt32(tag.0) == tag.0;
      ReadVarintAgrees(data, offset + tag.1);
      LengthRoundAgrees(data, offset, acc, tag);
    }
  }

  /** A round of wire type 2, with the tag and the length read the same both ways:
      both loops read the same length field. */
  lemma LengthRoundAgrees(data: seq<byte>, offset: nat, acc: Fields, tag: (nat, nat))
    requires offset < |data| && ReadVarint(data, offset) == tag && BytesToVarintAsWritten(data, offset) == tag
    requires ToInt32(tag.0) % 8 == 2 && BytesToVarintAsWritten(data, offset + tag.1) == ReadVarint(data, offset + tag.1)
    ensures ParseRoundAsWritten(data, Looping(offset, acc)) == AsLoopState(ParseRound(data, offset, acc))
  {
    RoundReadsField(data, offset, acc, tag);
    RoundAsWrittenReadsField(data, offset, acc, tag);
    LengthFieldAgrees(data, offset + tag.1, acc, ToInt32(tag.0) / 8);
  }

  /** A round whose tag has another wire type, with the tag read the same both ways. */
  lemma TagOnlyRound(data: seq<byte>, offset: nat, acc: Fields, tag: (nat, nat))
    requires offset < |data| && tag == ReadVarint(data, offset) && tag.0 < TwoTo31 && tag.0 % 8 != 2
    requires BytesToVarintAsWritten(data, offset) == tag
    ensures ParseRound(data, offset, acc) == Continue(offset + tag.1, acc)
    ensures ParseRoundAsWritten(data, Looping(offset, acc)) == Looping(offset + tag.1, acc)
  {
    assert ToInt32(tag.0) == tag.0;
  }

  /** A round that reads a wire-type-2 tag goes on to read the length field. */
  lemma RoundReadsField(data: seq<byte>, offset: nat, acc: Fields, tag: (nat, nat))
    requires offset < |data| && ReadVarint(data, offset) == tag && ToInt32(tag.0) % 8 == 2
    ensures ParseRound(data, offset, acc) == LengthField(data, offset + tag.1, acc, ToInt32(tag.0) / 8)
  {
  }

  /** A round as written that reads a wire-type-2 tag goes on to read the length field. */
  lemma RoundAsWrittenReadsField(data: seq<byte>, offset: int, acc: Fields, tag: (int, nat))
    requires offset < |data| && BytesToVarintAsWritten(data, offset) == tag && tag.1 != 0
    requires ToInt32(tag.0) % 8 == 2
    ensures ParseRoundAsWritten(data, Looping(offset, acc))
         == LengthFieldAsWritten(data, offset + tag.1, acc, ToInt32(tag.0) / 8)
  {
  }

  /** With the length read the same both ways, the length field as written is the
      exact-weight one. */
  lemma LengthFieldAgrees(data: seq<byte>, next: nat, acc: Fields, field: int)
    requires BytesToVarintAsWritten(data, next) == ReadVarint(data, next)
    ensures LengthFieldAsWritten(data, next, acc, field) == AsLoopState(LengthField(data, next, acc, field))
  {
  }

  /** Every round the loop runs from `offset` on reads varints below 2^31. */
  ghost predicate VarintsBelow31(data: seq<byte>, offset: nat, acc: Fields)
    decreases if offset <= |data| then |data| - offset else 0
  {
    offset >= |data| ||
    (RoundBelow31(data, offset) &&
     match ParseRound(data, offset, acc)
     case Stop(_) => true
     case Continue(next, fields) => VarintsBelow31(data, next, fields))
  }

  /** The number of rounds the loop as written runs from `offset` before it returns. */
  function RoundsToReturn(data: seq<byte>, offset: nat, acc: Fields): (k: nat)
    ensures k >= 1
    decreases if offset <= |data| then |data| - offset else 0
  {
    if offset >= |data| then 1
    else match ParseRound(data, offset, acc)
      case Stop(_) => 1
      case Continue(next, fields) => 1 + RoundsToReturn(data, next, fields)
  }

  /** On a buffer whose varints stay below 2^31, parseString as written returns, and it
      returns exactly the fields the exact-weight loop computes. */
  lemma {:induction false} ParseAgrees(data: seq<byte>, offset: nat, acc: Fields)
    requires VarintsBelow31(data, offset, acc)
    ensures RunAsWritten(data, Looping(offset, acc), RoundsToReturn(data, offset, acc))
         == Returned(ParseFrom(data, offset, acc))
    decreases if offset <= |data| then |data| - offset else 0
  {
    var start := Looping(offset, acc);
    if offset >= |data| {
      RunStep(data, start, Returned(acc), 1);
      ParseFromPastEnd(data, offset, acc);
    } else {
      ParseRoundAgrees(data, offset, acc);
      match ParseRound(data, offset, acc)
      case Stop(fields) =>
        RunStep(data, start, Returned(fields), 1);
      case Continue(next, fields) =>
        RunStep(data, start, Looping(next, fields), RoundsToReturn(data, offset, acc));
        ParseFromStep(data, offset, acc);
        ParseAgrees(data, next, fields);
    }
  }

  /** A serialised field's tag and length are below 2^31. */
  lemma FieldRoundBelow31(pre: seq<byte>, f: nat, d: seq<byte>, rest: seq<byte>)
    requires f < 16 && 0 < |d| < TwoTo31
    ensures RoundBelow31(pre + SerializeString(f, d) + rest, |pre|)
  {
    var t := Tag(f);
    var v := Varint(|d|);
    TagFacts(f);
    Regroup(pre, t, v, d, rest);
    ReadVarintOfVarint(pre, t, v + d + rest);
    ReadVarintOfVarint(pre + [t], |d|, d + rest);
  }

  /** Every varint of a request frame's body is below 2^31. */
  lemma FrameVarintsBelow31(message: seq<byte>, storage: seq<byte>)
    requires 0 < |message| < TwoTo31 && |storage| < TwoTo31
    ensures VarintsBelow31(SerializeString(1, message) + SerializeString(2, storage), 0, map[])
  {
    var a, b := SerializeString(1, message), SerializeString(2, storage);
    var data := a + b;
    var none: Fields := map[];
    var first := none[1 := message];
    FieldRoundBelow31([], 1, message, b);
    ParseFieldRound([], 1, message, b, none);
    EmptyPrefix(a, b);
    assert ParseRound(data, 0, none) == Continue(|a|, first);
    if storage != [] {
      FieldRoundBelow31(a, 2, storage, []);
      ParseFieldRound(a, 2, storage, [], first);
      assert a + b + [] == data;
      assert ParseRound(data, |a|, first) == Continue(|data|, first[2 := storage]);
      assert VarintsBelow31(data, |data|, first[2 := storage]);
    } else {
      TagFacts(2);
      assert data == a + Varint(Tag(2)) + [];
      ReadVarintOfVarint(a, Tag(2), []);
      assert ReadVarint(data, |a| + 1) == (0, 0);
      assert ParseRound(data, |a|, first) == Stop(first);
    }
  }

  /** parseString as written reads a request frame's body back: it returns the message
      as field 1 and a non-empty storage name as field 2. */
  lemma FrameParsedAsWritten(message: seq<byte>, storage: seq<byte>)
    requires 0 < |message| < TwoTo31 && |storage| < TwoTo31
    ensures var body := SerializeString(1, message) + SerializeString(2, storage);
            RunAsWritten(body, Looping(0, map[]), RoundsToReturn(body, 0, map[]))
            == Returned(if storage == [] then map[1 := message] else map[1 := message, 2 := storage])
  {
    FrameVarintsBelow31(message, storage);
    ParseAgrees(SerializeString(1, message) + SerializeString(2, storage), 0, map[]);
    FrameFieldsRoundTrip(message, storage);
  }

  /** Field 1, wire type 2, then a five-byte length varint whose last group lands on
      bit 31. */
  const WrappingLength: seq<byte> := [0x0A, 0x80, 0x80, 0x80, 0x80, 0x08]

  /** The length varint of WrappingLength decodes, as written, to -2^31. */
  lemma WrappingLengthIsNegative()
    ensures ReadVarintAsWritten(WrappingLength, 1, 0, 0) == (-TwoTo31, 5)
  {
    var w := WrappingLength;
    LastGroupRead(w);
    EmptyGroup(w, 3);
    EmptyGroup(w, 2);
    EmptyGroup(w, 1);
    EmptyGroup(w, 0);
  }

  /** The fifth byte of the length, 0x08, ends the varint at -2^31. */
  lemma LastGroupRead(w: seq<byte>)
    requires w == WrappingLength
    ensures ReadVarintAsWritten(w, 1, 4, 0) == (-TwoTo31, 5)
  {
    assert ByteAt(w, 5) == 8;
    LastGroupWraps();
  }

  /** The fifth group of WrappingLength, 8 shifted by 28, lands on the sign bit. */
  lemma LastGroupWraps()
    ensures Shl32(8, 28) == -TwoTo31
  {
    Pow2At28();
    assert 8 * Pow2(28 % 32) == TwoTo31;
    assert ToInt32(TwoTo31) == -TwoTo31;
  }

  lemma Pow2At28()
    ensures Pow2(28) == 0x1000_0000
  {
    assert Pow2(7) == 128 * Pow2(0);
    assert Pow2(14) == 128 * Pow2(7);
    assert Pow2(21) == 128 * Pow2(14);
    assert Pow2(28) == 128 * Pow2(21);
  }

  /** A continuation byte 0x80 of WrappingLength adds nothing and reads on. */
  lemma EmptyGroup(w: seq<byte>, p: nat)
    requires w == WrappingLength && p < 4
    ensures ReadVarintAsWritten(w, 1, p, 0) == ReadVarintAsWritten(w, 1, p + 1, 0)
  {
    assert ByteAt(w, 1 + p) == 0x80;
    assert Shl32(0, 7 * p) == 0;
  }

  /** Left of the buffer every byte reads as 0: a one-byte tag of wire type 0, so the
      loop steps forward by one and keeps its fields. */
  lemma NegativeOffsetSteps(offset: int, fields: Fields)
    requires offset < 0
    ensures ParseRoundAsWritten(WrappingLength, Looping(offset, fields)) == Looping(offset + 1, fields)
  {
    assert ReadVarintAsWritten(WrappingLength, offset, 0, 0) == (0, 1);
  }

  /** From offset 0 the first field sends the offset to 6 - 2^31 with field 1 empty. */
  lemma FirstRoundJumpsBack(fields: Fields)
    ensures ParseRoundAsWritten(WrappingLength, Looping(0, fields))
         == Looping(6 - TwoTo31, fields[1 := []])
  {
    var w := WrappingLength;
    WrappingLengthIsNegative();
    assert ReadVarintAsWritten(w, 0, 0, 0) == (10, 1) by {
      assert ByteAt(w, 0) == 10 && Shl32(10, 0) == 10;
    }
    assert ToInt32(10) == 10;
    assert Slice(w, 6, 6 - TwoTo31) == [];
  }

  /** One round from offset -j: one step forward, or from 0 back to 6 - 2^31. */
  lemma RoundFromBehind(j: nat)
    ensures ParseRoundAsWritten(WrappingLength, Looping(-(j as int), map[1 := []]))
         == Looping(-((if j > 0 then j - 1 else TwoTo31 - 6) as int), map[1 := []])
  {
    var m: Fields := map[1 := []];
    if j > 0 {
      NegativeOffsetSteps(-(j as int), m);
    } else {
      FirstRoundJumpsBack(m);
      assert m[1 := []] == m;
    }
  }

  lemma RunStep(data: seq<byte>, s: LoopState, s': LoopState, k: nat)
    requires k > 0 && ParseRoundAsWritten(data, s) == s'
    ensures RunAsWritten(data, s, k) == RunAsWritten(data, s', k - 1)
  {
  }

  /** Any buffer on which a round from offset -j goes to offset -(j - 1), and from 0 back
      to 6 - 2^31, keeps the loop running forever from any such offset. */
  lemma {:induction false} CycleKeepsLooping(data: seq<byte>, m: Fields, j: nat, k: nat)
    requires j <= TwoTo31 - 6
    requires forall i: nat {:trigger ParseRoundAsWritten(data, Looping(-(i as int), m))} ::
               ParseRoundAsWritten(data, Looping(-(i as int), m))
               == Looping(-((if i > 0 then i - 1 else TwoTo31 - 6) as int), m)
    ensures RunAsWritten(data, Looping(-(j as int), m), k).Looping?
    decreases k
  {
    if k > 0 {
      var j' := if j > 0 then j - 1 else TwoTo31 - 6;
      RunStep(data, Looping(-(j as int), m), Looping(-(j' as int), m), k);
      CycleKeepsLooping(data, m, j', k - 1);
    }
  }

  lemma LoopingFromBehind(j: nat, k: nat)
    requires j <= TwoTo31 - 6
    ensures RunAsWritten(WrappingLength, Looping(-(j as int), map[1 := []]), k).Looping?
  {
    var w, m: Fields := WrappingLength, map[1 := []];
    forall i: nat {:trigger ParseRoundAsWritten(w, Looping(-(i as int), m))}
      ensures ParseRoundAsWritten(w, Looping(-(i as int), m))
              == Looping(-((if i > 0 then i - 1 else TwoTo31 - 6) as int), m)
    {
      RoundFromBehind(i);
    }
    CycleKeepsLooping(w, m, j, k);
  }

  /** parseString as written never returns on WrappingLength: after any number of
      rounds the loop is still running. */
  lemma ParseStringAsWrittenLoopsForever()
    ensures forall k: nat :: RunAsWritten(WrappingLength, Looping(0, map[]), k).Looping?
  {
    forall k: nat
      ensures RunAsWritten(WrappingLength, Looping(0, map[]), k).Looping?
    {
      if k > 0 {
        var s0 := Looping(0, map[]);
        FirstRoundJumpsBack(map[]);
        assert ParseRoundAsWritten(WrappingLength, s0) == Looping(-((TwoTo31 - 6) as int), map[1 := []]);
        assert RunAsWritten(WrappingLength, s0, k)
            == RunAsWritten(WrappingLength, ParseRoundAsWritten(WrappingLength, s0), k - 1);
        LoopingFromBehind(TwoTo31 - 6, k - 1);
      }
    }
  }

  /** With groups weighted exactly, the same bytes declare a length of 2^31, which runs
      past the end: field 1 gets the (empty) rest and the loop ends. */
  lemma WrappingLengthParsed()
    ensures Parse(WrappingLength) == map[1 := []]
  {
    var w := WrappingLength;
    assert ReadVarint(w, 5) == (8, 1);
    assert ReadVarint(w, 4) == (1024, 2);
    assert ReadVarint(w, 3) == (131072, 3);
    assert ReadVarint(w, 2) == (16777216, 4);
    assert ReadVarint(w, 1) == (TwoTo31, 5);
    assert ReadVarint(w, 0) == (10, 1);
    assert ToInt32(10) == 10;
    OverrunTakesRest(w, 0, map[]);
  }
}
