/** What a request looks like on the wire (lib/connection.js, sendDataFn): the raw
    framing (8-byte header around a two-field codec frame) and the HTTP/1.0 variant
    (request line, Host, Content-Length, Connection, blank line, body). */
module Wire {
  import opened Bytes
  import Protobuf

  /** The first four bytes of every raw frame, request and reply alike. */
  const Magic: seq<byte> := [0x09, 0x09, 0x00, 0x00]

  /** header(length): the magic, then four bytes `(length & 0xFF << 8k) >> 8k`. The masks
      and shifts act on the signed 32-bit value of length and `new Buffer` keeps the low
      8 bits of each entry, so the four bytes are the base-256 digits, least significant
      first, of that value's 32-bit pattern u. */
  function Header(length: nat): (h: seq<byte>)
    ensures |h| == 8 && h[..4] == Magic
  {
    var u := ToInt32(length) % TwoTo32;
    Magic + [u % 0x100, (u / 0x100) % 0x100, (u / 0x1_0000) % 0x100, (u / 0x100_0000) % 0x100]
  }

  /** `data[4] | data[5] << 8 | data[6] << 16 | data[7] << 24` on a reply's first chunk. The
      four terms occupy disjoint bits, so their `|` is their sum read as a signed 32-bit
      integer; a byte missing from a short chunk reads as 0. */
  function DeclaredLength(data: seq<byte>): (n: int)
    ensures -TwoTo31 <= n < TwoTo31
  {
    ToInt32(ByteAt(data, 4) + 0x100 * ByteAt(data, 5) + 0x1_0000 * ByteAt(data, 6)
            + 0x100_0000 * ByteAt(data, 7))
  }

  lemma Digits(u: int)
    requires 0 <= u < TwoTo32
    ensures u % 0x100 + 0x100 * ((u / 0x100) % 0x100) + 0x1_0000 * ((u / 0x1_0000) % 0x100)
            + 0x100_0000 * ((u / 0x100_0000) % 0x100) == u
  {
    var a := u / 0x100;
    var b := a / 0x100;
    var c := b / 0x100;
    assert u == u % 0x100 + 0x100 * a;
    assert a == a % 0x100 + 0x100 * b;
    assert b == b % 0x100 + 0x100 * c;
    assert b == u / 0x1_0000;
    assert c == u / 0x100_0000;
    assert c < 0x100;
  }

  /** Reading a header back (lib/connection.js:266) yields the signed 32-bit value of the
      length it was built from: the length itself below 2^31. */
  lemma {:induction false} HeaderReadBack(length: nat, rest: seq<byte>)
    ensures DeclaredLength(Header(length) + rest) == ToInt32(length)
    ensures length < TwoTo31 ==> DeclaredLength(Header(length) + rest) == length
  {
    var u := ToInt32(length) % TwoTo32;
    var h := Header(length) + rest;
    Digits(u);
    assert ByteAt(h, 4) + 0x100 * ByteAt(h, 5) + 0x1_0000 * ByteAt(h, 6) + 0x100_0000 * ByteAt(h, 7) == u;
    ToInt32OfResidue(ToInt32(length));
  }

  /** The bytes written on a raw endpoint: header(|frame|) followed by the frame holding
      field 1 = the message and field 2 = the storage name, both as UTF-8. */
  function Frame(message: string, storage: string): (r: seq<byte>)
    requires |Encode(message)| < TwoTo31 && |Encode(storage)| < TwoTo31
  {
    var f := Protobuf.SerializeString(1, Encode(message)) + Protobuf.SerializeString(2, Encode(storage));
    Header(|f|) + f
  }

  /** A frame starts with the magic, declares exactly the bytes that follow the header
      (for frames below 2^31 bytes), and those bytes decode to the message and, when it
      is not empty, the storage name; parseString as written returns the same fields. */
  lemma FrameReadBack(message: string, storage: string)
    requires 0 < |Encode(message)| < TwoTo31 && |Encode(storage)| < TwoTo31
    ensures var fr := Frame(message, storage);
            |fr| >= 8 && fr[..4] == Magic &&
            (|fr| - 8 < TwoTo31 ==> DeclaredLength(fr) == |fr| - 8) &&
            Protobuf.Parse(fr[8..]) == (if storage == [] then map[1 := Encode(message)]
                                        else map[1 := Encode(message), 2 := Encode(storage)]) &&
            Protobuf.RunAsWritten(fr[8..], Protobuf.Looping(0, map[]), Protobuf.RoundsToReturn(fr[8..], 0, map[]))
            == Protobuf.Returned(Protobuf.Parse(fr[8..]))
  {
    var f := Protobuf.SerializeString(1, Encode(message)) + Protobuf.SerializeString(2, Encode(storage));
    var fr := Frame(message, storage);
    assert fr == Header(|f|) + f;
    HeaderReadBack(|f|, f);
    assert fr[8..] == f;
    assert storage == [] <==> Encode(storage) == [];
    Protobuf.FrameFieldsRoundTrip(Encode(message), Encode(storage));
    Protobuf.FrameParsedAsWritten(Encode(message), Encode(storage));
  }

  /** The text `"Content-Length: " + n` writes for a count n. */
  function ContentLengthText(n: nat): (s: string)
    ensures AllDigits(s) && ParseDecimal(s) == n
  {
    DecimalRoundTrip(n);
    NatToString(n)
  }

  /** The HTTP request head with a given Content-Length value. */
  function HttpHeadWith(url: string, host: string, port: string, contentLength: nat): string
  {
    "POST " + url + " HTTP/1.0\r\n"
    + "Host: " + host + ":" + port + "\r\n"
    + "Content-Length: " + ContentLengthText(contentLength) + "\r\n"
    + "Connection: close\r\n"
    + "\r\n"
  }

  /** The head as written: Content-Length is `message.length`, a count of UTF-16 code
      units (see Findings in README.md). */
  function HttpHeadAsWritten(url: string, host: string, port: string, message: string): string
  {
    HttpHeadWith(url, host, port, Utf16Length(message))
  }

  /** The head with Content-Length counting the body's octets, as section 10.4 of
      RFC 1945 defines it. */
  function HttpHead(url: string, host: string, port: string, message: string): string
  {
    HttpHeadWith(url, host, port, |Encode(message)|)
  }

  /** `client.write(header); client.write(message)`: both strings go out as UTF-8, the
      head declaring `message.length`. */
  function HttpRequestAsWritten(url: string, host: string, port: string, message: string): seq<byte>
  {
    Encode(HttpHeadAsWritten(url, host, port, message)) + Encode(message)
  }

  /** The request with the corrected head: the same writes, the head counting octets. */
  function HttpRequest(url: string, host: string, port: string, message: string): seq<byte>
  {
    Encode(HttpHead(url, host, port, message)) + Encode(message)
  }

  /** The corrected head declares exactly the bytes written after it, whatever the text. */
  lemma HttpDeclaresBody(url: string, host: string, port: string, message: string)
    ensures var head := HttpHead(url, host, port, message);
            var req := HttpRequest(url, host, port, message);
            |Encode(head)| <= |req| &&
            req[|Encode(head)|..] == Encode(message) &&
            ParseDecimal(ContentLengthText(|Encode(message)|)) == |req| - |Encode(head)|
  {
    var head := HttpHead(url, host, port, message);
    assert HttpRequest(url, host, port, message)[|Encode(head)|..] == Encode(message);
  }

  /** As written, the request sends the message's UTF-8 bytes after the head, and the
      length the head declares is that byte count exactly when the message is ASCII. */
  lemma HttpAsWrittenDeclaresBodyIffAscii(url: string, host: string, port: string, message: string)
    ensures var head := HttpHeadAsWritten(url, host, port, message);
            var req := HttpRequestAsWritten(url, host, port, message);
            |Encode(head)| <= |req| &&
            req[|Encode(head)|..] == Encode(message) &&
            (ParseDecimal(ContentLengthText(Utf16Length(message))) == |req| - |Encode(head)| <==> IsAscii(message))
  {
    var head := HttpHeadAsWritten(url, host, port, message);
    assert HttpRequestAsWritten(url, host, port, message)[|Encode(head)|..] == Encode(message);
    ByteCountIsLengthIffAscii(message);
  }

  /** "é" is one UTF-16 code unit and two UTF-8 bytes: the head as written declares one
      byte less than it sends. */
  lemma HttpAsWrittenUndercounts()
    ensures Utf16Length("é") == 1 && |Encode("é")| == 2
    ensures ContentLengthText(Utf16Length("é")) == "1" && ContentLengthText(|Encode("é")|) == "2"
  {
    var m := "é";
    assert m[..0] == "";
    assert Encode(m) == EncodeChar('é');
  }
}
