/** The reply side of one request (lib/connection.js:255-294): the variables `reply`,
    `content_len` and `received` that sendRequest's data handler advances chunk by
    chunk, as a pure step function. The data handler of Connection.Exchange is proved
    to perform exactly this step. */
module Assembler {
  import opened Bytes
  import Wire

  /** reply (null until a first chunk is accepted), content_len, received. */
  datatype Assembly = Assembly(reply: Option<seq<byte>>, contentLen: int, received: int)

  /** The values sendRequest starts a request with. */
  const Initial: Assembly := Assembly(None, 0, 0)

  /** What a data event leads to besides the new variables: a rejected raw header (the
      handler returns early), nothing yet, or a completed reply (release and decode). */
  datatype Event = Rejected | Pending | Completed

  /** The bytes of a string of characters below 256. */
  function Latin(s: string): (r: seq<byte>)
    requires forall i :: 0 <= i < |s| ==> (s[i] as int) < 256
    ensures |r| == |s|
  {
    seq(|s|, i requires 0 <= i < |s| => s[i] as int)
  }

  /** The characters of a run of bytes. */
  function AsText(bs: seq<byte>): (s: string)
    ensures |s| == |bs|
  {
    seq(|bs|, i requires 0 <= i < |bs| => bs[i] as char)
  }

  /** "\r\n\r\n", the end of an HTTP head. */
  const Separator: seq<byte> := [13, 10, 13, 10]

  const ContentLengthName: seq<byte> := Latin("Content-Length: ")

  predicate OccursAt(data: seq<byte>, pat: seq<byte>, q: nat) {
    q + |pat| <= |data| && data[q..q + |pat|] == pat
  }

  /** `indexOf(pat, from)`: the first occurrence of pat at or after from. */
  function Find(data: seq<byte>, pat: seq<byte>, from: nat): (r: Option<nat>)
    requires |pat| > 0
    ensures r.Some? ==> from <= r.value && OccursAt(data, pat, r.value)
    ensures r.Some? ==> forall q :: from <= q < r.value ==> !OccursAt(data, pat, q)
    ensures r.None? ==> forall q :: from <= q ==> !OccursAt(data, pat, q)
    decreases |data| - from
  {
    if from + |pat| > |data| then None
    else if data[from..from + |pat|] == pat then Some(from)
    else Find(data, pat, from + 1)
  }

  predicate IsDigitByte(b: byte) {
    '0' as int <= b <= '9' as int
  }

  /** The length of the run of decimal digits starting at i. */
  function DigitRun(data: seq<byte>, i: nat): (k: nat)
    ensures i + k <= |data| || k == 0
    ensures forall j :: i <= j < i + k ==> IsDigitByte(data[j])
    ensures i + k < |data| ==> !IsDigitByte(data[i + k])
    decreases |data| - i
  {
    if i < |data| && IsDigitByte(data[i]) then 1 + DigitRun(data, i + 1) else 0
  }

  /** The number a `Content-Length: (\d+)\r\n\r\n` match starting at p captures, if the
      pattern matches there. The digit run must be followed by the separator, so the
      capture is the whole run. */
  function ContentLengthAt(data: seq<byte>, p: nat): Option<nat>
  {
    if p + |ContentLengthName| <= |data| && data[p..p + |ContentLengthName|] == ContentLengthName then
      var start := p + |ContentLengthName|;
      var k := DigitRun(data, start);
      if k >= 1 && start + k + 4 <= |data| && data[start + k..start + k + 4] == Separator then
        var digits := AsText(data[start..start + k]);
        Some(ParseDecimal(digits))
      else None
    else None
  }

  /** Where `reply.match(/Content-Length: (\d+)\r\n\r\n/)` finds its leftmost match at or
      after `from`. */
  function FirstMatch(data: seq<byte>, from: nat): (r: Option<nat>)
    ensures r.Some? ==> from <= r.value && ContentLengthAt(data, r.value).Some?
    ensures r.Some? ==> forall q :: from <= q < r.value ==> ContentLengthAt(data, q).None?
    ensures r.None? ==> forall q :: from <= q ==> ContentLengthAt(data, q).None?
    decreases |data| - from
  {
    if from >= |data| then None
    else if ContentLengthAt(data, from).Some? then Some(from)
    else FirstMatch(data, from + 1)
  }

  /** The number the match captures, if the pattern matches anywhere. */
  function ContentLengthIn(data: seq<byte>): Option<nat>
  {
    match FirstMatch(data, 0)
    case None => None
    case Some(p) => ContentLengthAt(data, p)
  }

  /** The clamp at lib/connection.js:289-293: received never exceeds content_len. */
  function Clamp(received: int, contentLen: int): (r: int)
    ensures r <= contentLen && r <= received
    ensures r == received || r == contentLen
  {
    if received > contentLen then contentLen else received
  }

  /** The tail of the handler: clamp `received`, and complete when it is non-zero and
      equal to `content_len`. */
  function Settle(a: Assembly): (Assembly, Event)
  {
    var r := Clamp(a.received, a.contentLen);
    (a.(received := r), if r != 0 && r == a.contentLen then Completed else Pending)
  }

  predicate HasMagic(data: seq<byte>) {
    |data| >= 4 && data[..4] == Wire.Magic
  }

  /** The data handler's effect on the three variables, for a raw or an HTTP endpoint.
      A first raw chunk must start with the magic (else nothing changes and the request
      fails); its bytes 4..7 give content_len and the rest seeds the reply. A first HTTP
      chunk is kept only when it holds "\r\n\r\n": content_len comes from the first
      `Content-Length: N\r\n\r\n` in it, the bytes after the separator seed the reply.
      Later chunks are appended. */
  function Receive(a: Assembly, data: seq<byte>, http: bool): (r: (Assembly, Event))
    ensures r.1 == Rejected <==> a.reply.None? && !http && !HasMagic(data)
    ensures r.1 == Rejected ==> r.0 == a
    ensures r.1 != Rejected ==> r.0.received <= r.0.contentLen
    ensures r.1 == Completed <==> r.1 != Rejected && r.0.received != 0 && r.0.received == r.0.contentLen
    ensures a.reply.Some? ==> r.0.reply == Some(a.reply.value + data)
  {
    if a.reply.None? then
      if !http then
        if !HasMagic(data) then (a, Rejected)
        else
          var seed := SliceFrom(data, 8);
          Settle(Assembly(Some(seed), Wire.DeclaredLength(data), |seed|))
      else
        var cl := match ContentLengthIn(data) case Some(n) => n case None => a.contentLen;
        match Find(data, Separator, 0)
        case None => Settle(Assembly(None, cl, a.received))
        case Some(loc) =>
          var seed := data[loc + 4..];
          Settle(Assembly(Some(seed), cl, |seed|))
    else
      Settle(Assembly(Some(a.reply.value + data), a.contentLen, a.received + |data|))
  }

  /** The chunks' bytes in order. */
  function Flatten(chunks: seq<seq<byte>>): seq<byte>
  {
    if chunks == [] then [] else chunks[0] + Flatten(chunks[1..])
  }

  /** A sequence of data events: the final variables and the event each chunk caused. */
  function Feed(a: Assembly, chunks: seq<seq<byte>>, http: bool): (r: (Assembly, seq<Event>))
    ensures |r.1| == |chunks|
    decreases |chunks|
  {
    if chunks == [] then (a, [])
    else
      var (b, e) := Receive(a, chunks[0], http);
      var (z, es) := Feed(b, chunks[1..], http);
      (z, [e] + es)
  }

  /** An assembly that has accepted its first chunk: received is the clamped reply size. */
  predicate Accepted(a: Assembly) {
    a.reply.Some? && a.received == Clamp(|a.reply.value|, a.contentLen)
  }

  lemma ClampAdd(x: int, d: nat, cl: int)
    ensures Clamp(Clamp(x, cl) + d, cl) == Clamp(x + d, cl)
  {
  }

  /** Chunking independence: once the first chunk is accepted, the final reply is the
      seed followed by every later byte in order, and received is its clamped size, however
      those bytes were split into chunks. */
  lemma {:induction false} AccumulateAll(a: Assembly, chunks: seq<seq<byte>>, http: bool)
    requires Accepted(a)
    ensures var z := Feed(a, chunks, http).0;
            z == Assembly(Some(a.reply.value + Flatten(chunks)), a.contentLen,
                          Clamp(|a.reply.value + Flatten(chunks)|, a.contentLen))
    decreases |chunks|
  {
    if chunks != [] {
      var r := a.reply.value;
      var b := Receive(a, chunks[0], http).0;
      ClampAdd(|r|, |chunks[0]|, a.contentLen);
      assert b == Assembly(Some(r + chunks[0]), a.contentLen, Clamp(|r + chunks[0]|, a.contentLen));
      AccumulateAll(b, chunks[1..], http);
      assert Feed(a, chunks, http).0 == Feed(b, chunks[1..], http).0;
      assert Flatten(chunks) == chunks[0] + Flatten(chunks[1..]);
      assert r + chunks[0] + Flatten(chunks[1..]) == r + Flatten(chunks);
    } else {
      assert a.reply.value + Flatten(chunks) == a.reply.value;
    }
  }

  /** Two splittings of the same bytes end in the same variables. */
  lemma SplitIrrelevant(a: Assembly, c1: seq<seq<byte>>, c2: seq<seq<byte>>, http: bool)
    requires Accepted(a) && Flatten(c1) == Flatten(c2)
    ensures Feed(a, c1, http).0 == Feed(a, c2, http).0
  {
    AccumulateAll(a, c1, http);
    AccumulateAll(a, c2, http);
  }

  /** A raw reply: after a first chunk with the magic, the reply is every byte after the
      first 8, content_len is bytes 4..7 of the first chunk, and received is the reply's
      size clamped to content_len. */
  lemma RawReplyAssembled(first: seq<byte>, rest: seq<seq<byte>>)
    requires HasMagic(first)
    ensures var z := Feed(Initial, [first] + rest, false).0;
            z.reply == Some(SliceFrom(first, 8) + Flatten(rest)) &&
            z.contentLen == Wire.DeclaredLength(first) &&
            z.received == Clamp(|SliceFrom(first, 8) + Flatten(rest)|, Wire.DeclaredLength(first))
  {
    var chunks := [first] + rest;
    var b := Receive(Initial, first, false).0;
    assert Accepted(b);
    assert chunks[1..] == rest;
    AccumulateAll(b, rest, false);
  }

  /** An HTTP reply: once a chunk holding "\r\n\r\n" arrives, the reply is every byte after
      the first separator, content_len is the number in the first `Content-Length: N\r\n\r\n`
      of that chunk (0 without one), and received is the reply's size clamped to it. */
  lemma HttpReplyAssembled(first: seq<byte>, rest: seq<seq<byte>>)
    requires Find(first, Separator, 0).Some?
    ensures var loc := Find(first, Separator, 0).value;
            var cl := match ContentLengthIn(first) case Some(n) => n case None => 0;
            var z := Feed(Initial, [first] + rest, true).0;
            z.reply == Some(first[loc + 4..] + Flatten(rest)) &&
            z.contentLen == cl &&
            z.received == Clamp(|first[loc + 4..] + Flatten(rest)|, cl)
  {
    var chunks := [first] + rest;
    var b := Receive(Initial, first, true).0;
    assert Accepted(b);
    assert chunks[1..] == rest;
    AccumulateAll(b, rest, true);
  }

  /** Completion is reported at chunk i exactly when content_len is not zero and the
      bytes accumulated through chunk i reach it. */
  lemma {:induction false} CompletedWhenReached(a: Assembly, chunks: seq<seq<byte>>, http: bool, i: nat)
    requires Accepted(a) && i < |chunks|
    ensures Feed(a, chunks, http).1[i] == Completed
        <==> a.contentLen != 0 && |a.reply.value| + |Flatten(chunks[..i + 1])| >= a.contentLen
    decreases i
  {
    var r := a.reply.value;
    var b := Receive(a, chunks[0], http).0;
    ClampAdd(|r|, |chunks[0]|, a.contentLen);
    assert Accepted(b) && b.reply.value == r + chunks[0];
    assert chunks[..1][1..] == [];
    assert Flatten(chunks[..i + 1]) == chunks[0] + Flatten(chunks[1..][..i]) by {
      assert chunks[..i + 1][0] == chunks[0];
      assert chunks[..i + 1][1..] == chunks[1..][..i];
    }
    if i > 0 {
      CompletedWhenReached(b, chunks[1..], http, i - 1);
      assert chunks[1..][..i - 1 + 1] == chunks[1..][..i];
    }
  }

  lemma {:induction false} FlattenPrefixGrows(chunks: seq<seq<byte>>, i: nat, j: nat)
    requires i < j <= |chunks|
    requires forall k :: 0 <= k < |chunks| ==> chunks[k] != []
    ensures |Flatten(chunks[..i])| < |Flatten(chunks[..j])|
    decreases j
  {
    assert chunks[..j] == chunks[..j - 1] + [chunks[j - 1]];
    FlattenAppend(chunks[..j - 1], [chunks[j - 1]]);
    assert Flatten([chunks[j - 1]]) == chunks[j - 1] + Flatten([]);
    if i < j - 1 {
      FlattenPrefixGrows(chunks, i, j - 1);
    }
  }

  lemma {:induction false} FlattenAppend(c1: seq<seq<byte>>, c2: seq<seq<byte>>)
    ensures Flatten(c1 + c2) == Flatten(c1) + Flatten(c2)
    decreases |c1|
  {
    if c1 != [] {
      assert (c1 + c2)[0] == c1[0];
      assert (c1 + c2)[1..] == c1[1..] + c2;
      FlattenAppend(c1[1..], c2);
      assert Flatten(c1 + c2) == c1[0] + Flatten(c1[1..] + c2);
    } else {
      assert c1 + c2 == c2;
    }
  }

  /** When exactly the missing content_len bytes arrive in non-empty chunks, completion
      is reported once, at the last chunk. */
  lemma CompletesOnceAtEnd(a: Assembly, chunks: seq<seq<byte>>, http: bool)
    requires Accepted(a) && |a.reply.value| < a.contentLen
    requires forall k :: 0 <= k < |chunks| ==> chunks[k] != []
    requires |a.reply.value| + |Flatten(chunks)| == a.contentLen
    ensures forall i :: 0 <= i < |chunks| ==> (Feed(a, chunks, http).1[i] == Completed <==> i == |chunks| - 1)
  {
    forall i | 0 <= i < |chunks|
      ensures Feed(a, chunks, http).1[i] == Completed <==> i == |chunks| - 1
    {
      CompletedWhenReached(a, chunks, http, i);
      assert chunks[..|chunks|] == chunks;
      if i < |chunks| - 1 {
        FlattenPrefixGrows(chunks, i + 1, |chunks|);
      }
    }
  }

  /** A match of the Content-Length pattern contains the separator. */
  lemma MatchHasSeparator(data: seq<byte>)
    requires ContentLengthIn(data).Some?
    ensures Find(data, Separator, 0).Some?
  {
    var p := FirstMatch(data, 0).value;
    var start := p + |ContentLengthName|;
    var k := DigitRun(data, start);
    assert OccursAt(data, Separator, start + k);
  }

  /** A first HTTP chunk without "\r\n\r\n" is dropped: the variables stay as they were
      and the next chunk is again read as the start of the reply. */
  lemma HttpHeadChunkDiscarded(data: seq<byte>)
    requires Find(data, Separator, 0).None?
    ensures Receive(Initial, data, true) == (Initial, Pending)
  {
    if ContentLengthIn(data).Some? {
      MatchHasSeparator(data);
    }
  }
}
