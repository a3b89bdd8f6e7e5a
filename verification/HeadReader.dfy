/** Reading one HTTP request head off a socket (`app/src-tauri/src/vncproxy.rs`). */
module HeadReader {
  import opened Basics

  const MAX_HEAD: nat := 64 * 1024
  const CHUNK: nat := 1024
  const CRLF: seq<byte> := [13, 10]
  const CRLFCRLF: seq<byte> := [13, 10, 13, 10]

  /** One call of `read`: some bytes (none of them is end of stream) or an error. */
  datatype ReadResult = Bytes(bytes: seq<byte>) | Broken

  datatype HeadResult =
    | Ok(head: seq<byte>, body: seq<byte>)
    | TooLarge
    | Closed
    | ReadFailed
    | NotUtf8

  predicate Continuation(b: byte) {
    0x80 <= b <= 0xBF
  }

  /** Well-formed UTF-8, as in section 4 of RFC 3629. */
  predicate Utf8(b: seq<byte>) {
    if b == [] then true
    else if b[0] < 0x80 then Utf8(b[1..])
    else if 0xC2 <= b[0] <= 0xDF then |b| >= 2 && Continuation(b[1]) && Utf8(b[2..])
    else if 0xE0 <= b[0] <= 0xEF then
      && |b| >= 3 && Continuation(b[1]) && Continuation(b[2])
      && (b[0] == 0xE0 ==> b[1] >= 0xA0) && (b[0] == 0xED ==> b[1] <= 0x9F)
      && Utf8(b[3..])
    else if 0xF0 <= b[0] <= 0xF4 then
      && |b| >= 4 && Continuation(b[1]) && Continuation(b[2]) && Continuation(b[3])
      && (b[0] == 0xF0 ==> b[1] >= 0x90) && (b[0] == 0xF4 ==> b[1] <= 0x8F)
      && Utf8(b[4..])
    else false
  }

  /** `find_head_end`. */
  function FindHeadEnd(buf: seq<byte>): (r: Option<nat>)
    ensures r.Some? ==> At(buf, CRLFCRLF, r.value) && forall j :: 0 <= j < r.value ==> !At(buf, CRLFCRLF, j)
    ensures r.None? ==> forall j :: 0 <= j ==> !At(buf, CRLFCRLF, j)
  {
    Find(buf, CRLFCRLF)
  }

  /** What the socket honours: at most a chunk per read. */
  ghost predicate Chunked(script: seq<ReadResult>) {
    forall i :: 0 <= i < |script| && script[i].Bytes? ==> |script[i].bytes| <= CHUNK
  }

  predicate Delivers(script: seq<ReadResult>) {
    script != [] && script[0].Bytes? && script[0].bytes != []
  }

  /** Everything the peer sends before the stream ends or breaks. */
  ghost function Delivered(script: seq<ReadResult>): seq<byte> {
    if Delivers(script) then script[0].bytes + Delivered(script[1..]) else []
  }

  /** The stream breaks, rather than ends. */
  ghost predicate Breaks(script: seq<ReadResult>) {
    if Delivers(script) then Breaks(script[1..]) else script != [] && script[0].Broken?
  }

  /** How far the buffer is allowed to fill: to the first chunk boundary at or past
      the limit, or to the end of the stream. */
  ghost function Limit(n: nat, script: seq<ReadResult>): nat
    decreases |script|
  {
    if n < MAX_HEAD && Delivers(script) then Limit(n + |script[0].bytes|, script[1..]) else n
  }

  /** `read_request_head` from a buffer that has already been filled to `buf`: the
      result and the script left over. */
  function ReadHead(buf: seq<byte>, script: seq<ReadResult>): (HeadResult, seq<ReadResult>)
    decreases |script|
  {
    match FindHeadEnd(buf)
    case Some(i) =>
      (if Utf8(buf[..i + 2]) then Ok(buf[..i + 2], buf[i + 4..]) else NotUtf8, script)
    case None =>
      if |buf| >= MAX_HEAD then (TooLarge, script)
      else if script == [] then (Closed, [])
      else if script[0].Broken? then (ReadFailed, script[1..])
      else if script[0].bytes == [] then (Closed, script[1..])
      else ReadHead(buf + script[0].bytes, script[1..])
  }

  class Client {
    var script: seq<ReadResult>

    /** The socket; an exhausted script reads as end of stream. */
    method Read() returns (r: ReadResult)
      modifies this
      ensures if old(script) == [] then r == Bytes([]) && script == []
              else r == old(script)[0] && script == old(script)[1..]
    {
      if script == [] {
        r := Bytes([]);
      } else {
        r, script := script[0], script[1..];
      }
    }

    /** `read_request_head`; every pass returns or lengthens a bounded buffer. */
    method ReadRequestHead() returns (result: HeadResult)
      requires Chunked(script)
      modifies this
      ensures (result, script) == ReadHead([], old(script))
    {
      var buf: seq<byte> := [];
      while FindHeadEnd(buf).None?
        invariant ReadHead(buf, script) == ReadHead([], old(script))
        invariant Chunked(script) && |buf| <= MAX_HEAD + 1023
        decreases MAX_HEAD - |buf|
      {
        if |buf| >= MAX_HEAD {
          return TooLarge;
        }
        var r := Read();
        if r.Broken? {
          return ReadFailed;
        }
        if r.bytes == [] {
          return Closed;
        }
        buf := buf + r.bytes;
      }
      var terminator := FindHeadEnd(buf).value;
      if !Utf8(buf[..terminator + 2]) {
        return NotUtf8;
      }
      return Ok(buf[..terminator + 2], buf[terminator + 4..]);
    }
  }

  /** The head ends at the first terminator of the whole stream, if that one lies
      within the limit; the bytes consumed are head, blank line and body, and what
      follows them is what is still to be read. */
  ghost predicate AcceptsFirstHead(stream: seq<byte>, limit: nat, result: HeadResult, rest: seq<ReadResult>) {
    && result.Ok? && FindHeadEnd(stream).Some?
    && result.head == stream[..FindHeadEnd(stream).value + 2]
    && |result.head| + 2 + |result.body| <= limit
    && stream == result.head + CRLF + result.body + Delivered(rest)
  }

  ghost predicate Fits(stream: seq<byte>, limit: nat) {
    FindHeadEnd(stream).Some? && FindHeadEnd(stream).value + 4 <= limit
  }

  /** What a read that starts from `buf` comes to. */
  ghost predicate ReadsAs(buf: seq<byte>, script: seq<ReadResult>) {
    var stream := buf + Delivered(script);
    var limit := Limit(|buf|, script);
    var (result, rest) := ReadHead(buf, script);
    && (Fits(stream, limit) ==>
          if Utf8(stream[..FindHeadEnd(stream).value + 2])
          then AcceptsFirstHead(stream, limit, result, rest) else result == NotUtf8)
    && (!Fits(stream, limit) ==>
          result == if MAX_HEAD <= limit then TooLarge else if Breaks(script) then ReadFailed else Closed)
  }

  /** For every way of cutting a stream into reads: which result, and what of the
      stream it accounts for. */
  lemma {:induction false} ReadHeadSpec(buf: seq<byte>, script: seq<ReadResult>)
    ensures ReadsAs(buf, script)
    decreases |script|
  {
    hide Utf8, FindHeadEnd;
    LimitGrows(|buf|, script);
    if FindHeadEnd(buf).Some? {
      HeadIsIn(buf, script);
    } else {
      NoHeadYet(buf, Delivered(script));
      if |buf| < MAX_HEAD && Delivers(script) {
        ReadHeadSpec(buf + script[0].bytes, script[1..]);
        assert buf + Delivered(script) == (buf + script[0].bytes) + Delivered(script[1..]);
      }
    }
  }

  lemma HeadIsIn(buf: seq<byte>, script: seq<ReadResult>)
    requires FindHeadEnd(buf).Some?
    ensures ReadsAs(buf, script)
  {
    hide Utf8, Limit;
    LimitGrows(|buf|, script);
    var stream := buf + Delivered(script);
    FindInPrefix(buf, Delivered(script), CRLFCRLF);
    var i := FindHeadEnd(buf).value;
    assert stream[..i + 2] == buf[..i + 2];
    assert buf[i..i + 4][2..] == CRLF;
    assert buf == buf[..i + 2] + CRLF + buf[i + 4..];
  }

  lemma NoHeadYet(buf: seq<byte>, more: seq<byte>)
    requires FindHeadEnd(buf).None?
    ensures FindHeadEnd(buf + more).Some? ==> FindHeadEnd(buf + more).value + 4 > |buf|
  {
    FindInPrefix(buf, more, CRLFCRLF);
  }

  lemma {:induction false} LimitGrows(n: nat, script: seq<ReadResult>)
    ensures n <= Limit(n, script)
    decreases |script|
  {
    if n < MAX_HEAD && Delivers(script) {
      LimitGrows(n + |script[0].bytes|, script[1..]);
    }
  }

  lemma {:induction false} LimitCovers(n: nat, script: seq<ReadResult>)
    requires Chunked(script) && n < MAX_HEAD + CHUNK
    ensures Limit(n, script) < MAX_HEAD + CHUNK
    ensures n + |Delivered(script)| <= Limit(n, script) || MAX_HEAD <= Limit(n, script) <= n + |Delivered(script)|
    decreases |script|
  {
    if n < MAX_HEAD && Delivers(script) {
      LimitCovers(n + |script[0].bytes|, script[1..]);
    }
  }

  /** A head is accepted exactly when it is UTF-8 and its terminator lies within the
      limit, which depends on the cutting only past `MAX_HEAD`: a terminator that
      ends by `MAX_HEAD` is always accepted, one that ends after `MAX_HEAD + 1023`
      never, however the stream is cut. */
  lemma AcceptedExactlyWhen(script: seq<ReadResult>)
    requires Chunked(script)
    ensures var stream := Delivered(script);
            var (result, rest) := ReadHead([], script);
            && (result.Ok? <==> Fits(stream, Limit(0, script)) && Utf8(stream[..FindHeadEnd(stream).value + 2]))
            && (result.Ok? ==> AcceptsFirstHead(stream, 65536 + 1023, result, rest))
            && (Fits(stream, 65536) ==> Fits(stream, Limit(0, script)))
            && (Fits(stream, Limit(0, script)) ==> Fits(stream, 65536 + 1023))
  {
    hide Utf8, ReadHead, Limit, Delivered, FindHeadEnd;
    ReadHeadSpec([], script);
    LimitCovers(0, script);
    assert [] + Delivered(script) == Delivered(script);
  }

  /** Two cuttings of one stream that are both accepted yield the same head, and the
      same bytes after it, body and unread remainder taken together. */
  lemma ChunkingIsIrrelevant(one: seq<ReadResult>, two: seq<ReadResult>)
    requires Chunked(one) && Chunked(two) && Delivered(one) == Delivered(two)
    requires ReadHead([], one).0.Ok? && ReadHead([], two).0.Ok?
    ensures ReadHead([], one).0.head == ReadHead([], two).0.head
    ensures ReadHead([], one).0.body + Delivered(ReadHead([], one).1)
            == ReadHead([], two).0.body + Delivered(ReadHead([], two).1)
  {
    hide Utf8, ReadHead, Limit, Delivered, FindHeadEnd;
    AcceptedExactlyWhen(one);
    AcceptedExactlyWhen(two);
    var (a, restA) := ReadHead([], one);
    var (b, restB) := ReadHead([], two);
    var n := |a.head| + 2;
    var stream := Delivered(one);
    assert a.head + CRLF + a.body + Delivered(restA) == (a.head + CRLF) + (a.body + Delivered(restA));
    assert b.head + CRLF + b.body + Delivered(restB) == (b.head + CRLF) + (b.body + Delivered(restB));
    assert stream[n..] == a.body + Delivered(restA);
    assert stream[n..] == b.body + Delivered(restB);
  }

  // ---- What is UTF-8 ----

  /** The code points that can be encoded: all but the surrogates. */
  ghost predicate IsScalar(c: int) {
    0 <= c <= 0x10FFFF && !(0xD800 <= c <= 0xDFFF)
  }

  /** The bytes of a code point, as in section 3 of RFC 3629. */
  ghost function Octets(c: int): seq<byte>
    requires IsScalar(c)
  {
    if c < 0x80 then [c]
    else if c < 0x800 then [0xC0 + c / 64, 0x80 + c % 64]
    else if c < 0x10000 then [0xE0 + c / 4096, 0x80 + c / 64 % 64, 0x80 + c % 64]
    else [0xF0 + c / 262144, 0x80 + c / 4096 % 64, 0x80 + c / 64 % 64, 0x80 + c % 64]
  }

  ghost predicate IsText(cs: seq<int>) {
    forall i :: 0 <= i < |cs| ==> IsScalar(cs[i])
  }

  ghost function OctetsOf(cs: seq<int>): seq<byte>
    requires IsText(cs)
  {
    if cs == [] then [] else Octets(cs[0]) + OctetsOf(cs[1..])
  }

  /** A byte string is accepted exactly when it is the encoding of some text. */
  lemma Utf8ExactlyWhen(b: seq<byte>)
    ensures Utf8(b) <==> exists cs :: IsText(cs) && OctetsOf(cs) == b
  {
    hide Utf8, OctetsOf;
    if Utf8(b) {
      var cs := TextOf(b);
    }
    if cs :| IsText(cs) && OctetsOf(cs) == b {
      OctetsAreUtf8(cs);
    }
  }

  lemma {:induction false} OctetsAreUtf8(cs: seq<int>)
    requires IsText(cs)
    ensures Utf8(OctetsOf(cs))
  {
    hide Utf8, Octets;
    if cs == [] {
      NothingIsUtf8();
    } else {
      OctetsAreUtf8(cs[1..]);
      OneMore(cs[0], OctetsOf(cs[1..]));
    }
  }

  lemma NothingIsUtf8()
    ensures Utf8([])
  {
  }

  lemma OneMore(c: int, rest: seq<byte>)
    requires IsScalar(c) && Utf8(rest)
    ensures Utf8(Octets(c) + rest)
  {
    var o := Octets(c);
    assert (o + rest)[|o|..] == rest;
  }

  lemma {:induction false} TextOf(b: seq<byte>) returns (cs: seq<int>)
    requires Utf8(b)
    ensures IsText(cs) && OctetsOf(cs) == b
  {
    cs := [];
    if b != [] {
      var c, n := FirstOf(b);
      hide Utf8, Octets;
      cs := TextOf(b[n..]);
      cs := [c] + cs;
      assert b == b[..n] + b[n..];
    }
  }

  /** The code point a text starts with, and how many bytes it takes. */
  lemma FirstOf(b: seq<byte>) returns (c: int, n: nat)
    requires Utf8(b) && b != []
    ensures IsScalar(c) && 0 < n <= |b| && Octets(c) == b[..n] && Utf8(b[n..])
  {
    hide Octets, IsScalar;
    if b[0] < 0x80 {
      c, n := b[0], 1;
      OneOctet(b[0]);
    } else if b[0] <= 0xDF {
      c := TwoOctets(b[0], b[1]);
      n := 2;
    } else if b[0] <= 0xEF {
      c := ThreeOctets(b[0], b[1], b[2]);
      n := 3;
    } else {
      c := FourOctets(b[0], b[1], b[2], b[3]);
      n := 4;
    }
  }

  lemma OneOctet(x: byte)
    requires x < 0x80
    ensures IsScalar(x) && Octets(x) == [x]
  {
  }

  lemma TwoOctets(x: byte, y: byte) returns (c: int)
    requires 0xC2 <= x <= 0xDF && Continuation(y)
    ensures IsScalar(c) && Octets(c) == [x, y]
  {
    var u, v: int := x - 0xC0, y - 0x80;
    c := u * 64 + v;
    assert c / 64 == u && c % 64 == v;
  }

  lemma ThreeOctets(x: byte, y: byte, z: byte) returns (c: int)
    requires 0xE0 <= x <= 0xEF && Continuation(y) && Continuation(z)
    requires (x == 0xE0 ==> y >= 0xA0) && (x == 0xED ==> y <= 0x9F)
    ensures IsScalar(c) && Octets(c) == [x, y, z]
  {
    var u, v, w: int := x - 0xE0, y - 0x80, z - 0x80;
    c := u * 4096 + v * 64 + w;
    assert c % 64 == w && c / 64 == u * 64 + v && c / 4096 == u && c / 64 % 64 == v;
  }

  lemma FourOctets(x: byte, y: byte, z: byte, t: byte) returns (c: int)
    requires 0xF0 <= x <= 0xF4 && Continuation(y) && Continuation(z) && Continuation(t)
    requires (x == 0xF0 ==> y >= 0x90) && (x == 0xF4 ==> y <= 0x8F)
    ensures IsScalar(c) && Octets(c) == [x, y, z, t]
  {
    var u, v, w, r: int := x - 0xF0, y - 0x80, z - 0x80, t - 0x80;
    c := u * 262144 + v * 4096 + w * 64 + r;
    assert c % 64 == r && c / 64 == u * 4096 + v * 64 + w && c / 4096 == u * 64 + v && c / 262144 == u;
    assert c / 64 % 64 == w && c / 4096 % 64 == v;
  }
}
