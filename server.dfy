/** The response writer of `src/lib.rs`: `Server::write_response` forces
    chunked transfer encoding, writes the response head followed by a blank
    line, then the body in chunks of at most 4096 bytes, then the last chunk.
    The TCP stream is modelled as the sequence of bytes written to it. */
module Server {
  import opened Wrappers
  import opened Encoding
  import opened Strings
  import opened Http

  /** The largest chunk `write_response` writes. */
  const MaxChunk: nat := 4096

  /** `b"\r\n"`. */
  const Crlf: seq<byte> := [0x0D, 0x0A]

  /** `b"0\r\n\r\n"`: the zero-size chunk that ends the body. */
  const LastChunk: seq<byte> := [0x30, 0x0D, 0x0A, 0x0D, 0x0A]

  /** An output stream: everything written to it, in order. */
  class Stream {
    var written: seq<byte>

    constructor ()
      ensures written == []
    {
      written := [];
    }

    /** `Write::write_all`: appends all of `bs`. */
    method WriteAll(bs: seq<byte>)
      modifies this
      ensures written == old(written) + bs
    {
      written := written + bs;
    }
  }

  /** `cmp::min`. */
  function Min(a: int, b: int): (m: int)
    ensures m <= a && m <= b && (m == a || m == b)
  {
    if a <= b then a else b
  }

  /** The concatenation of a sequence of chunks. */
  function Flatten(cs: seq<seq<byte>>): seq<byte>
  {
    if cs == [] then [] else cs[0] + Flatten(cs[1..])
  }

  /** The chunks `write_response` cuts from `b[start..]`: each of 1 to 4096
      bytes, all but the last exactly 4096, together exactly `b[start..]`. */
  function ChunksFrom(b: seq<byte>, start: nat): (cs: seq<seq<byte>>)
    requires start <= |b|
    ensures forall i :: 0 <= i < |cs| ==> 1 <= |cs[i]| <= MaxChunk
    ensures forall i :: 0 <= i < |cs| - 1 ==> |cs[i]| == MaxChunk
    ensures Flatten(cs) == b[start..]
    ensures cs == [] <==> start == |b|
    decreases |b| - start
  {
    if start == |b| then []
    else
      var len := Min(MaxChunk, |b| - start);
      var rest := ChunksFrom(b, start + len);
      assert b[start..] == b[start..start + len] + b[start + len..];
      assert ([b[start..start + len]] + rest)[1..] == rest;
      [b[start..start + len]] + rest
  }

  /** One chunk on the wire: its size in upper-case hexadecimal, CRLF, the
      bytes, CRLF. */
  function Frame(c: seq<byte>): seq<byte>
  {
    Utf8(Hex(|c|) + "\r\n") + c + Crlf
  }

  /** The frames of a sequence of chunks, in order. */
  function FrameAll(cs: seq<seq<byte>>): seq<byte>
  {
    if cs == [] then [] else Frame(cs[0]) + FrameAll(cs[1..])
  }

  /** The chunked body `write_response` writes: the frames of the body's
      chunks (none for an absent body), then the last chunk. */
  function ChunkedBody(body: Option<seq<byte>>): seq<byte>
  {
    (if body.Some? then FrameAll(ChunksFrom(body.value, 0)) else []) + LastChunk
  }

  /** The response with `Transfer-Encoding: chunked` inserted. */
  function ForceChunked(r: Response): (f: Response)
    ensures f.version == r.version && f.status == r.status && f.body == r.body
    ensures "Transfer-Encoding" in f.headers && f.headers["Transfer-Encoding"] == "chunked"
    ensures f.headers.Keys == r.headers.Keys + {"Transfer-Encoding"}
    ensures forall k :: k in r.headers && k != "Transfer-Encoding" ==> f.headers[k] == r.headers[k]
  {
    r.(headers := r.headers["Transfer-Encoding" := "chunked"])
  }

  /** The response head as written: `to_string` of the forced response and
      a blank line. */
  function Head(r: Response, order: seq<string>): seq<byte>
    requires IsKeyOrder(order, ForceChunked(r).headers)
  {
    Utf8(ResponseText(ForceChunked(r), order) + "\n\n")
  }

  /** Everything `write_response` writes for `r` when the header map is
      iterated in `order`. */
  function WireFormat(r: Response, order: seq<string>): seq<byte>
    requires IsKeyOrder(order, ForceChunked(r).headers)
  {
    Head(r, order) + ChunkedBody(r.body)
  }

  /** `Server::write_response`.  The stream receives exactly the wire format
      of the response. */
  method WriteResponse(stream: Stream, response: Response, order: seq<string>)
    requires IsKeyOrder(order, ForceChunked(response).headers)
    modifies stream
    ensures stream.written == old(stream.written) + WireFormat(response, order)
  {
    var resp := response.(headers := response.headers["Transfer-Encoding" := "chunked"]);
    var body := resp.body;
    stream.WriteAll(Utf8(ResponseText(resp, order) + "\n\n"));
    WriteChunkedBody(stream, body);
    assert resp == ForceChunked(response);
    Regroup(old(stream.written), Head(response, order), ChunkedBody(body));
  }

  /** The body part of `write_response`: the chunk loop and the last chunk. */
  method WriteChunkedBody(stream: Stream, body: Option<seq<byte>>)
    modifies stream
    ensures stream.written == old(stream.written) + ChunkedBody(body)
  {
    ghost var frames: seq<byte> := [];
    if body.Some? {
      var bytes := body.value;
      var start := 0;
      while start < |bytes|
        invariant start <= |bytes|
        invariant old(stream.written) + FrameAll(ChunksFrom(bytes, 0)) == stream.written + FrameAll(ChunksFrom(bytes, start))
        decreases |bytes| - start
      {
        var len := Min(MaxChunk, |bytes| - start);
        var sizeLine := Utf8(Hex(len) + "\r\n");
        var chunk := bytes[start..start + len];
        ghost var before := stream.written;
        stream.WriteAll(sizeLine);
        stream.WriteAll(chunk);
        stream.WriteAll(Crlf);
        ChunkStep(bytes, start);
        WrittenFrame(before, sizeLine, chunk, Crlf, FrameAll(ChunksFrom(bytes, start + len)));
        start := start + len;
      }
      frames := FrameAll(ChunksFrom(bytes, 0));
    }
    assert stream.written == old(stream.written) + frames;
    stream.WriteAll(LastChunk);
  }

  /** The frames from `start` are the frame of the next chunk, then the
      frames after it. */
  lemma ChunkStep(b: seq<byte>, start: nat)
    requires start < |b|
    ensures var len := Min(MaxChunk, |b| - start);
      FrameAll(ChunksFrom(b, start)) ==
        Utf8(Hex(len) + "\r\n") + b[start..start + len] + Crlf + FrameAll(ChunksFrom(b, start + len))
  {
    var len := Min(MaxChunk, |b| - start);
    var cs := ChunksFrom(b, start);
    assert cs[0] == b[start..start + len] && cs[1..] == ChunksFrom(b, start + len);
  }

  /** Appending three pieces one after the other appends their concatenation
      (a regrouping like `Strings.Regroup`, in the shape the chunk loop needs). */
  lemma WrittenFrame(x: seq<byte>, a: seq<byte>, b: seq<byte>, c: seq<byte>, rest: seq<byte>)
    ensures x + (a + b + c + rest) == x + a + b + c + rest
  {
  }

  // ---------------------------------------------------------------------
  // Decoding the chunked body

  /** A CR LF pair at position `i` of `w`. */
  predicate CrlfAt(w: seq<byte>, i: nat)
  {
    i + 2 <= |w| && w[i] == 0x0D && w[i + 1] == 0x0A
  }

  /** The size line at the front of `w`: the chunk size and where its bytes
      start, or None when `w` does not start with hexadecimal digits and a
      CR LF. */
  function SizeLine(w: seq<byte>): (r: Option<(nat, nat)>)
    ensures r.Some? ==> 3 <= r.value.1 <= |w|
  {
    var k := HexRun(w);
    if k == 0 || !CrlfAt(w, k) then None else Some((HexNumber(w[..k]), k + 2))
  }

  /** A reader of the chunked body: a hexadecimal size, CRLF, that many
      bytes, CRLF, repeated until the zero-size chunk, which must be followed
      by exactly one CRLF (no trailer fields). */
  function DecodeChunked(w: seq<byte>): Option<seq<byte>>
    decreases |w|
  {
    var line := SizeLine(w);
    if line.None? then None
    else
      var n, p := line.value.0, line.value.1;
      if n == 0 then
        if |w| == p + 2 && CrlfAt(w, p) then Some([]) else None
      else if !CrlfAt(w, p + n) then None
      else Prepend(w[p..p + n], DecodeChunked(w[p + n + 2..]))
  }

  /** `c` in front of a decoded remainder; failure stays failure. */
  function Prepend(c: seq<byte>, r: Option<seq<byte>>): Option<seq<byte>>
  {
    if r.Some? then Some(c + r.value) else None
  }

  /** The hexadecimal run stops at the first byte that is no digit. */
  lemma {:induction false} HexRunStops(ds: seq<byte>, tail: seq<byte>)
    requires forall i :: 0 <= i < |ds| ==> HexDigitValue(ds[i]) >= 0
    requires tail != [] && HexDigitValue(tail[0]) < 0
    ensures HexRun(ds + tail) == |ds|
  {
    if ds != [] {
      assert (ds + tail)[1..] == ds[1..] + tail;
      HexRunStops(ds[1..], tail);
    } else {
      assert ds + tail == tail;
    }
  }

  lemma Utf8Crlf()
    ensures Utf8("\r\n") == Crlf
  {
    assert "\r\n"[1..] == "\n";
    assert "\n"[1..] == "";
  }

  /** A frame is its size digits, CRLF, the bytes and CRLF. */
  lemma FrameParts(c: seq<byte>)
    ensures Frame(c) == Utf8(Hex(|c|)) + (Crlf + (c + Crlf))
  {
    var hs := Hex(|c|);
    Utf8Append(hs, "\r\n");
    Utf8Crlf();
    calc {
      Frame(c);
      Utf8(hs + "\r\n") + c + Crlf;
      Utf8(hs) + Crlf + c + Crlf;
      { Regroup4(Utf8(hs), Crlf, c, Crlf); }
      Utf8(hs) + (Crlf + (c + Crlf));
    }
  }

  /** Regroupings of four and five pieces, in the shapes the frame proofs need. */
  lemma Regroup4(a: seq<byte>, b: seq<byte>, c: seq<byte>, d: seq<byte>)
    ensures a + b + c + d == a + (b + (c + d))
  {
  }

  /** Reading a frame yields its chunk, followed by what follows it. */
  lemma DecodeFrame(c: seq<byte>, w: seq<byte>)
    requires 1 <= |c|
    ensures DecodeChunked(Frame(c) + w) == Prepend(c, DecodeChunked(w))
  {
    var ds := Utf8(Hex(|c|));
    var tail := Crlf + (c + (Crlf + w));
    FrameAppend(c, w);
    FrameSlices(ds, c, w);
    FrameSizeLine(|c|, tail);
    DecodeSized(ds + tail, |ds| + 2, c, w);
  }

  /** The size line of a frame reads back the frame's size. */
  lemma FrameSizeLine(n: nat, tail: seq<byte>)
    requires CrlfAt(tail, 0)
    ensures SizeLine(Utf8(Hex(n)) + tail) == Some((n, |Utf8(Hex(n))| + 2))
  {
    var ds := Utf8(Hex(n));
    HexBytesValue(n);
    HexRunStops(ds, tail);
    assert (ds + tail)[..|ds|] == ds;
    assert CrlfAt(ds + tail, |ds|);
  }

  /** One unfolding of the reader over a sized chunk whose pieces are known. */
  lemma {:induction false} DecodeSized(v: seq<byte>, p: nat, c: seq<byte>, w: seq<byte>)
    requires 1 <= |c| && SizeLine(v) == Some((|c|, p))
    requires CrlfAt(v, p + |c|)
    requires |v| == p + |c| + 2 + |w|
    requires v[p..p + |c|] == c && v[p + |c| + 2..] == w
    ensures DecodeChunked(v) == Prepend(c, DecodeChunked(w))
  {
    DecodeUnfold(v, |c|, p);
  }

  /** One unfolding of the reader over a chunk of `n` bytes starting at `p`. */
  lemma DecodeUnfold(v: seq<byte>, n: nat, p: nat)
    requires 1 <= n && SizeLine(v) == Some((n, p)) && CrlfAt(v, p + n)
    ensures DecodeChunked(v) == Prepend(v[p..p + n], DecodeChunked(v[p + n + 2..]))
  {
  }

  /** The pieces of a frame followed by more bytes, by position. */
  lemma {:induction false} FrameSlices(ds: seq<byte>, c: seq<byte>, w: seq<byte>)
    ensures var v, k := ds + (Crlf + (c + (Crlf + w))), |ds|;
      && |v| == k + 2 + |c| + 2 + |w|
      && v[..k] == ds
      && CrlfAt(v, k)
      && v[k + 2..k + 2 + |c|] == c
      && CrlfAt(v, k + 2 + |c|)
      && v[k + 2 + |c| + 2..] == w
  {
  }

  lemma FrameAppend(c: seq<byte>, w: seq<byte>)
    ensures Frame(c) + w == Utf8(Hex(|c|)) + (Crlf + (c + (Crlf + w)))
  {
    FrameParts(c);
    Regroup5(Utf8(Hex(|c|)), Crlf, c, Crlf, w);
  }

  lemma Regroup5(a: seq<byte>, b: seq<byte>, c: seq<byte>, d: seq<byte>, e: seq<byte>)
    ensures a + (b + (c + d)) + e == a + (b + (c + (d + e)))
  {
  }

  /** The last chunk reads as the empty remainder. */
  lemma DecodeLastChunk()
    ensures DecodeChunked(LastChunk) == Some([])
  {
    var w := LastChunk;
    assert HexDigitValue(w[0]) == 0;
    assert HexRun(w[1..]) == 0;
    assert HexRun(w) == 1;
    assert w[..1] == [0x30];
    assert HexNumber(w[..1]) == 0;
    assert w[3..] == Crlf;
  }

  /** The frames of chunks of at least one byte, then the last chunk, read
      back as the concatenated chunks. */
  lemma {:induction false} DecodeFrames(cs: seq<seq<byte>>)
    requires forall i :: 0 <= i < |cs| ==> 1 <= |cs[i]|
    ensures DecodeChunked(FrameAll(cs) + LastChunk) == Some(Flatten(cs))
  {
    if cs == [] {
      assert FrameAll(cs) + LastChunk == LastChunk;
      DecodeLastChunk();
    } else {
      DecodeFrames(cs[1..]);
      FramesCons(cs, LastChunk);
      DecodeFrameOnto(cs[0], FrameAll(cs[1..]) + LastChunk, Flatten(cs[1..]));
    }
  }

  /** The first frame, then the frames of the other chunks and a tail. */
  lemma FramesCons(cs: seq<seq<byte>>, tail: seq<byte>)
    requires cs != []
    ensures FrameAll(cs) + tail == Frame(cs[0]) + (FrameAll(cs[1..]) + tail)
    ensures Flatten(cs) == cs[0] + Flatten(cs[1..])
  {
    Regroup(Frame(cs[0]), FrameAll(cs[1..]), tail);
  }

  /** A frame in front of bytes that read as `v` reads as its chunk and `v`. */
  lemma DecodeFrameOnto(c: seq<byte>, rest: seq<byte>, v: seq<byte>)
    requires 1 <= |c| && DecodeChunked(rest) == Some(v)
    ensures DecodeChunked(Frame(c) + rest) == Some(c + v)
  {
    DecodeFrame(c, rest);
  }

  /** The chunked body reads back as the response body; an absent body
      reads as empty. */
  lemma ChunkedBodyRoundTrip(body: Option<seq<byte>>)
    ensures DecodeChunked(ChunkedBody(body)) == Some(if body.Some? then body.value else [])
  {
    if body.Some? {
      DecodeFrames(ChunksFrom(body.value, 0));
    } else {
      assert ChunkedBody(body) == LastChunk;
      DecodeLastChunk();
    }
  }

  /** An empty body and an absent body are written alike. */
  lemma EmptyBodyAsAbsent(r: Response, order: seq<string>)
    requires IsKeyOrder(order, ForceChunked(r).headers)
    requires r.body == Some([])
    ensures WireFormat(r, order) == WireFormat(r.(body := None), order)
  {
    assert ChunksFrom([], 0) == [];
  }

  /** The wire format always ends with the last chunk, and without a body
      (absent or empty) nothing comes between the head and the last chunk. */
  lemma WireFormatEnds(r: Response, order: seq<string>)
    requires IsKeyOrder(order, ForceChunked(r).headers)
    ensures var w := WireFormat(r, order);
      |w| >= |LastChunk| && w[|w| - |LastChunk|..] == LastChunk
    ensures r.body == None || r.body == Some([]) ==> WireFormat(r, order) == Head(r, order) + LastChunk
  {
    var w := WireFormat(r, order);
    var frames := if r.body.Some? then FrameAll(ChunksFrom(r.body.value, 0)) else [];
    assert w == Head(r, order) + frames + LastChunk;
    assert w[|w| - |LastChunk|..] == LastChunk;
    if r.body == Some([]) {
      assert ChunksFrom([], 0) == [];
    }
  }

  /** After the head, the wire format reads back as the response body. */
  lemma WireFormatRoundTrip(r: Response, order: seq<string>)
    requires IsKeyOrder(order, ForceChunked(r).headers)
    ensures var w, h := WireFormat(r, order), Head(r, order);
      |h| <= |w| && w[..|h|] == h &&
      DecodeChunked(w[|h|..]) == Some(if r.body.Some? then r.body.value else [])
  {
    var w, h := WireFormat(r, order), Head(r, order);
    ChunkedBodyRoundTrip(r.body);
    assert w[|h|..] == ChunkedBody(r.body);
  }
}
