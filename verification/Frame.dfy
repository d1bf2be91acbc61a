/** The length-prefixed wire frame of lab-1: what the client and the server write, how each
    side reads it back through a stream that arrives in arbitrary pieces, and what happens
    when a write is cut short. */
module Frame {
  import opened Wrappers
  import opened Sequences

  type byte = b: int | 0 <= b < 256
  type Bytes = seq<byte>

  const SIGMA_SIZE: nat := 8
  const HEADER_SIZE: nat := 4
  const MAX_SIZE: nat := 10 * 1024 * 1024

  // ---------- little-endian numbers ----------

  function Pow256(n: nat): (p: nat)
    ensures p > 0
  {
    if n == 0 then 1 else 256 * Pow256(n - 1)
  }

  function Encode(v: nat, size: nat): (bs: Bytes)
    ensures |bs| == size
  {
    if size == 0 then [] else [v % 256] + Encode(v / 256, size - 1)
  }

  function Decode(bs: Bytes): (v: nat)
  {
    if bs == [] then 0 else bs[0] + 256 * Decode(bs[1..])
  }

  lemma {:induction false} DecodeEncode(v: nat, size: nat)
    requires v < Pow256(size)
    ensures Decode(Encode(v, size)) == v
  {
    if size > 0 {
      DecodeEncode(v / 256, size - 1);
      assert Encode(v, size)[1..] == Encode(v / 256, size - 1);
    }
  }

  lemma {:induction false} EncodeDecode(bs: Bytes)
    ensures Decode(bs) < Pow256(|bs|)
    ensures Encode(Decode(bs), |bs|) == bs
  {
    if bs != [] {
      EncodeDecode(bs[1..]);
      assert Decode(bs) / 256 == Decode(bs[1..]) && Decode(bs) % 256 == bs[0];
    }
  }

  lemma SizesFit()
    ensures Pow256(HEADER_SIZE) == 0x1_0000_0000 && Pow256(SIGMA_SIZE) == 0x1_0000_0000_0000_0000
  {
    assert Pow256(2) == 65536 && Pow256(3) == 16777216 && Pow256(5) == 1099511627776;
  }

  /** v without its k least significant bytes. */
  function Shifted(v: nat, k: nat): nat
  {
    if k == 0 then v else Shifted(v / 256, k - 1)
  }

  /** An encoding holds the number's bytes, the least significant first. */
  lemma {:induction false} EncodedByte(v: nat, size: nat, k: nat)
    requires k < size
    ensures Encode(v, size)[k] == Shifted(v, k) % 256
  {
    if k > 0 { EncodedByte(v / 256, size - 1, k - 1); }
  }

  lemma ShiftedIs(v: nat)
    ensures Shifted(v, 0) == v && Shifted(v, 1) == v / 256 && Shifted(v, 2) == v / 65536 && Shifted(v, 3) == v / 16777216
  {
    assert Shifted(v, 2) == Shifted(v / 256, 1) == Shifted(v / 256 / 256, 0);
    assert Shifted(v, 3) == Shifted(v / 256, 2) == Shifted(v / 256 / 256, 1) == Shifted(v / 256 / 256 / 256, 0);
  }

  /** The four bytes of a length. */
  lemma HeaderBytes(n: nat)
    ensures var h := Encode(n, HEADER_SIZE);
            |h| == 4 && h[0] == n % 256 && h[1] == n / 256 % 256 && h[2] == n / 65536 % 256 && h[3] == n / 16777216 % 256
  {
    EncodedByte(n, 4, 0);
    EncodedByte(n, 4, 1);
    EncodedByte(n, 4, 2);
    EncodedByte(n, 4, 3);
    ShiftedIs(n);
  }

  /** The number that four bytes stand for. */
  function Length(h: Bytes): nat
    requires |h| >= 4
  {
    h[0] as int + 256 * (h[1] as int) + 65536 * (h[2] as int) + 16777216 * (h[3] as int)
  }

  lemma {:induction false} HeaderValue(h: Bytes)
    requires |h| == 4
    ensures Decode(h) == Length(h)
  {
    var t := h[1..];
    var u := t[1..];
    assert Decode(u[1..]) == h[3] + 256 * Decode(u[1..][1..]) && u[1..][1..] == [];
    assert Decode(u) == h[2] + 256 * Decode(u[1..]);
    assert Decode(t) == h[1] + 256 * Decode(u);
  }

  // ---------- what is written ----------

  function Prefixed(data: Bytes): Bytes
  {
    Encode(|data|, HEADER_SIZE) + data
  }

  /** The client's frame: the bits of sigma, then the length-prefixed image. */
  function Framed(bits: nat, data: Bytes): Bytes
  {
    Encode(bits, SIGMA_SIZE) + Prefixed(data)
  }

  // ---------- what a complete reader makes of a stream ----------

  datatype IoError = Eof | UnexpectedEof
  datatype FrameError = ReadSigma(io: IoError) | ReadLength(io: IoError) | ReadPayload(io: IoError)
                      | TooLarge(n: nat) | WriteFailed

  /** Reading exactly n bytes: the bytes or the error, and what is left of the stream. */
  function Take(s: Bytes, n: nat): (r: (Result<Bytes, IoError>, Bytes))
  {
    if |s| >= n then (Ok(s[..n]), s[n..])
    else (Err(if s == [] then Eof else UnexpectedEof), [])
  }

  function ParseSigma(s: Bytes): (Result<nat, FrameError>, Bytes)
  {
    var (r, rest) := Take(s, SIGMA_SIZE);
    match r
    case Err(e) => (Err(ReadSigma(e)), rest)
    case Ok(bs) => (Ok(Decode(bs)), rest)
  }

  function ParseBytes(s: Bytes): (Result<Bytes, FrameError>, Bytes)
  {
    var (r, rest) := Take(s, HEADER_SIZE);
    match r
    case Err(e) => (Err(ReadLength(e)), rest)
    case Ok(bs) =>
      var n := Decode(bs);
      if n > MAX_SIZE then (Err(TooLarge(n)), rest)
      else
        var (p, rest') := Take(rest, n);
        match p
        case Err(e) => (Err(ReadPayload(e)), rest')
        case Ok(data) => (Ok(data), rest')
  }

  /** The server's two reads. */
  function ParseFrame(s: Bytes): (Result<(nat, Bytes), FrameError>, Bytes)
  {
    var (r, rest) := ParseSigma(s);
    match r
    case Err(e) => (Err(e), rest)
    case Ok(bits) =>
      var (p, rest') := ParseBytes(rest);
      match p
      case Err(e) => (Err(e), rest')
      case Ok(data) => (Ok((bits, data)), rest')
  }

  /** Reading a length-prefixed payload inverts writing it, exactly: a stream is read
      successfully iff it starts with some admissible payload's encoding, and then that payload
      is returned and everything behind it is left. */
  lemma {:induction false} BytesRoundTrip(s: Bytes, data: Bytes, rest: Bytes)
    ensures ParseBytes(s) == (Ok(data), rest) <==> |data| <= MAX_SIZE && s == Prefixed(data) + rest
  {
    SizesFit();
    if |data| <= MAX_SIZE && s == Prefixed(data) + rest {
      DecodeEncode(|data|, HEADER_SIZE);
      assert s[..HEADER_SIZE] == Encode(|data|, HEADER_SIZE);
      assert s[HEADER_SIZE..] == data + rest;
    }
    if ParseBytes(s) == (Ok(data), rest) {
      EncodeDecode(s[..HEADER_SIZE]);
      assert s == s[..HEADER_SIZE] + s[HEADER_SIZE..];
      assert s[HEADER_SIZE..] == data + rest;
    }
  }

  /** The same for the client's whole frame and the server's reads, for every 64-bit pattern. */
  lemma {:induction false} FrameRoundTrip(s: Bytes, bits: nat, data: Bytes, rest: Bytes)
    ensures ParseFrame(s) == (Ok((bits, data)), rest) <==>
            bits < 0x1_0000_0000_0000_0000 && |data| <= MAX_SIZE && s == Framed(bits, data) + rest
  {
    SizesFit();
    var tail := Prefixed(data) + rest;
    if bits < 0x1_0000_0000_0000_0000 && |data| <= MAX_SIZE && s == Framed(bits, data) + rest {
      DecodeEncode(bits, SIGMA_SIZE);
      assert s[..SIGMA_SIZE] == Encode(bits, SIGMA_SIZE);
      assert s[SIGMA_SIZE..] == tail;
      BytesRoundTrip(tail, data, rest);
    }
    if ParseFrame(s) == (Ok((bits, data)), rest) {
      EncodeDecode(s[..SIGMA_SIZE]);
      BytesRoundTrip(s[SIGMA_SIZE..], data, rest);
      assert s == s[..SIGMA_SIZE] + s[SIGMA_SIZE..];
    }
  }

  /** Every way reading a payload can end, byte by byte: at an incomplete length, at a length above
      10485760, at an incomplete payload, or well. */
  lemma {:induction false} ReadOutcomes(s: Bytes)
    ensures |s| == 0 ==> ParseBytes(s) == (Err(ReadLength(Eof)), [])
    ensures 0 < |s| < 4 ==> ParseBytes(s) == (Err(ReadLength(UnexpectedEof)), [])
    ensures |s| >= 4 ==>
              var n := Length(s);
              && (n > 10485760 ==> ParseBytes(s) == (Err(TooLarge(n)), s[4..]))
              && (n <= 10485760 && |s| == 4 && n > 0 ==> ParseBytes(s) == (Err(ReadPayload(Eof)), []))
              && (n <= 10485760 && 4 < |s| < 4 + n ==> ParseBytes(s) == (Err(ReadPayload(UnexpectedEof)), []))
              && (n <= 10485760 && |s| >= 4 + n ==> ParseBytes(s) == (Ok(s[4..4 + n]), s[4 + n..]))
  {
    if |s| >= 4 {
      HeaderValue(s[..4]);
      assert Length(s[..4]) == Length(s);
      if |s| >= 4 + Length(s) { assert s[4..][..Length(s)] == s[4..4 + Length(s)]; }
    }
  }

  /** And reading a whole request: sigma's eight bytes first, the least significant first. */
  lemma {:induction false} RequestOutcomes(s: Bytes)
    ensures |s| == 0 ==> ParseFrame(s) == (Err(ReadSigma(Eof)), [])
    ensures 0 < |s| < 8 ==> ParseFrame(s) == (Err(ReadSigma(UnexpectedEof)), [])
    ensures |s| >= 8 ==>
              match ParseBytes(s[8..])
              case (Err(e), rest) => ParseFrame(s) == (Err(e), rest)
              case (Ok(data), rest) =>
                var bits := Decode(s[..8]);
                && ParseFrame(s) == (Ok((bits, data)), rest)
                && (forall k: nat :: k < 8 ==> s[k] == Shifted(bits, k) % 256) && Shifted(bits, 8) == 0
  {
    if |s| >= 8 {
      var bits := Decode(s[..8]);
      SizesFit();
      EncodeDecode(s[..8]);
      ShiftedOut(bits, 8);
      forall k: nat | k < 8 ensures s[k] == Shifted(bits, k) % 256 {
        EncodedByte(bits, 8, k);
        assert s[k] == s[..8][k];
      }
    }
  }

  lemma {:induction false} ShiftedOut(v: nat, size: nat)
    requires v < Pow256(size)
    ensures Shifted(v, size) == 0
  {
    if size > 0 { ShiftedOut(v / 256, size - 1); }
  }

  /** The limit itself. */
  lemma {:induction false} Limit(data: Bytes, rest: Bytes)
    ensures |data| == 10485760 ==> ParseBytes(Prefixed(data) + rest) == (Ok(data), rest)
    ensures |data| == 10485761 ==> ParseBytes(Prefixed(data) + rest).0 == Err(TooLarge(10485761))
  {
    if |data| == 10485760 { BytesRoundTrip(Prefixed(data) + rest, data, rest); }
    if |data| == 10485761 {
      var s := Prefixed(data) + rest;
      SizesFit();
      DecodeEncode(|data|, HEADER_SIZE);
      assert s[..4] == Encode(|data|, HEADER_SIZE);
    }
  }

  /** No strict prefix of a frame, however it ends, is read as a frame. */
  lemma {:induction false} StrictPrefixFails(bits: nat, data: Bytes, k: nat)
    requires |data| <= MAX_SIZE && k < |Framed(bits, data)|
    ensures ParseFrame(Framed(bits, data)[..k]).0.Err?
  {
    var f := Framed(bits, data);
    var s := f[..k];
    if ParseFrame(s).0.Ok? {
      var (b, d) := ParseFrame(s).0.value;
      FrameRoundTrip(s, b, d, ParseFrame(s).1);
      SameHeader(bits, data, b, d, s, ParseFrame(s).1, k);
    }
  }

  lemma {:induction false} HeaderOf(bits: nat, data: Bytes)
    ensures Framed(bits, data)[8..12] == Encode(|data|, HEADER_SIZE)
  {
    var h, l := Encode(bits, SIGMA_SIZE), Encode(|data|, HEADER_SIZE);
    MiddleOf(h, l, data);
  }

  lemma {:induction false} MiddleOf(h: Bytes, l: Bytes, d: Bytes)
    ensures (h + (l + d))[|h|..|h| + |l|] == l
  {
  }

  lemma {:induction false} SameHeader(bits: nat, data: Bytes, b: nat, d: Bytes, s: Bytes, rest: Bytes, k: nat)
    requires |data| <= MAX_SIZE && |d| <= MAX_SIZE && k <= |Framed(bits, data)|
    requires s == Framed(bits, data)[..k] && s == Framed(b, d) + rest
    ensures k == |Framed(bits, data)|
  {
    SizesFit();
    HeaderOf(bits, data);
    HeaderOf(b, d);
    assert s[8..12] == Framed(bits, data)[8..12];
    assert s[8..12] == Framed(b, d)[8..12];
    DecodeEncode(|d|, HEADER_SIZE);
    DecodeEncode(|data|, HEADER_SIZE);
  }

  /** Nor is any strict prefix of a length-prefixed payload. */
  lemma {:induction false} StrictPrefixOfBytesFails(data: Bytes, k: nat)
    requires |data| <= MAX_SIZE && k < |Prefixed(data)|
    ensures ParseBytes(Prefixed(data)[..k]).0.Err?
  {
    var s := Prefixed(data)[..k];
    if ParseBytes(s).0.Ok? {
      var d, rest := ParseBytes(s).0.value, ParseBytes(s).1;
      BytesRoundTrip(s, d, rest);
      SizesFit();
      assert s[..4] == Prefixed(data)[..4] == Encode(|data|, HEADER_SIZE);
      assert s[..4] == Prefixed(d)[..4] == Encode(|d|, HEADER_SIZE);
      DecodeEncode(|d|, HEADER_SIZE);
      DecodeEncode(|data|, HEADER_SIZE);
    }
  }

  /** What writeFrame leaves on a connection that accepts only budget bytes. The size is
      checked after sigma has been written. */
  function Sent(bits: nat, data: Bytes, budget: nat): Bytes
  {
    var whole := if |data| > MAX_SIZE then Encode(bits, SIGMA_SIZE) else Framed(bits, data);
    if budget < |whole| then whole[..budget] else whole
  }

  ghost predicate SendSucceeds(bits: nat, data: Bytes, budget: nat)
  {
    |data| <= MAX_SIZE && budget >= |Framed(bits, data)|
  }

  /** End to end over a connection that breaks anywhere and loses any tail of what was written:
      the server's reads succeed iff the whole frame arrived, and then they return what was sent
      and writeFrame has succeeded. If all that was written arrives, they succeed iff writeFrame
      did. */
  lemma {:induction false} ServerAgreesWithClient(bits: nat, data: Bytes, budget: nat, arrived: Bytes)
    requires bits < 0x1_0000_0000_0000_0000 && arrived <= Sent(bits, data, budget)
    ensures ParseFrame(arrived).0.Ok? <==> |data| <= MAX_SIZE && arrived == Framed(bits, data)
    ensures ParseFrame(arrived).0.Ok? ==>
              ParseFrame(arrived) == (Ok((bits, data)), []) && SendSucceeds(bits, data, budget)
    ensures arrived == Sent(bits, data, budget) ==>
              (ParseFrame(arrived).0.Ok? <==> SendSucceeds(bits, data, budget))
  {
    var whole := Framed(bits, data);
    if |data| > MAX_SIZE {
      assert |arrived| <= SIGMA_SIZE;
    } else if |arrived| == |whole| {
      assert arrived == whole;
      assert whole + [] == whole;
      FrameRoundTrip(whole, bits, data, []);
    } else {
      assert arrived == whole[..|arrived|];
      StrictPrefixFails(bits, data, |arrived|);
    }
  }

  // ---------- the connection ----------

  function Flatten(chunks: seq<Bytes>): Bytes
  {
    if chunks == [] then [] else chunks[0] + Flatten(chunks[1..])
  }

  /** The receiving end: bytes arrive in nonempty chunks, and a read returns at most the rest
      of the current one. */
  class Source {
    var chunks: seq<Bytes>

    ghost predicate Valid()
      reads this
    {
      forall i :: 0 <= i < |chunks| ==> chunks[i] != []
    }

    ghost function Stream(): Bytes
      reads this
    {
      Flatten(chunks)
    }

    constructor (chunks: seq<Bytes>)
      requires forall i :: 0 <= i < |chunks| ==> chunks[i] != []
      ensures Valid() && Stream() == Flatten(chunks)
    {
      this.chunks := chunks;
    }

    method Read(want: nat) returns (got: Bytes)
      requires Valid() && want > 0
      modifies this
      ensures Valid()
      ensures got + Stream() == old(Stream()) && |got| <= want
      ensures got == [] <==> old(Stream()) == []
    {
      if |chunks| == 0 {
        return [];
      }
      var c := chunks[0];
      assert c != [];
      if |c| <= want {
        got := c;
        chunks := chunks[1..];
      } else {
        got := c[..want];
        chunks := [c[want..]] + chunks[1..];
        assert chunks[1..] == old(chunks)[1..];
        assert got + (c[want..] + Flatten(chunks[1..])) == c + Flatten(chunks[1..]);
      }
    }
  }

  method CopyInto(buf: array<byte>, n: nat, got: Bytes)
    requires n + |got| <= buf.Length
    modifies buf
    ensures buf[..n + |got|] == old(buf[..n]) + got
  {
    forall i | 0 <= i < |got| {
      buf[n + i] := got[i];
    }
  }

  /** Filling the whole buffer, however many reads it takes. */
  method ReadFull(src: Source, buf: array<byte>) returns (r: Result<(), IoError>)
    requires src.Valid()
    modifies src, buf
    ensures src.Valid()
    ensures var (t, rest) := Take(old(src.Stream()), buf.Length);
            && src.Stream() == rest
            && (r.Ok? <==> t.Ok?) && (r.Ok? ==> buf[..] == t.value) && (r.Err? ==> r.error == t.error)
  {
    var n := 0;
    ghost var all := src.Stream();
    while n < buf.Length
      invariant src.Valid() && 0 <= n <= buf.Length
      invariant buf[..n] + src.Stream() == all
    {
      ghost var before := buf[..n];
      var got := src.Read(buf.Length - n);
      Assoc(before, got, src.Stream());
      if |got| == 0 {
        assert before == all;
        return Err(if n == 0 then Eof else UnexpectedEof);
      }
      CopyInto(buf, n, got);
      n := n + |got|;
    }
    assert buf[..n] == buf[..] == all[..n];
    assert src.Stream() == all[n..];
    return Ok(());
  }

  method ReadFloat64(src: Source) returns (r: Result<nat, FrameError>)
    requires src.Valid()
    modifies src
    ensures src.Valid() && (r, src.Stream()) == ParseSigma(old(src.Stream()))
  {
    var buf := new byte[SIGMA_SIZE];
    var io := ReadFull(src, buf);
    match io {
      case Err(e) => return Err(ReadSigma(e));
      case Ok(_) => return Ok(Decode(buf[..]));
    }
  }

  /** The server's readBytes. */
  method ReadBytes(src: Source) returns (r: Result<Bytes, FrameError>)
    requires src.Valid()
    modifies src
    ensures src.Valid() && (r, src.Stream()) == ParseBytes(old(src.Stream()))
  {
    var lenBuf := new byte[HEADER_SIZE];
    var io := ReadFull(src, lenBuf);
    if io.Err? {
      return Err(ReadLength(io.error));
    }
    var n := Decode(lenBuf[..]);
    if n > MAX_SIZE {
      return Err(TooLarge(n));
    }
    var buf := new byte[n];
    io := ReadFull(src, buf);
    if io.Err? {
      return Err(ReadPayload(io.error));
    }
    return Ok(buf[..]);
  }

  /** The client's readFrame, which reads the server's answer; only its error texts differ. */
  method ReadFrame(src: Source) returns (r: Result<Bytes, FrameError>)
    requires src.Valid()
    modifies src
    ensures src.Valid() && (r, src.Stream()) == ParseBytes(old(src.Stream()))
  {
    var lenBuf := new byte[HEADER_SIZE];
    var io := ReadFull(src, lenBuf);
    match io {
      case Err(e) => return Err(ReadLength(e));
      case Ok(_) =>
    }
    var n := Decode(lenBuf[..]);
    if n > MAX_SIZE {
      return Err(TooLarge(n));
    }
    var buf := new byte[n];
    io := ReadFull(src, buf);
    match io {
      case Err(e) => return Err(ReadPayload(e));
      case Ok(_) => return Ok(buf[..]);
    }
  }

  /** The first two steps of the server's HandleConn. */
  method ReadRequest(src: Source) returns (r: Result<(nat, Bytes), FrameError>)
    requires src.Valid()
    modifies src
    ensures src.Valid() && (r, src.Stream()) == ParseFrame(old(src.Stream()))
  {
    var sigma := ReadFloat64(src);
    if sigma.Err? {
      return Err(sigma.error);
    }
    var data := ReadBytes(src);
    if data.Err? {
      return Err(data.error);
    }
    return Ok((sigma.value, data.value));
  }

  /** The sending end of a connection that breaks once budget more bytes have been accepted. */
  class Sink {
    var written: Bytes
    var budget: nat

    constructor (budget: nat)
      ensures written == [] && this.budget == budget
    {
      this.written, this.budget := [], budget;
    }

    method Write(p: Bytes) returns (ok: bool)
      modifies this
      ensures ok <==> |p| <= old(budget)
      ensures ok ==> written == old(written) + p && budget == old(budget) - |p|
      ensures !ok ==> written == old(written) + p[..old(budget)] && budget == 0
    {
      ok := |p| <= budget;
      if ok {
        written, budget := written + p, budget - |p|;
      } else {
        written, budget := written + p[..budget], 0;
      }
    }
  }

  /** What is on the wire when the connection breaks in each of writeFrame's three writes. */
  lemma {:induction false} SentPieces(bits: nat, data: Bytes, budget: nat)
    ensures var h, l := Encode(bits, SIGMA_SIZE), Encode(|data|, HEADER_SIZE);
            && (budget < 8 ==> Sent(bits, data, budget) == h[..budget])
            && (8 <= budget && |data| > MAX_SIZE ==> Sent(bits, data, budget) == h)
            && (8 <= budget < 12 && |data| <= MAX_SIZE ==> Sent(bits, data, budget) == h + l[..budget - 8])
            && (12 <= budget < 12 + |data| && |data| <= MAX_SIZE ==>
                  Sent(bits, data, budget) == h + l + data[..budget - 12])
            && (12 + |data| <= budget && |data| <= MAX_SIZE ==> Sent(bits, data, budget) == h + l + data)
  {
    var h, l := Encode(bits, SIGMA_SIZE), Encode(|data|, HEADER_SIZE);
    if |data| <= MAX_SIZE {
      Assoc(h, l, data);
      if budget < 12 { CutFirst(h, l + data, budget); CutSecond(h, l, data, budget); }
      else if budget < 12 + |data| { CutThird(h + l, data, budget); }
    }
  }

  lemma {:induction false} CutFirst(h: Bytes, rest: Bytes, k: nat)
    ensures k <= |h| ==> (h + rest)[..k] == h[..k]
  {
  }

  lemma {:induction false} CutSecond(h: Bytes, l: Bytes, d: Bytes, k: nat)
    ensures |h| <= k <= |h| + |l| ==> (h + (l + d))[..k] == h + l[..k - |h|]
  {
  }

  lemma {:induction false} CutThird(hl: Bytes, d: Bytes, k: nat)
    ensures |hl| <= k <= |hl| + |d| ==> (hl + d)[..k] == hl + d[..k - |hl|]
  {
  }

  method WriteFrame(sink: Sink, data: Bytes, bits: nat) returns (r: Result<(), FrameError>)
    modifies sink
    ensures sink.written == old(sink.written) + Sent(bits, data, old(sink.budget))
    ensures r.Ok? <==> SendSucceeds(bits, data, old(sink.budget))
    ensures r == Err(TooLarge(|data|)) <==> |data| > 10485760 && old(sink.budget) >= 8
  {
    ghost var before, budget := sink.written, sink.budget;
    SentPieces(bits, data, budget);
    var header := Encode(bits, SIGMA_SIZE);
    var ok := sink.Write(header);
    if !ok {
      return Err(WriteFailed);
    }
    var n := |data|;
    if n > MAX_SIZE {
      return Err(TooLarge(n));
    }
    var length := Encode(n, HEADER_SIZE);
    ok := sink.Write(length);
    if !ok {
      Assoc(before, header, length[..budget - 8]);
      return Err(WriteFailed);
    }
    Assoc(before, header, length);
    ok := sink.Write(data);
    Assoc(before, header + length, if ok then data else data[..budget - 12]);
    if !ok {
      return Err(WriteFailed);
    }
    return Ok(());
  }

  /** The server's answer; here the size is checked before anything is written. */
  method WriteBytes(sink: Sink, data: Bytes) returns (r: Result<(), FrameError>)
    modifies sink
    ensures |data| > 10485760 ==> r == Err(TooLarge(|data|)) && sink.written == old(sink.written)
    ensures |data| <= 10485760 ==> (r.Ok? <==> |Prefixed(data)| <= old(sink.budget))
    ensures |data| <= 10485760 && r.Ok? ==> sink.written == old(sink.written) + Prefixed(data)
    ensures |data| <= 10485760 && r.Err? ==> sink.written == old(sink.written) + Prefixed(data)[..old(sink.budget)]
  {
    var n := |data|;
    if n > MAX_SIZE {
      return Err(TooLarge(n));
    }
    var ok := sink.Write(Encode(n, HEADER_SIZE));
    if !ok {
      return Err(WriteFailed);
    }
    ok := sink.Write(data);
    if !ok {
      return Err(WriteFailed);
    }
    return Ok(());
  }
}
