/** The HTTP/2 requests of the corpus tool, printed and decoded. */
module Http2 {
  import opened Bytes
  import opened Hpack
  import opened Wrappers

  type Header = (Bytes, Bytes)

  // ---------------------------------------------------------------------
  // Header blocks
  // ---------------------------------------------------------------------

  /** `hpack_raw_string`: section 5.2 of RFC 7541, without Huffman coding. */
  function EncodeString(value: Bytes): (r: Bytes)
    ensures |r| > 0
  {
    EncodeInteger(|value|, 7, 0) + value
  }

  /** `hpack_literal`: section 6.2.2 of RFC 7541, with an indexed name. */
  function EncodeLiteral(index: nat, value: Bytes): Bytes {
    EncodeInteger(index, 4, 0) + EncodeString(value)
  }

  /** `hpack_literal_name`: the same with a new name. */
  function EncodeLiteralName(h: Header): Bytes {
    [0] + EncodeString(h.0) + EncodeString(h.1)
  }

  function EncodeHeaders(headers: seq<Header>): Bytes {
    if headers == [] then [] else EncodeLiteralName(headers[0]) + EncodeHeaders(headers[1..])
  }

  /** A string literal: its bytes and how many it takes; a Huffman-coded one is not read. */
  function DecodeString(s: Bytes): (r: Option<(Bytes, nat)>)
    ensures r.Some? ==> r.value.1 <= |s|
  {
    if s == [] || s[0] >= 128 then None
    else
      match DecodeInteger(7, s)
      case None => None
      case Some((length, used)) =>
        if used + length > |s| then None else Some((s[used..used + length], used + length))
  }

  /** The first entries of the static table: appendix A of RFC 7541. */
  function StaticEntry(index: nat): Option<Header> {
    match index
    case 1 => Some((Ascii(":authority"), []))
    case 2 => Some((Ascii(":method"), Ascii("GET")))
    case 3 => Some((Ascii(":method"), Ascii("POST")))
    case 4 => Some((Ascii(":path"), Ascii("/")))
    case 5 => Some((Ascii(":path"), Ascii("/index.html")))
    case 6 => Some((Ascii(":scheme"), Ascii("http")))
    case 7 => Some((Ascii(":scheme"), Ascii("https")))
    case _ => None
  }

  /** One representation: an indexed field (section 6.1) or a literal without
      indexing (section 6.2.2); the others are not read. */
  function DecodeField(s: Bytes): (r: Option<(Header, nat)>)
    ensures r.Some? ==> 0 < r.value.1 <= |s|
  {
    if s == [] then None
    else if s[0] >= 128 then
      match DecodeInteger(7, s)
      case None => None
      case Some((index, used)) =>
        match StaticEntry(index)
        case None => None
        case Some(entry) => Some((entry, used))
    else if s[0] >= 16 then None
    else
      match DecodeInteger(4, s)
      case None => None
      case Some((index, used)) =>
        if index == 0 then
          match DecodeString(s[used..])
          case None => None
          case Some((name, n)) => DecodeValue(name, s, used + n)
        else
          match StaticEntry(index)
          case None => None
          case Some(entry) => DecodeValue(entry.0, s, used)
  }

  function DecodeValue(name: Bytes, s: Bytes, from: nat): (r: Option<(Header, nat)>)
    requires 0 < from <= |s|
    ensures r.Some? ==> 0 < r.value.1 <= |s|
  {
    match DecodeString(s[from..])
    case None => None
    case Some((value, n)) => Some(((name, value), from + n))
  }

  function DecodeBlock(s: Bytes): Option<seq<Header>> {
    if s == [] then Some([])
    else
      match DecodeField(s)
      case None => None
      case Some((h, used)) =>
        match DecodeBlock(s[used..])
        case None => None
        case Some(others) => Some([h] + others)
  }

  lemma SmallFirstByte(value: nat, bits: nat)
    requires bits == 4 || bits == 7
    ensures EncodeInteger(value, bits, 0)[0] < Power(2, bits)
    ensures LowBits(0, bits) == 0
  {
    OrZero(Min(value, PrefixMax(bits)));
    ZeroBits(bits);
  }

  lemma {:induction false} ZeroBits(bits: nat)
    ensures LowBits(0, bits) == 0
  {
    if bits > 0 { ZeroBits(bits - 1); }
  }

  lemma StringRoundTrip(value: Bytes, rest: Bytes)
    ensures DecodeString(EncodeString(value) + rest) == Some((value, |EncodeString(value)|))
    ensures (EncodeString(value) + rest)[|EncodeString(value)|..] == rest
  {
    hide EncodeInteger, DecodeInteger, LowBits, HighBits;
    var e := EncodeInteger(|value|, 7, 0);
    var s := EncodeString(value) + rest;
    assert s == e + (value + rest);
    SmallFirstByte(|value|, 7);
    EighthPower();
    IntegerRoundTrip(|value|, 7, 0, value + rest);
    assert s[|e|..|e| + |value|] == value;
  }

  lemma LiteralRoundTrip(index: nat, value: Bytes, rest: Bytes)
    requires 1 <= index <= 7
    ensures var (e, name) := (EncodeLiteral(index, value), StaticEntry(index).value.0);
            DecodeField(e + rest) == Some(((name, value), |e|)) && (e + rest)[|e|..] == rest
  {
    hide EncodeInteger, DecodeInteger, LowBits, HighBits, EncodeString, DecodeString, Ascii;
    var i := EncodeInteger(index, 4, 0);
    var s := EncodeLiteral(index, value) + rest;
    var tail := EncodeString(value) + rest;
    assert s == i + tail;
    SmallFirstByte(index, 4);
    EighthPower();
    IntegerRoundTrip(index, 4, 0, tail);
    StringRoundTrip(value, rest);
    assert s[|EncodeLiteral(index, value)|..] == rest;
  }

  lemma LiteralNameRoundTrip(h: Header, rest: Bytes)
    ensures var e := EncodeLiteralName(h);
            DecodeField(e + rest) == Some((h, |e|)) && (e + rest)[|e|..] == rest
  {
    ZeroIndex();
    hide EncodeInteger, DecodeInteger, EncodeString, DecodeString, Ascii;
    var s := EncodeLiteralName(h) + rest;
    var tail := EncodeString(h.1) + rest;
    assert s == [0] + (EncodeString(h.0) + tail);
    IntegerRoundTrip(0, 4, 0, EncodeString(h.0) + tail);
    assert s[1..] == EncodeString(h.0) + tail;
    StringRoundTrip(h.0, tail);
    assert s[1 + |EncodeString(h.0)|..] == tail;
    StringRoundTrip(h.1, rest);
    assert s[|EncodeLiteralName(h)|..] == rest;
  }

  lemma ZeroIndex()
    ensures EncodeInteger(0, 4, 0) == [0] && LowBits(0, 4) == 0
  {
    ZeroBits(4);
    EighthPower();
    OrZero(0);
  }

  lemma {:induction false} HeadersRoundTrip(headers: seq<Header>)
    ensures DecodeBlock(EncodeHeaders(headers)) == Some(headers)
  {
    hide EncodeLiteralName, DecodeField;
    if headers != [] {
      LiteralNameRoundTrip(headers[0], EncodeHeaders(headers[1..]));
      HeadersRoundTrip(headers[1..]);
      assert [headers[0]] + headers[1..] == headers;
    }
  }

  // ---------------------------------------------------------------------
  // Requests
  // ---------------------------------------------------------------------

  datatype Request = Request(httpMethod: Bytes, path: Bytes, endStream: bool, headers: seq<Header>, stream: nat)

  /** The header block of `h2_request_headers`. */
  function RequestBlock(q: Request): Bytes {
    (if q.httpMethod == Ascii("GET") then [0x82] else EncodeLiteral(2, q.httpMethod))
    + [0x86] + EncodeLiteral(4, q.path) + EncodeLiteral(1, Ascii("localhost")) + EncodeHeaders(q.headers)
  }

  /** The fields the request means. */
  function RequestFields(q: Request): seq<Header> {
    [(Ascii(":method"), q.httpMethod), (Ascii(":scheme"), Ascii("http")), (Ascii(":path"), q.path),
     (Ascii(":authority"), Ascii("localhost"))] + q.headers
  }

  lemma IndexedField(first: byte, rest: Bytes)
    requires first == 0x82 || first == 0x86
    ensures DecodeField([first] + rest) == Some((StaticEntry(first - 0x80).value, 1))
    ensures ([first] + rest)[1..] == rest
  {
    EighthPower();
    LowBitsOfSum(1, first - 0x80, 7);
  }

  lemma BlockStep(s: Bytes, h: Header, used: nat, others: seq<Header>)
    requires DecodeField(s) == Some((h, used)) && DecodeBlock(s[used..]) == Some(others)
    ensures DecodeBlock(s) == Some([h] + others)
  {
    hide DecodeField;
  }

  /** The part of a request block behind the scheme. */
  function Target(q: Request): Bytes {
    EncodeLiteral(4, q.path) + (EncodeLiteral(1, Ascii("localhost")) + EncodeHeaders(q.headers))
  }

  lemma TargetRoundTrip(q: Request)
    ensures DecodeBlock(Target(q))
            == Some([(Ascii(":path"), q.path)] + ([(Ascii(":authority"), Ascii("localhost"))] + q.headers))
  {
    hide EncodeLiteral, EncodeHeaders, DecodeField, DecodeBlock, Ascii;
    var authority := EncodeLiteral(1, Ascii("localhost"));
    HeadersRoundTrip(q.headers);
    LiteralRoundTrip(1, Ascii("localhost"), EncodeHeaders(q.headers));
    BlockStep(authority + EncodeHeaders(q.headers), (Ascii(":authority"), Ascii("localhost")), |authority|, q.headers);
    LiteralRoundTrip(4, q.path, authority + EncodeHeaders(q.headers));
    BlockStep(Target(q), (Ascii(":path"), q.path), |EncodeLiteral(4, q.path)|,
              [(Ascii(":authority"), Ascii("localhost"))] + q.headers);
  }

  /** Decoding the block of a request yields its pseudo-headers, then its headers. */
  lemma RequestBlockRoundTrip(q: Request)
    ensures DecodeBlock(RequestBlock(q)) == Some(RequestFields(q))
  {
    hide EncodeLiteral, EncodeHeaders, DecodeField, DecodeBlock, Ascii;
    var m := if q.httpMethod == Ascii("GET") then [0x82] else EncodeLiteral(2, q.httpMethod);
    var rest := [0x86] + Target(q);
    var behind := [(Ascii(":path"), q.path)] + ([(Ascii(":authority"), Ascii("localhost"))] + q.headers);
    assert RequestBlock(q) == m + rest;
    TargetRoundTrip(q);
    IndexedField(0x86, Target(q));
    BlockStep(rest, (Ascii(":scheme"), Ascii("http")), 1, behind);
    if q.httpMethod == Ascii("GET") { IndexedField(0x82, rest); } else { LiteralRoundTrip(2, q.httpMethod, rest); }
    BlockStep(m + rest, (Ascii(":method"), q.httpMethod), |m|, [(Ascii(":scheme"), Ascii("http"))] + behind);
    assert [(Ascii(":method"), q.httpMethod)] + ([(Ascii(":scheme"), Ascii("http"))] + behind) == RequestFields(q);
  }

  // ---------------------------------------------------------------------
  // Frames
  // ---------------------------------------------------------------------

  type Payload = p: Bytes | |p| <= 0xFFFFFF
  type StreamId = n: nat | n < 0x8000_0000

  const HEADERS: byte := 1
  const CONTINUATION: byte := 9
  const END_STREAM: byte := 1
  const END_HEADERS: byte := 4

  datatype Frame = Frame(kind: byte, flags: byte, stream: StreamId, payload: Payload)

  /** `h2_frame`: section 4.1 of RFC 9113; None is the ValueError. The reserved bit
      of the stream id is cleared. */
  function MakeFrame(kind: byte, flags: byte, stream: nat, payload: Bytes): Option<Bytes> {
    if |payload| > 0xFFFFFF then None
    else Some(EncodeFrame(Frame(kind, flags, stream % 0x8000_0000, payload)))
  }

  function EncodeFrame(f: Frame): (r: Bytes)
    ensures |r| == 9 + |f.payload|
  {
    Be24(|f.payload|) + [f.kind, f.flags] + Be32(f.stream) + f.payload
  }

  /** A payload of 2^24 bytes or more is refused, and the top bit of an id is left out. */
  lemma FrameMade(kind: byte, flags: byte, stream: nat, payload: Bytes)
    ensures MakeFrame(kind, flags, stream, payload).None? <==> |payload| >= 16777216
    ensures |payload| < 16777216 && stream < 2147483648 ==>
              MakeFrame(kind, flags, stream, payload) == Some(EncodeFrame(Frame(kind, flags, stream, payload)))
              == MakeFrame(kind, flags, stream + 2147483648, payload)
  {
    hide EncodeFrame;
  }

  function EncodeFrames(frames: seq<Frame>): Bytes {
    if frames == [] then [] else EncodeFrame(frames[0]) + EncodeFrames(frames[1..])
  }

  /** The frame decoder of the corpus tests, behind the connection preface. */
  function DecodeFrames(s: Bytes): Option<seq<Frame>> {
    if s == [] then Some([])
    else if |s| < 9 then None
    else
      var end := 9 + FromBe24(s[0], s[1], s[2]);
      var stream := FromBe32(s[5], s[6], s[7], s[8]);
      if end > |s| || stream >= 0x8000_0000 then None
      else
        match DecodeFrames(s[end..])
        case None => None
        case Some(others) => Some([Frame(s[3], s[4], stream, s[9..end])] + others)
  }

  /** The layout of a frame: length, type, flags, stream id, payload. */
  lemma FrameLayout(f: Frame, rest: Bytes)
    ensures var s := EncodeFrame(f) + rest;
            && FromBe24(s[0], s[1], s[2]) == |f.payload| && s[3] == f.kind && s[4] == f.flags
            && FromBe32(s[5], s[6], s[7], s[8]) == f.stream
            && s[9..9 + |f.payload|] == f.payload && s[9 + |f.payload|..] == rest
  {
    hide Be24, Be32, FromBe24, FromBe32;
    var s := EncodeFrame(f) + rest;
    var header := Be24(|f.payload|) + [f.kind, f.flags] + Be32(f.stream);
    assert s == header + f.payload + rest;
    assert s[..9] == header;
    assert s[0] == header[0] && s[1] == header[1] && s[2] == header[2];
    assert s[5] == header[5] && s[6] == header[6] && s[7] == header[7] && s[8] == header[8];
  }

  lemma {:induction false} FramesRoundTrip(frames: seq<Frame>)
    ensures DecodeFrames(EncodeFrames(frames)) == Some(frames)
  {
    hide EncodeFrame, FromBe24, FromBe32;
    if frames != [] {
      FrameLayout(frames[0], EncodeFrames(frames[1..]));
      FramesRoundTrip(frames[1..]);
      assert [frames[0]] + frames[1..] == frames;
    }
  }

  // ---------------------------------------------------------------------
  // Header blocks over frames: section 6.10 of RFC 9113
  // ---------------------------------------------------------------------

  datatype Message = Message(stream: StreamId, endStream: bool, block: Bytes)

  predicate EndsHeaders(f: Frame) { f.flags / 4 % 2 == 1 }

  /** The header blocks of a frame sequence. A HEADERS frame without END_HEADERS must
      be followed by CONTINUATION frames of its stream up to one with it; padding
      and priority fields are not read; frames of other types are passed over. */
  function Assemble(frames: seq<Frame>, begun: Option<Message>): Option<seq<Message>>
    decreases |frames|
  {
    if frames == [] then if begun.None? then Some([]) else None
    else
      var (f, rest) := (frames[0], frames[1..]);
      if begun.Some? then
        if f.kind != CONTINUATION || f.stream != begun.value.stream then None
        else Collect(f, begun.value.(block := begun.value.block + f.payload), rest)
      else if f.kind == HEADERS then
        if f.flags / 8 % 2 == 1 || f.flags / 32 % 2 == 1 then None
        else Collect(f, Message(f.stream, f.flags % 2 == 1, f.payload), rest)
      else if f.kind == CONTINUATION then None
      else Assemble(rest, None)
  }

  function Collect(f: Frame, m: Message, rest: seq<Frame>): Option<seq<Message>>
    decreases |rest| + 1, 0
  {
    if !EndsHeaders(f) then Assemble(rest, Some(m))
    else
      Prepended(m, Assemble(rest, None))
  }

  function Prepended(m: Message, others: Option<seq<Message>>): Option<seq<Message>> {
    if others.None? then None else Some([m] + others.value)
  }

  predicate Fits(pieces: seq<Bytes>) {
    pieces != [] && forall p :: p in pieces ==> |p| <= 0xFFFFFF
  }

  function Continuations(stream: StreamId, pieces: seq<Bytes>): seq<Frame>
    requires pieces == [] || Fits(pieces)
  {
    if pieces == [] then []
    else [Frame(CONTINUATION, if |pieces| == 1 then END_HEADERS else 0, stream, pieces[0])]
         + Continuations(stream, pieces[1..])
  }

  /** A header block cut into one HEADERS frame and any number of CONTINUATIONs. */
  function CutBlock(m: Message, pieces: seq<Bytes>): seq<Frame>
    requires Fits(pieces)
  {
    var flags := (if m.endStream then END_STREAM else 0) + (if |pieces| == 1 then END_HEADERS else 0);
    [Frame(HEADERS, flags, m.stream, pieces[0])] + Continuations(m.stream, pieces[1..])
  }

  lemma NextContinuation(f: Frame, begun: Message, rest: seq<Frame>)
    requires f.kind == CONTINUATION && f.stream == begun.stream
    ensures var grown := begun.(block := begun.block + f.payload);
            Assemble([f] + rest, Some(begun))
            == if EndsHeaders(f) then Prepended(grown, Assemble(rest, None)) else Assemble(rest, Some(grown))
  {
    hide EndsHeaders;
    assert ([f] + rest)[0] == f && ([f] + rest)[1..] == rest;
  }

  lemma {:induction false} ContinuationsAssemble(begun: Message, pieces: seq<Bytes>, rest: seq<Frame>)
    requires Fits(pieces)
    ensures Assemble(Continuations(begun.stream, pieces) + rest, Some(begun))
            == Prepended(begun.(block := begun.block + Concat(pieces)), Assemble(rest, None))
    decreases |pieces|
  {
    hide Assemble;
    var later := pieces[1..];
    var f := Frame(CONTINUATION, if |pieces| == 1 then END_HEADERS else 0, begun.stream, pieces[0]);
    assert Continuations(begun.stream, pieces) == [f] + Continuations(begun.stream, later);
    Assoc([f], Continuations(begun.stream, later), rest);
    NextContinuation(f, begun, Continuations(begun.stream, later) + rest);
    Assoc(begun.block, pieces[0], Concat(later));
    if later == [] {
      assert [] + rest == rest;
      assert pieces[0] + Concat(later) == pieces[0];
    } else {
      assert forall p :: p in later ==> p in pieces;
      ContinuationsAssemble(begun.(block := begun.block + pieces[0]), later, rest);
    }
  }

  lemma FirstHeaders(f: Frame, rest: seq<Frame>)
    requires f.kind == HEADERS && f.flags <= 5
    ensures var m := Message(f.stream, f.flags % 2 == 1, f.payload);
            Assemble([f] + rest, None)
            == if EndsHeaders(f) then Prepended(m, Assemble(rest, None)) else Assemble(rest, Some(m))
  {
    hide EndsHeaders;
    assert ([f] + rest)[0] == f && ([f] + rest)[1..] == rest;
  }

  /** However a block is cut, assembling gives it back whole. */
  lemma CutAssembles(m: Message, pieces: seq<Bytes>, rest: seq<Frame>)
    requires Fits(pieces) && Concat(pieces) == m.block
    ensures Assemble(CutBlock(m, pieces) + rest, None) == Prepended(m, Assemble(rest, None))
  {
    hide Assemble;
    var (f, later) := (CutBlock(m, pieces)[0], pieces[1..]);
    Assoc([f], Continuations(m.stream, later), rest);
    FirstHeaders(f, Continuations(m.stream, later) + rest);
    if later == [] {
      assert [] + rest == rest;
      assert pieces[0] + Concat(later) == pieces[0];
    } else {
      assert forall p :: p in later ==> p in pieces;
      ContinuationsAssemble(Message(m.stream, m.endStream, pieces[0]), later, rest);
    }
  }

  // ---------------------------------------------------------------------
  // Request streams
  // ---------------------------------------------------------------------

  /** A request and the pieces its block is sent in. */
  datatype Sent = Sent(request: Request, pieces: seq<Bytes>) {
    predicate Valid() {
      request.stream < 0x8000_0000 && Fits(pieces) && Concat(pieces) == RequestBlock(request)
    }

    function Whole(): Message
      requires Valid()
    {
      Message(request.stream, request.endStream, RequestBlock(request))
    }
  }

  function FramesOf(sent: seq<Sent>): seq<Frame>
    requires forall x :: x in sent ==> x.Valid()
  {
    if sent == [] then [] else CutBlock(sent[0].Whole(), sent[0].pieces) + FramesOf(sent[1..])
  }

  datatype Received = Received(stream: StreamId, endStream: bool, fields: seq<Header>)

  function DecodeMessages(messages: seq<Message>): Option<seq<Received>> {
    if messages == [] then Some([])
    else
      match DecodeBlock(messages[0].block)
      case None => None
      case Some(fields) =>
        match DecodeMessages(messages[1..])
        case None => None
        case Some(others) => Some([Received(messages[0].stream, messages[0].endStream, fields)] + others)
  }

  /** What a server makes of the bytes behind the connection preface. */
  function DecodeRequests(s: Bytes): Option<seq<Received>> {
    match DecodeFrames(s)
    case None => None
    case Some(frames) =>
      match Assemble(frames, None)
      case None => None
      case Some(messages) => DecodeMessages(messages)
  }

  function Meant(sent: seq<Sent>): seq<Received>
    requires forall x :: x in sent ==> x.Valid()
  {
    if sent == [] then []
    else
      assert sent[0].Valid();
      [Received(sent[0].request.stream, sent[0].request.endStream, RequestFields(sent[0].request))]
         + Meant(sent[1..])
  }

  lemma {:induction false} FramesMean(sent: seq<Sent>)
    requires forall x :: x in sent ==> x.Valid()
    ensures var messages := Assemble(FramesOf(sent), None);
            messages.Some? && DecodeMessages(messages.value) == Some(Meant(sent))
  {
    hide Assemble, CutBlock, RequestBlock, DecodeBlock, RequestFields;
    if sent == [] {
      assert Assemble([], None) == Some([]) by { NoFrames(); }
    } else {
      assert sent[0].Valid();
      FramesMean(sent[1..]);
      var others := Assemble(FramesOf(sent[1..]), None).value;
      CutAssembles(sent[0].Whole(), sent[0].pieces, FramesOf(sent[1..]));
      RequestBlockRoundTrip(sent[0].request);
      assert ([sent[0].Whole()] + others)[1..] == others;
    }
  }

  lemma NoFrames()
    ensures Assemble([], None) == Some([])
  {
  }

  /** Frame and HPACK round trip: any sequence of requests, each with its block cut
      into HEADERS and CONTINUATION frames anywhere, decodes to what was meant. */
  lemma RequestsRoundTrip(sent: seq<Sent>)
    requires forall x :: x in sent ==> x.Valid()
    ensures DecodeRequests(EncodeFrames(FramesOf(sent))) == Some(Meant(sent))
  {
    hide FramesOf, EncodeFrames, DecodeFrames, Assemble, DecodeMessages, Meant;
    FramesMean(sent);
    FramesRoundTrip(FramesOf(sent));
  }

  /** `h2_request_headers`; None is the ValueError of an oversized block. */
  function RequestHeaders(q: Request): Option<Bytes> {
    MakeFrame(HEADERS, if q.endStream then 5 else 4, q.stream, RequestBlock(q))
  }

  /** Its bytes are the one-piece case, for stream ids below 2^31. */
  lemma RequestHeadersIsOnePiece(q: Request)
    requires q.stream < 0x8000_0000 && |RequestBlock(q)| <= 0xFFFFFF
    ensures Sent(q, [RequestBlock(q)]).Valid()
    ensures FramesOf([Sent(q, [RequestBlock(q)])]) == [Frame(1, if q.endStream then 5 else 4, q.stream, RequestBlock(q))]
    ensures RequestHeaders(q) == Some(EncodeFrames(FramesOf([Sent(q, [RequestBlock(q)])])))
  {
    hide RequestBlock, EncodeFrame;
    var sent := Sent(q, [RequestBlock(q)]);
    assert [RequestBlock(q)][1..] == [] && Concat([RequestBlock(q)]) == RequestBlock(q);
    var f := Frame(HEADERS, if q.endStream then 5 else 4, q.stream, RequestBlock(q));
    assert [sent][1..] == [];
    assert FramesOf([sent]) == [f];
    assert [f][1..] == [] && EncodeFrames([f]) == EncodeFrame(f);
  }
}
