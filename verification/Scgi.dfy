/** `handle_scgi`: a netstring of header fields, then the body. */
module Scgi {
  import opened Bytes
  import opened FastCgi
  import opened FastCgiParams
  import opened Gateway
  import opened Python
  import opened Responses
  import opened Sockets
  import opened Wrappers

  const COLON: byte := 58
  const COMMA: byte := 44

  /** "CONTENT_LENGTH" and "0". */
  const CONTENT_LENGTH: Bytes := [67, 79, 78, 84, 69, 78, 84, 95, 76, 69, 78, 71, 84, 72]
  const ZERO: Bytes := [48]

  /** The fields taken two by two. */
  function Paired(fields: seq<Bytes>): seq<Pair>
    requires |fields| % 2 == 0
  {
    if fields == [] then [] else [(fields[0], fields[1])] + Paired(fields[2..])
  }

  /** `_parse_scgi_headers`. */
  function ParseHeaders(data: Bytes): Option<Dict> {
    var split := Split(data, 0);
    var fields := if split[|split| - 1] == [] then split[..|split| - 1] else split;
    if |fields| % 2 == 1 then None else Some(Assigned(Paired(fields)))
  }

  /** The index of the colon behind i digits, of which there may be nine. */
  function FindColon(s: Bytes, i: nat): (r: Result<nat, Fault>)
    requires i <= 10
    ensures r.Success? ==> i <= r.value < 10 && r.value < |s| && s[r.value] == COLON
    ensures r.Success? ==> forall j :: i <= j < r.value ==> IsDigit(s[j])
    ensures r.Failure? ==> r.error == Eof || r.error == Invalid
    decreases 10 - i
  {
    if i == 10 then Failure(Invalid)
    else if i >= |s| then Failure(Eof)
    else if s[i] == COLON then Success(i)
    else if !IsDigit(s[i]) then Failure(Invalid)
    else FindColon(s, i + 1)
  }

  /** What a request stream asks for. */
  datatype Asked = Refused(error: Fault) | Accepted(mode: Mode, body: Bytes)

  function Granted(asked: Asked): Result<(Mode, Bytes), Fault> {
    if asked.Refused? then Failure(asked.error) else Success((asked.mode, asked.body))
  }

  /** The header length announced by the digits before the colon. */
  function HeaderLength(digits: Bytes): Option<nat> {
    match Digits(digits)
    case None => None
    case Some(n) => if n == 0 || n > MAX_HEADERS then None else Some(n)
  }

  /** The header length and the offset behind its colon. */
  function LengthPrefix(stream: Bytes): (r: Result<(nat, nat), Fault>)
    ensures r.Success? ==> r.value.1 <= |stream|
    ensures r.Failure? ==> r.error == Eof || r.error == Invalid
  {
    match FindColon(stream, 0)
    case Failure(e) => Failure(e)
    case Success(colon) =>
      match HeaderLength(stream[..colon])
      case None => Failure(Invalid)
      case Some(n) => Success((n, colon + 1))
  }

  function Ask(b: Backend, max: nat, stream: Bytes): Asked {
    var length := LengthPrefix(stream);
    if length.Failure? then Refused(length.error)
    else
      var (n, start) := length.value;
      if |stream| - start < n then Refused(Eof)
      else AskBody(b, max, ParseHeaders(stream[start..start + n]), stream[start + n..])
  }

  function AskBody(b: Backend, max: nat, headers: Option<Dict>, rest: Bytes): Asked {
    if headers.None? then Refused(Invalid)
    else if rest == [] then Refused(Eof)
    else if rest[0] != COMMA then Refused(Invalid)
    else
      match ParseInt(headers.value.Get(CONTENT_LENGTH, ZERO))
      case None => Refused(Invalid)
      case Some(n) =>
        if n < 0 || n > max then Refused(Invalid)
        else if |rest| - 1 < n then Refused(Eof)
        else Accepted(b.select(headers.value.Get(REQUEST_URI, ROOT), GatewayHeaders(headers.value)), rest[1..1 + n])
  }

  /** The printing side: names and values closed by NUL, as a netstring. */
  function Block(pairs: seq<Pair>): Bytes {
    if pairs == [] then [] else pairs[0].0 + [0] + pairs[0].1 + [0] + Block(pairs[1..])
  }

  function Print(pairs: seq<Pair>, body: Bytes): Bytes {
    Decimal(|Block(pairs)|) + [COLON] + Block(pairs) + [COMMA] + body
  }

  predicate NulFree(p: Pair) { 0 !in p.0 && 0 !in p.1 }

  function Fields(pairs: seq<Pair>): (r: seq<Bytes>)
    ensures |r| % 2 == 0
  {
    if pairs == [] then [] else [pairs[0].0, pairs[0].1] + Fields(pairs[1..])
  }

  lemma {:induction false} SplitBlock(pairs: seq<Pair>, rest: Bytes)
    requires forall p :: p in pairs ==> NulFree(p)
    ensures Split(Block(pairs) + rest, 0) == Fields(pairs) + Split(rest, 0)
  {
    hide Split;
    if pairs == [] {
      assert [] + rest == rest && [] + Split(rest, 0) == Split(rest, 0);
    } else {
      assert NulFree(pairs[0]);
      SplitBlock(pairs[1..], rest);
      SplitPair(pairs[0].0, pairs[0].1, Block(pairs[1..]) + rest, Fields(pairs[1..]), Split(rest, 0));
      BlockBehind(pairs[0].0, pairs[0].1, Block(pairs[1..]), rest);
    }
  }

  lemma BlockBehind(name: Bytes, value: Bytes, block: Bytes, rest: Bytes)
    ensures name + [0] + value + [0] + block + rest == name + [0] + value + [0] + (block + rest)
  {
  }

  lemma SplitPair(name: Bytes, value: Bytes, rest: Bytes, fields: seq<Bytes>, last: seq<Bytes>)
    requires 0 !in name && 0 !in value && Split(rest, 0) == fields + last
    ensures Split(name + [0] + value + [0] + rest, 0) == [name, value] + fields + last
  {
    hide Split;
    assert name + [0] + value + [0] + rest == name + [0] + (value + [0] + rest);
    SplitField(name, 0, value + [0] + rest);
    SplitField(value, 0, rest);
    assert [name] + ([value] + (fields + last)) == [name, value] + fields + last;
  }

  lemma {:induction false} SplitWhole(field: Bytes)
    requires 0 !in field
    ensures Split(field, 0) == [field]
  {
    if field != [] {
      SplitWhole(field[1..]);
      assert [field[0]] + field[1..] == field;
    }
  }

  lemma {:induction false} PairedFields(pairs: seq<Pair>)
    ensures Paired(Fields(pairs)) == pairs
  {
    if pairs != [] {
      PairedFields(pairs[1..]);
      assert Fields(pairs)[2..] == Fields(pairs[1..]);
      assert [pairs[0]] + pairs[1..] == pairs;
    }
  }

  /** Parsing a printed block gives the last-wins dictionary of its pairs. */
  lemma HeadersRoundTrip(pairs: seq<Pair>)
    requires forall p :: p in pairs ==> NulFree(p)
    ensures ParseHeaders(Block(pairs)) == Some(Assigned(pairs))
  {
    hide Split, Assigned, Block;
    SplitBlock(pairs, []);
    SplitWhole([]);
    PairedFields(pairs);
    assert Block(pairs) + [] == Block(pairs);
    assert (Fields(pairs) + [[]])[..|Fields(pairs)|] == Fields(pairs);
  }

  lemma {:induction false} FieldsNext(pairs: seq<Pair>, p: Pair)
    ensures Fields(pairs + [p]) == Fields(pairs) + [p.0, p.1]
  {
    if pairs == [] {
      assert [p][1..] == [] && [] + [p] == [p];
    } else {
      FieldsNext(pairs[1..], p);
      assert (pairs + [p])[0] == pairs[0] && (pairs + [p])[1..] == pairs[1..] + [p];
    }
  }

  /** A name without a value is an error, whereas the NUL behind the last value may be
      missing. */
  lemma LooseEnds(pairs: seq<Pair>, name: Bytes, value: Bytes)
    requires (forall p :: p in pairs ==> NulFree(p)) && NulFree((name, value))
    ensures ParseHeaders(Block(pairs) + (name + [0])) == None
    ensures value != [] ==> ParseHeaders(Block(pairs) + (name + [0] + value)) == Some(Assigned(pairs + [(name, value)]))
  {
    hide Split, Assigned, Block;
    SplitBlock(pairs, name + [0]);
    SplitBlock(pairs, name + [0] + value);
    SplitField(name, 0, []);
    SplitField(name, 0, value);
    SplitWhole([]);
    SplitWhole(value);
    assert name + [0] + [] == name + [0];
    FieldsNext(pairs, (name, value));
    PairedFields(pairs + [(name, value)]);
    var fields := Fields(pairs);
    assert (fields + ([name] + [[]]))[..|fields| + 1] == fields + [name];
    assert fields + ([name] + [value]) == fields + [name, value];
  }

  lemma {:induction false} DecimalLength(n: nat, k: nat)
    requires 0 < k && n < Power(10, k)
    ensures |Decimal(n)| <= k
  {
    if n >= 10 {
      assert Power(10, 1) == 10 * Power(10, 0);
      DecimalLength(n / 10, k - 1);
    }
  }

  lemma HeaderLengthFits(n: nat)
    requires 0 < n <= MAX_HEADERS
    ensures |Decimal(n)| <= 5 && HeaderLength(Decimal(n)) == Some(n)
  {
    assert Power(10, 5) == 10 * Power(10, 4) == 100 * Power(10, 3) == 1000 * Power(10, 2)
        == 10000 * Power(10, 1) == 100000 * Power(10, 0);
    DecimalLength(n, 5);
    DigitsOfDecimal(n);
  }

  lemma {:induction false} FindPrintedColon(digits: Bytes, rest: Bytes, i: nat)
    requires i <= |digits| < 10 && forall j :: 0 <= j < |digits| ==> IsDigit(digits[j])
    ensures FindColon(digits + [COLON] + rest, i) == Success(|digits|)
    decreases |digits| - i
  {
    if i < |digits| { FindPrintedColon(digits, rest, i + 1); }
  }

  lemma NamesSpelled()
    ensures CONTENT_LENGTH == Ascii("CONTENT_LENGTH") && ZERO == Ascii("0")
    ensures COLON == ':' as int && COMMA == ',' as int
  {
  }

  lemma {:induction false} DigitsRead(digits: Bytes, rest: Bytes, i: nat)
    requires i <= |digits| <= 10 && forall j :: 0 <= j < |digits| ==> IsDigit(digits[j])
    ensures FindColon(digits + rest, i) == FindColon(digits + rest, |digits|)
    decreases |digits| - i
  {
    if i < |digits| { DigitsRead(digits, rest, i + 1); }
  }

  /** What the length prefix may look like: one to nine digits and a colon, for a number
      from 1 to 65536. */
  lemma LengthRefused(digits: Bytes, rest: Bytes)
    requires forall j :: 0 <= j < |digits| ==> IsDigit(digits[j])
    ensures |digits| == 10 ==> LengthPrefix(digits + rest) == Failure(Invalid)
    ensures |digits| < 10 && rest == [] ==> LengthPrefix(digits + rest) == Failure(Eof)
    ensures |digits| < 10 && rest != [] && !IsDigit(rest[0]) && rest[0] != ':' as int ==>
              LengthPrefix(digits + rest) == Failure(Invalid)
    ensures digits == [] && rest != [] && !IsDigit(rest[0]) ==> LengthPrefix(digits + rest) == Failure(Invalid)
  {
    hide Digits;
    if |digits| <= 10 { DigitsRead(digits, rest, 0); }
    if digits == [] && rest != [] && rest[0] == ':' as int {
      assert (digits + rest)[..0] == [];
      NoDigits();
    }
  }

  lemma NoDigits()
    ensures HeaderLength([]) == None
  {
  }

  lemma LengthOfDecimal(n: nat, rest: Bytes)
    requires |Decimal(n)| < 10
    ensures LengthPrefix(Decimal(n) + [COLON] + rest) ==
            if 1 <= n <= 65536 then Success((n, |Decimal(n)| + 1)) else Failure(Invalid)
  {
    FindPrintedColon(Decimal(n), rest, 0);
    DigitsOfDecimal(n);
    hide FindColon, Digits, Decimal;
    assert (Decimal(n) + [COLON] + rest)[..|Decimal(n)|] == Decimal(n);
  }

  lemma BehindColon(digits: Bytes, rest: Bytes, n: nat)
    ensures var (stream, start) := (digits + [COLON] + rest, |digits| + 1);
            && |stream| - start == |rest|
            && (n <= |rest| ==> stream[start..start + n] == rest[..n] && stream[start + n..] == rest[n..])
  {
  }

  /** Without the announced bytes the stream ends early; with them the rest decides. */
  lemma AskPrinted(b: Backend, max: nat, n: nat, rest: Bytes)
    requires 0 < n <= 65536
    ensures Ask(b, max, Decimal(n) + [COLON] + rest) ==
            if |rest| < n then Refused(Eof) else AskBody(b, max, ParseHeaders(rest[..n]), rest[n..])
  {
    HeaderLengthFits(n);
    LengthOfDecimal(n, rest);
    hide *;
    AskColon(b, max, Decimal(n), n, rest);
  }

  lemma AskColon(b: Backend, max: nat, digits: Bytes, n: nat, rest: Bytes)
    requires LengthPrefix(digits + [COLON] + rest) == Success((n, |digits| + 1))
    ensures Ask(b, max, digits + [COLON] + rest) ==
            if |rest| < n then Refused(Eof) else AskBody(b, max, ParseHeaders(rest[..n]), rest[n..])
  {
    BehindColon(digits, rest, n);
    hide LengthPrefix, ParseHeaders, AskBody;
  }

  lemma InFront(front: Bytes, block: Bytes, rest: Bytes)
    ensures front + [COLON] + block + rest == front + [COLON] + (block + rest)
    ensures (block + rest)[..|block|] == block && (block + rest)[|block|..] == rest
  {
  }

  lemma AskBlock(b: Backend, max: nat, block: Bytes, rest: Bytes)
    requires 0 < |block| <= 65536
    ensures Ask(b, max, Decimal(|block|) + Ascii(":") + block + rest) == AskBody(b, max, ParseHeaders(block), rest)
  {
    assert Ascii(":") == [COLON];
    InFront(Decimal(|block|), block, rest);
    hide *;
    AskPrinted(b, max, |block|, block + rest);
  }

  /** A block must have values for its names and a comma behind it. */
  lemma BlockRefused(b: Backend, max: nat, block: Bytes, rest: Bytes)
    requires 0 < |block| <= 65536
    ensures var asked := Ask(b, max, Decimal(|block|) + Ascii(":") + block + rest);
            && (ParseHeaders(block) == None ==> asked == Refused(Invalid))
            && (rest != [] && rest[0] != ',' as int ==> asked == Refused(Invalid))
            && (rest == [] && ParseHeaders(block) != None ==> asked == Refused(Eof))
  {
    hide Ask, ParseHeaders, Decimal, ParseInt, Ascii;
    AskBlock(b, max, block, rest);
  }

  /** Behind the comma: the declared length and so many bytes. */
  lemma BodyAsked(b: Backend, max: nat, d: Dict, rest: Bytes, length: Bytes, uri: Bytes, headers: map<Bytes, Bytes>)
    requires d.Get(CONTENT_LENGTH, ZERO) == length && d.Get(REQUEST_URI, ROOT) == uri && GatewayHeaders(d) == headers
    ensures AskBody(b, max, Some(d), [COMMA] + rest) ==
            match ParseInt(length)
            case None => Refused(Invalid)
            case Some(n) =>
              if n < 0 || n > max then Refused(Invalid)
              else if |rest| < n then Refused(Eof)
              else Accepted(b.select(uri, headers), rest[..n])
  {
    hide ParseInt, GatewayHeaders, Dict.Get;
    forall n | 0 <= n <= |rest| ensures ([COMMA] + rest)[1..1 + n] == rest[..n] {}
  }

  /** A printed request, understood with the URI and the headers its variables carry:
      the declared length must be a number from zero to the limit, and so many bytes
      must follow; the body is those. */
  lemma RequestAsked(b: Backend, max: nat, pairs: seq<Pair>, rest: Bytes,
      length: Bytes, uri: Bytes, headers: map<Bytes, Bytes>)
    requires forall p :: p in pairs ==> NulFree(p)
    requires 0 < |Block(pairs)| <= 65536
    requires MeansValue(pairs, Ascii("CONTENT_LENGTH"), Ascii("0"), length)
    requires MeansValue(pairs, Ascii("REQUEST_URI"), Ascii("/"), uri) && MeansHeaders(pairs, headers)
    ensures Ask(b, max, Decimal(|Block(pairs)|) + Ascii(":") + Block(pairs) + Ascii(",") + rest) ==
            match ParseInt(length)
            case None => Refused(Invalid)
            case Some(n) =>
              if n < 0 || n > max then Refused(Invalid)
              else if |rest| < n then Refused(Eof)
              else Accepted(b.select(uri, headers), rest[..n])
  {
    NamesSpelled();
    FastCgi.NamesSpelled();
    assert Ascii(",") == [COMMA];
    hide Ascii, Assigned, GatewayHeaders, Block, Ask, AskBody, ParseInt, ParseHeaders, Decimal, MeansHeaders;
    ValueMeans(pairs, CONTENT_LENGTH, ZERO, length);
    ValueMeans(pairs, REQUEST_URI, ROOT, uri);
    HeadersMeanOne(pairs, headers);
    hide MeansValue;
    HeadersRoundTrip(pairs);
    AskBlock(b, max, Block(pairs), [COMMA] + rest);
    BodyAsked(b, max, Assigned(pairs), rest, length, uri, headers);
    CommaBehind(Decimal(|Block(pairs)|) + Ascii(":") + Block(pairs), rest);
  }

  lemma CommaBehind(front: Bytes, rest: Bytes)
    ensures front + ([COMMA] + rest) == front + [COMMA] + rest
  {
  }

  /** A printed request is understood as it was meant, whatever follows it. */
  lemma RequestRoundTrip(b: Backend, max: nat, pairs: seq<Pair>, body: Bytes, after: Bytes,
      length: Bytes, uri: Bytes, headers: map<Bytes, Bytes>)
    requires forall p :: p in pairs ==> NulFree(p)
    requires 0 < |Block(pairs)| <= 65536 && |body| <= max
    requires MeansValue(pairs, Ascii("CONTENT_LENGTH"), Ascii("0"), length) && ParseInt(length) == Some(|body|)
    requires MeansValue(pairs, Ascii("REQUEST_URI"), Ascii("/"), uri) && MeansHeaders(pairs, headers)
    ensures Ask(b, max, Print(pairs, body) + after) == Accepted(b.select(uri, headers), body)
  {
    NamesSpelled();
    assert Ascii(":") == [COLON] && Ascii(",") == [COMMA];
    hide Ascii, Block, Ask, ParseInt, Decimal, MeansHeaders, MeansValue;
    RequestAsked(b, max, pairs, body + after, length, uri, headers);
    assert Print(pairs, body) + after
        == Decimal(|Block(pairs)|) + [COLON] + Block(pairs) + [COMMA] + (body + after);
    assert (body + after)[..|body|] == body;
  }

  /** The length and its colon, one byte at a time. */
  method ReadLength(sock: Socket) returns (r: Result<nat, Fault>)
    requires sock.Valid() && !sock.faulted
    modifies sock`pos, sock`faulted
    ensures sock.Valid() && old(sock.pos) <= sock.pos
    ensures r == Failure(Timeout) <==> sock.faulted
    ensures r.Failure? && r.error != Timeout ==> LengthPrefix(old(sock.Rest())) == Failure(r.error)
    ensures r.Success? ==> LengthPrefix(old(sock.Rest())) == Success((r.value, sock.pos - old(sock.pos)))
  {
    hide Digits;
    ghost var stream := sock.Rest();
    var digits := [];
    while |digits| < 10
      invariant sock.Valid() && sock.pos == old(sock.pos) + |digits| && !sock.faulted
      invariant |digits| <= 10 && |digits| <= |stream| && digits == stream[..|digits|]
      invariant FindColon(stream, 0) == FindColon(stream, |digits|)
      decreases 10 - |digits|
    {
      var digit := RecvExact(sock, 1);
      if digit.Failure? { return Failure(digit.error); }
      assert digit.value[0] == stream[|digits|];
      if digit.value == [COLON] {
        var length := HeaderLength(digits);
        return if length.None? then Failure(Invalid) else Success(length.value);
      }
      if !IsDigit(digit.value[0]) { return Failure(Invalid); }
      digits := digits + digit.value;
    }
    r := Failure(Invalid);
  }

  /** The rest of the request behind the header block. */
  method ReadBody(sock: Socket, b: Backend, max: nat, headers: Dict, ghost rest: Bytes)
    returns (r: Result<(Mode, Bytes), Fault>)
    requires sock.Valid() && !sock.faulted && sock.Rest() == rest
    modifies sock`pos, sock`faulted
    ensures sock.Valid()
    ensures r == Failure(Timeout) <==> sock.faulted
    ensures r.Failure? ==> r.error != Broken
    ensures r != Failure(Timeout) ==>
              r == Granted(AskBody(b, max, Some(headers), rest))
  {
    hide ParseInt, GatewayHeaders;
    var comma := RecvExact(sock, 1);
    if comma.Failure? { return Failure(comma.error); }
    assert comma.value[0] == rest[0];
    if comma.value[0] != COMMA { return Failure(Invalid); }
    var declared := ParseInt(headers.Get(CONTENT_LENGTH, ZERO));
    if declared.None? { return Failure(Invalid); }
    var contentLength := declared.value;
    if contentLength < 0 || contentLength > max { return Failure(Invalid); }
    var body := [];
    if contentLength > 0 {
      var received := RecvExact(sock, contentLength);
      if received.Failure? { return Failure(received.error); }
      body := received.value;
    }
    assert body == rest[1..1 + contentLength];
    r := Success((b.select(headers.Get(REQUEST_URI, ROOT), GatewayHeaders(headers)), body));
  }

  /** The reading half of `handle_scgi`. */
  method ReadRequest(sock: Socket, b: Backend, max: nat) returns (r: Result<(Mode, Bytes), Fault>)
    requires sock.Valid() && !sock.faulted
    modifies sock`pos, sock`faulted
    ensures r == Failure(Timeout) <==> sock.faulted
    ensures r.Failure? ==> r.error != Broken
    ensures r != Failure(Timeout) ==>
              r == Granted(Ask(b, max, old(sock.Rest())))
  {
    hide LengthPrefix, ParseHeaders, AskBody;
    ghost var (stream, from) := (sock.Rest(), sock.pos);
    var length := ReadLength(sock);
    if length.Failure? { return Failure(length.error); }
    ghost var start := sock.pos - from;
    ghost var end := start + length.value;
    var block := RecvExact(sock, length.value);
    if block.Failure? { return Failure(block.error); }
    SuffixSlice(sock.input, from, start, end);
    SuffixSlice(sock.input, from, end, end);
    var headers := ParseHeaders(block.value);
    if headers.None? {
      assert AskBody(b, max, None, stream[end..]) == Refused(Invalid) by { NoHeaders(b, max, stream[end..]); }
      return Failure(Invalid);
    }
    r := ReadBody(sock, b, max, headers.value, stream[end..]);
  }

  lemma NoHeaders(b: Backend, max: nat, rest: Bytes)
    ensures AskBody(b, max, None, rest) == Refused(Invalid)
  {
  }

  /** `handle_scgi`: the reply is a function of the stream, however it is read and
      written, save that a timeout or a failed write leaves a prefix of it. */
  method HandleScgi(sock: Socket, b: Backend, max: nat) returns (r: Result<bool, Fault>)
    requires sock.Valid() && !sock.faulted
    modifies sock`pos, sock`output, sock`calls, sock`faulted
    ensures (r.Failure? && IsCut(r.error)) <==> sock.faulted
    ensures var asked := Ask(b, max, old(sock.Rest()));
            if asked.Refused? then
              sock.output == old(sock.output) && r == Failure(if sock.faulted then Timeout else asked.error)
            else
              var full := old(sock.output) + Plan(b, asked.mode, false, asked.body).data;
              && Between(old(sock.output), sock.output, full)
              && (!sock.faulted ==> r == Success(true) && sock.output == full)
    ensures var asked := Ask(b, max, old(sock.Rest()));
            asked.Accepted? && !sock.faulted ==>
              Written(old(sock.calls), sock.calls, asked.mode == Partial, |Plan(b, asked.mode, false, asked.body).data|)
  {
    hide Ask, Plan, Written;
    var request := ReadRequest(sock, b, max);
    if request.Failure? { return Failure(request.error); }
    var (mode, body) := request.value;
    var plan := Plan(b, mode, false, body);
    PlanMeans(b, mode, false, body);
    var fault := Send(sock, plan.data, plan.partial);
    r := if fault.None? then Success(true) else Failure(fault.value);
  }
}
