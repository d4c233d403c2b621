/** `handle_http`: one HTTP exchange and, in upgrade mode, the echo tunnel. How a
    header block is parsed into a URI and headers is a parameter. */
module Http {
  import opened Bytes
  import opened Python
  import opened Responses
  import opened Sockets
  import opened Wrappers

  type Head = Option<(Bytes, map<Bytes, Bytes>)>

  /** "content-length" and "0". */
  const CONTENT_LENGTH: Bytes := [99, 111, 110, 116, 101, 110, 116, 45, 108, 101, 110, 103, 116, 104]
  const ZERO: Bytes := [48]

  /** The declared body length; what does not parse counts as zero. */
  function DeclaredLength(headers: map<Bytes, Bytes>): int {
    match ParseInt(if CONTENT_LENGTH in headers then headers[CONTENT_LENGTH] else ZERO)
    case None => 0
    case Some(n) => n
  }

  /** What a request stream asks for: an error, or a mode, the lengths of its headers
      and its declared body, and the bytes behind them. */
  datatype Asked = Refused(error: Fault) | Accepted(mode: Mode, head: nat, body: nat, rest: Bytes)

  function Ask(b: Backend, parse: Bytes -> Head, max: nat, stream: Bytes): Asked {
    match HeaderBlock(stream)
    case Failure(e) => Refused(e)
    case Success(head) =>
      match parse(head)
      case None => Refused(Invalid)
      case Some((uri, headers)) =>
        var n := DeclaredLength(headers);
        if n < 0 || n > max then Refused(Invalid)
        else if |stream| - |head| < n then Refused(Eof)
        else Accepted(b.select(uri, headers), |head|, n, stream[|head| + n..])
  }

  // ---------------------------------------------------------------------
  // What the declared length means
  // ---------------------------------------------------------------------

  predicate BlankLineAt(s: Bytes, k: int) { 0 <= k <= |s| - 4 && s[k..k + 4] == [13, 10, 13, 10] }

  /** A header block: 65537 bytes at most, with its one blank line at the end. */
  predicate IsHead(head: Bytes) {
    && 4 <= |head| <= 65537 && BlankLineAt(head, |head| - 4)
    && forall k :: 0 <= k < |head| - 4 ==> !BlankLineAt(head, k)
  }

  lemma MarkerIsBlankLine(s: Bytes, k: nat)
    ensures MarkerAt(s, k) <==> BlankLineAt(s, k)
  {
    if k + 4 <= |s| { assert s[k..k + 4] == [s[k], s[k + 1], s[k + 2], s[k + 3]]; }
  }

  lemma HeadFound(head: Bytes, tail: Bytes)
    requires IsHead(head)
    ensures HeaderBlock(head + tail) == Success(head)
  {
    var s := head + tail;
    assert s[..|head|] == head;
    forall k | 0 <= k < |head| ensures !EndsInMarker(s[..k]) {
      assert s[..k] == head[..k];
      if k >= 4 {
        MarkerIsBlankLine(head, k - 4);
        assert !BlankLineAt(head, k - 4);
      }
    }
    MarkerIsBlankLine(head, |head| - 4);
    assert ShortestHeader(s, |head|);
    HeaderBlockIsShortest(s, |head|);
  }

  /** The value of the Content-Length header, when there is one. */
  function LengthText(headers: map<Bytes, Bytes>): Option<Bytes> {
    if Ascii("content-length") in headers then Some(headers[Ascii("content-length")]) else None
  }

  lemma DeclaredIs(headers: map<Bytes, Bytes>)
    ensures DeclaredLength(headers) ==
            match LengthText(headers)
            case None => 0
            case Some(text) => if ParseInt(text).None? then 0 else ParseInt(text).value
  {
    ParsesZero();
    hide ParseInt;
    assert CONTENT_LENGTH == Ascii("content-length");
  }

  lemma AskBehind(b: Backend, parse: Bytes -> Head, max: nat, head: Bytes, tail: Bytes,
      uri: Bytes, headers: map<Bytes, Bytes>)
    requires IsHead(head) && parse(head) == Some((uri, headers))
    ensures var n := DeclaredLength(headers);
            Ask(b, parse, max, head + tail) ==
            if n < 0 || n > max then Refused(Invalid)
            else if |tail| < n then Refused(Eof)
            else Accepted(b.select(uri, headers), |head|, n, tail[n..])
  {
    HeadFound(head, tail);
    hide HeaderBlock, IsHead, DeclaredLength;
    var n := DeclaredLength(headers);
    if 0 <= n <= |tail| { assert (head + tail)[|head| + n..] == tail[n..]; }
  }

  /** A request whose Content-Length is the length of its body is split just there,
      and what follows is left. */
  lemma BodyRoundTrip(b: Backend, parse: Bytes -> Head, max: nat, head: Bytes, body: Bytes, rest: Bytes,
      uri: Bytes, headers: map<Bytes, Bytes>)
    requires IsHead(head) && parse(head) == Some((uri, headers)) && |body| <= max
    requires LengthText(headers) == Some(Decimal(|body|)) && |Decimal(|body|)| <= 4300
    ensures Ask(b, parse, max, head + body + rest) == Accepted(b.select(uri, headers), |head|, |body|, rest)
  {
    hide Ask, IsHead, Decimal, LengthText;
    var d := Decimal(|body|);
    assert [] + [] + d + [] == d;
    DeclaredBody(b, parse, max, head, body + rest, uri, headers, [], [], |body|, []);
    assert head + body + rest == head + (body + rest) && (body + rest)[|body|..] == rest;
  }

  /** The header may pad and sign the number: below zero and above the limit it is
      refused, and so is a body that ends early. */
  lemma DeclaredBody(b: Backend, parse: Bytes -> Head, max: nat, head: Bytes, tail: Bytes,
      uri: Bytes, headers: map<Bytes, Bytes>, left: Bytes, sign: Bytes, n: nat, right: Bytes)
    requires IsHead(head) && parse(head) == Some((uri, headers))
    requires Blank(left) && Blank(right) && (sign == [] || sign == Ascii("+") || sign == Ascii("-"))
    requires LengthText(headers) == Some(left + sign + Decimal(n) + right) && |Decimal(n)| <= 4300
    ensures Ask(b, parse, max, head + tail) ==
            if n > max || (sign == Ascii("-") && n > 0) then Refused(Invalid)
            else if |tail| < n then Refused(Eof)
            else Accepted(b.select(uri, headers), |head|, n, tail[n..])
  {
    hide Ask, IsHead, Decimal, LengthText, ParseInt, DeclaredLength, Ascii;
    ParseIntPadded(left, sign, n, right);
    DeclaredIs(headers);
    AskBehind(b, parse, max, head, tail, uri, headers);
  }

  /** Without the header, or with one that is no number, there is no body. */
  lemma UndeclaredBody(b: Backend, parse: Bytes -> Head, max: nat, head: Bytes, tail: Bytes,
      uri: Bytes, headers: map<Bytes, Bytes>)
    requires IsHead(head) && parse(head) == Some((uri, headers))
    requires match LengthText(headers)
             case None => true
             case Some(text) => !CanBeNumber(text) || exists n :: text == Decimal(n) && |text| > 4300
    ensures Ask(b, parse, max, head + tail) == Accepted(b.select(uri, headers), |head|, 0, tail)
  {
    DeclaredIs(headers);
    if LengthText(headers).Some? {
      var text := LengthText(headers).value;
      if !CanBeNumber(text) {
        NoNumber(text);
      } else {
        var n :| text == Decimal(n) && |text| > 4300;
        ParseIntOfDecimal(n);
      }
    }
    hide Ask, IsHead, Decimal, LengthText, ParseInt, DeclaredLength, CanBeNumber, Ascii;
    AskBehind(b, parse, max, head, tail, uri, headers);
    assert tail[0..] == tail;
  }

  /** A header block that cannot be parsed is refused. */
  lemma BadHead(b: Backend, parse: Bytes -> Head, max: nat, head: Bytes, tail: Bytes)
    requires IsHead(head) && parse(head) == None
    ensures Ask(b, parse, max, head + tail) == Refused(Invalid)
  {
    HeadFound(head, tail);
    hide HeaderBlock;
  }

  // ---------------------------------------------------------------------
  // How much the tunnel echoes
  // ---------------------------------------------------------------------

  /** How many bytes behind the body come in with the headers when the header reads
      stop after this many bytes of the stream. */
  function Spill(asked: Asked, read: nat): nat
    requires asked.Accepted?
  {
    Max(0, read - asked.head - asked.body)
  }

  /** How many of the bytes behind the body are echoed when nothing times out. */
  function Echoed(asked: Asked, max: nat, read: nat): nat
    requires asked.Accepted?
  {
    Max(Spill(asked, read), Min(|asked.rest|, max))
  }

  /** The furthest any reads can spill past the declared body. */
  function WorstSpill(asked: Asked): nat
    requires asked.Accepted?
  {
    Min(|asked.rest|, Max(0, Min(4095, 65537 - asked.head) - asked.body))
  }

  lemma AskedShape(b: Backend, parse: Bytes -> Head, max: nat, stream: Bytes)
    requires Ask(b, parse, max, stream).Accepted?
    ensures var asked := Ask(b, parse, max, stream);
            && HeaderBlock(stream) == Success(stream[..asked.head]) && asked.head + asked.body <= |stream|
            && asked.rest == stream[asked.head + asked.body..] && asked.body <= max
            && 4 <= asked.head <= MAX_HEADERS + 1
  {
    hide ParseInt;
    var head := HeaderBlock(stream).value;
    assert head == stream[..|head|];
    NoMarkerBefore(stream, |head|, 0);
  }

  /** For every request and every way the header reads can fall: the tunnel echoes
      exactly the first min(available, max) bytes for all of them if and only if the
      limit is not below what some reads spill past the declared body. */
  lemma EchoExactIff(b: Backend, parse: Bytes -> Head, max: nat, stream: Bytes)
    requires Ask(b, parse, max, stream).Accepted?
    ensures var asked := Ask(b, parse, max, stream);
            (forall sizes :: StopsAt(stream, sizes).Some? ==>
               Echoed(asked, max, StopsAt(stream, sizes).value) == Min(|asked.rest|, max))
            <==> max >= WorstSpill(asked)
  {
    var asked := Ask(b, parse, max, stream);
    AskedShape(b, parse, max, stream);
    hide Ask, StopsAt, HeaderBlock;
    forall sizes | StopsAt(stream, sizes).Some? ensures Spill(asked, StopsAt(stream, sizes).value) <= WorstSpill(asked) {
      StopsWithin(stream, asked.head, sizes);
    }
    if max < WorstSpill(asked) {
      var read := asked.head + asked.body + WorstSpill(asked);
      var sizes := StopReached(stream, asked.head, read);
      assert Echoed(asked, max, StopsAt(stream, sizes).value) != Min(|asked.rest|, max);
    }
  }

  /** "GET /upgrade HTTP/1.1" and a blank line. */
  function UpgradeHead(): Bytes {
    [71, 69, 84, 32, 47, 117, 112, 103, 114, 97, 100, 101, 32, 72, 84, 84, 80, 47, 49, 46, 49, 13, 10, 13, 10]
  }

  const UPGRADE_URI: Bytes := [47, 117, 112, 103, 114, 97, 100, 101]

  lemma UpgradeHeadMarker(tail: Bytes)
    ensures |UpgradeHead()| == 25 && FindMarker(UpgradeHead() + tail) == Some(21)
  {
    var s := UpgradeHead() + tail;
    assert MarkerAt(s, 21);
    forall j | 0 <= j < 21 ensures !MarkerAt(s, j) { assert s[j + 3] == UpgradeHead()[j + 3] && s[j] == UpgradeHead()[j]; }
  }

  lemma UpgradeHeadBlock(tail: Bytes)
    requires |tail| < 4096
    ensures HeaderBlock(UpgradeHead() + tail) == Success(UpgradeHead())
  {
    var s := UpgradeHead() + tail;
    UpgradeHeadMarker(tail);
    hide FindMarker, MarkerAt, UpgradeHead;
    assert s[..|s|] == s && s[..25] == UpgradeHead();
  }

  lemma OneRead(stream: Bytes)
    requires 0 < |stream| <= 4096 && FindMarker(stream).Some?
    ensures StopsAt(stream, [|stream|]) == Some(|stream|)
  {
    assert stream[..|stream|] == stream && FindMarker(stream[..0]).None?;
    assert Unmarked(stream, 0) && !Unmarked(stream, |stream|) && Position(stream, []) == Some(0);
    hide FindMarker, MarkerAt, Unmarked, Position;
    PositionNext(stream, [], |stream|);
    assert [] + [|stream|] == [|stream|];
  }

  /** With a limit of one byte, a request to upgrade followed by "ab" is over-echoed
      when one read takes it all, and not when the reads stop at the blank line. */
  lemma OverEchoes(b: Backend, parse: Bytes -> Head) returns (stream: Bytes, sizes: seq<nat>)
    requires parse(UpgradeHead()) == Some((UPGRADE_URI, map[])) && b.select(UPGRADE_URI, map[]) == Upgrade
    ensures stream == UpgradeHead() + [97, 98]
    ensures var asked := Ask(b, parse, 1, stream);
            && asked == Accepted(Upgrade, 25, 0, [97, 98])
            && StopsAt(stream, [27]) == Some(27) && Echoed(asked, 1, 27) == 2
            && StopsAt(stream, sizes) == Some(25) && Echoed(asked, 1, 25) == 1
  {
    stream := UpgradeHead() + [97, 98];
    UpgradeHeadMarker([97, 98]);
    UpgradeHeadBlock([97, 98]);
    OneRead(stream);
    ParsesZero();
    hide FindMarker, MarkerAt, HeaderBlock, StopsAt, UpgradeHead, ParseInt;
    assert stream[..25] == UpgradeHead() && stream[25..] == [97, 98];
    sizes := StopReached(stream, 25, 25);
  }

  lemma ParsesZero()
    ensures ParseInt(ZERO) == Some(0)
  {
  }

  // ---------------------------------------------------------------------
  // The handler
  // ---------------------------------------------------------------------

  /** The tunnel loop: echo what arrives until the limit, the end of the stream, or a
      timeout of a read or a write, which it swallows; the fault is any other failure. */
  method Tunnel(sock: Socket, limit: int) returns (fault: Option<Fault>, ghost echoed: nat)
    requires sock.Valid() && !sock.faulted
    modifies sock`pos, sock`output, sock`calls, sock`faulted
    ensures sock.Valid() && old(sock.pos) + echoed <= sock.pos
    ensures sock.pos - old(sock.pos) <= Max(limit, 0)
    ensures sock.output == old(sock.output) + sock.input[old(sock.pos)..old(sock.pos) + echoed]
    ensures !sock.faulted ==> echoed == Min(|sock.input| - old(sock.pos), Max(limit, 0))
    ensures fault == None || (fault == Some(Broken) && sock.faulted)
  {
    ghost var (start, from) := (sock.output, sock.pos);
    var remaining := limit;
    echoed := 0;
    while remaining > 0
      invariant sock.Valid() && sock.pos == from + echoed
      invariant echoed == limit - remaining && (remaining >= 0 || remaining == limit)
      invariant sock.output == start + sock.input[from..sock.pos] && !sock.faulted
      decreases remaining
    {
      ghost var at := sock.pos;
      var block := sock.Recv(Min(4096, remaining));
      if block.TimedOut? || block.data == [] { break; }
      fault := Send(sock, block.data, false);
      EchoSoFar(start, sock.input, from, at, sock.pos, sock.output);
      echoed := |sock.output| - |start|;
      if fault.Some? {
        fault := if fault.value == Timeout then None else fault;
        return;
      }
      remaining := remaining - |block.data|;
    }
    fault := None;
  }

  /** Echoing one more block, or part of it, is echoing a longer stretch. */
  lemma EchoSoFar(start: Bytes, input: Bytes, from: nat, at: nat, end: nat, now: Bytes)
    requires from <= at <= end <= |input|
    requires start + input[from..at] <= now <= start + input[from..at] + input[at..end]
    ensures start + input[from..at] + input[at..end] == start + input[from..end]
    ensures at - from <= |now| - |start| <= end - from
    ensures now == start + input[from..from + (|now| - |start|)]
  {
    assert input[from..at] + input[at..end] == input[from..end];
    Assoc(start, input[from..at], input[at..end]);
    var n := |now| - |start|;
    assert now == (start + input[from..end])[..|start| + n];
    assert input[from..end][..n] == input[from..from + n];
  }

  /** What is read beyond the headers continues the stream. */
  lemma ReadAhead(input: Bytes, from: nat, to: nat, head: Bytes, extra: Bytes)
    requires from <= to <= |input| && head + extra == input[from..to]
    ensures to == from + |head| + |extra| && extra == input[from + |head|..to]
  {
    assert extra == (head + extra)[|head|..];
  }

  /** The reading half of `handle_http`: the selected mode, and the bytes behind
      the body that came in with the headers, which the sizes of the reads decide. */
  method ReadRequest(sock: Socket, b: Backend, parse: Bytes -> Head, max: nat)
    returns (r: Result<(Mode, Bytes), Fault>, ghost sizes: seq<nat>)
    requires sock.Valid() && !sock.faulted
    modifies sock`pos, sock`faulted
    ensures sock.Valid() && old(sock.pos) <= sock.pos
    ensures r == Failure(Timeout) <==> sock.faulted
    ensures r.Failure? ==> r.error != Broken
    ensures var asked := Ask(b, parse, max, old(sock.Rest()));
            r != Failure(Timeout) ==>
              if asked.Refused? then r == Failure(asked.error)
              else
                && r.Success? && r.value.0 == asked.mode && StopsAt(old(sock.Rest()), sizes).Some?
                && |r.value.1| == Spill(asked, StopsAt(old(sock.Rest()), sizes).value)
                && r.value.1 <= asked.rest && asked.rest[|r.value.1|..] == sock.Rest()
  {
    hide HeaderBlock, ParseInt, StopsAt;
    ghost var (stream, from) := (sock.Rest(), sock.pos);
    var received;
    received, sizes := RecvHeaders(sock);
    if received.Failure? {
      r := Failure(received.error);
      return;
    }
    var (head, extra) := received.value;
    ReadAhead(sock.input, from, sock.pos, head, extra);
    var parsed := parse(head);
    if parsed.None? {
      r := Failure(Invalid);
      return;
    }
    var (uri, headers) := parsed.value;
    var contentLength := DeclaredLength(headers);
    if contentLength < 0 || contentLength > max {
      r := Failure(Invalid);
      return;
    }
    var body := extra[..Min(contentLength, |extra|)];
    if |body| < contentLength {
      var more := RecvExact(sock, contentLength - |body|);
      if more.Failure? {
        r := Failure(more.error);
        return;
      }
      body := body + more.value;
    }
    var tunnel := extra[Min(contentLength, |extra|)..];
    ghost var rest := stream[|head| + contentLength..];
    SuffixSlice(sock.input, from, |head| + contentLength, |stream|);
    SuffixSlice(sock.input, from + |head| + contentLength, |tunnel|, |tunnel|);
    assert tunnel == rest[..|tunnel|];
    r := Success((b.select(uri, headers), tunnel));
  }

  /** The most a request can be answered with. */
  function Everything(b: Backend, asked: Asked): Bytes
    requires asked.Accepted?
  {
    if asked.mode.Upgrade? then b.page(Upgrade, true) + asked.rest else Plan(b, asked.mode, true, []).data
  }

  lemma PlanWithin(b: Backend, asked: Asked, tunnel: Bytes, start: Bytes, now: Bytes)
    requires asked.Accepted? && tunnel <= asked.rest && |tunnel| <= 4095
    requires start <= now <= start + Plan(b, asked.mode, true, tunnel).data
    ensures Between(start, now, start + Everything(b, asked))
    ensures var plan := Plan(b, asked.mode, true, tunnel);
            && plan.upgrade == asked.mode.Upgrade?
            && (plan.closeEarly || plan.upgrade) == (ClosesEarly(asked.mode) || asked.mode.Upgrade?)
            && (asked.mode.Upgrade? ==> start + plan.data == start + b.page(Upgrade, true) + asked.rest[..|tunnel|])
            && (!asked.mode.Upgrade? ==> plan.data == Everything(b, asked))
  {
    if asked.mode.Upgrade? {
      var page := b.page(Upgrade, true);
      assert tunnel[..Min(|tunnel|, MAX_REQUEST)] == tunnel == asked.rest[..|tunnel|];
      Assoc(start, page, tunnel);
      assert asked.rest == tunnel + asked.rest[|tunnel|..];
      Assoc(page, tunnel, asked.rest[|tunnel|..]);
      Assoc(start, page + tunnel, asked.rest[|tunnel|..]);
      PrefixOfSum(start + (page + tunnel), asked.rest[|tunnel|..]);
      PrefixOfSum(start, page + tunnel);
      BetweenWithin(start, start, now, start + (page + tunnel), start + Everything(b, asked));
    }
  }

  lemma PagePrefix(b: Backend, asked: Asked, echoed: nat, start: Bytes)
    requires asked.Accepted? && asked.mode.Upgrade? && echoed <= |asked.rest|
    ensures Between(start, start + b.page(Upgrade, true) + asked.rest[..echoed], start + Everything(b, asked))
  {
    var page := b.page(Upgrade, true);
    assert asked.rest[..echoed] + asked.rest[echoed..] == asked.rest;
    Assoc(start + page, asked.rest[..echoed], asked.rest[echoed..]);
    Assoc(start, page, asked.rest);
    Assoc(start, page, asked.rest[..echoed]);
    PrefixOfSum(start, page + asked.rest[..echoed]);
    PrefixOfSum(start + page + asked.rest[..echoed], asked.rest[echoed..]);
  }

  /** The answering half of `handle_http`, for what the request asked for. */
  method Answer(sock: Socket, b: Backend, max: nat, mode: Mode, tunnel: Bytes, ghost asked: Asked)
    returns (r: Result<bool, Fault>, ghost echoed: nat)
    requires sock.Valid() && !sock.faulted && asked.Accepted? && asked.mode == mode && |tunnel| <= 4095
    requires tunnel <= asked.rest && asked.rest[|tunnel|..] == sock.Rest()
    modifies sock`pos, sock`output, sock`calls, sock`faulted
    ensures sock.Valid() && (r.Failure? ==> IsCut(r.error) && sock.faulted)
    ensures Between(old(sock.output), sock.output, old(sock.output) + Everything(b, asked))
    ensures r.Success? ==> r.value == (ClosesEarly(mode) || mode.Upgrade?)
    ensures r.Success? && !mode.Upgrade? ==>
              && !sock.faulted && sock.output == old(sock.output) + Everything(b, asked)
              && Written(old(sock.calls), sock.calls, mode == Partial, |Everything(b, asked)|)
    ensures r.Success? && mode.Upgrade? ==>
              && var full := Max(|tunnel|, Min(|asked.rest|, max));
              && echoed <= Min(|asked.rest|, full) && (!sock.faulted ==> echoed == full)
              && sock.output == old(sock.output) + b.page(Upgrade, true) + asked.rest[..echoed]
  {
    ghost var start := sock.output;
    hide Plan, Between, Everything, ClosesEarly, Written;
    echoed := 0;
    var plan := Plan(b, mode, true, tunnel);
    PlanMeans(b, mode, true, tunnel);
    var fault := Send(sock, plan.data, plan.partial);
    PlanWithin(b, asked, tunnel, start, sock.output);
    if fault.Some? {
      r := Failure(fault.value);
      return;
    }
    if plan.upgrade {
      ghost var (at, spill) := (sock.pos, |tunnel|);
      fault, echoed := Tunnel(sock, max - |tunnel|);
      EchoContinues(asked.rest, spill, sock.input, at, at + echoed);
      Assoc(start + b.page(Upgrade, true), asked.rest[..spill], sock.input[at..at + echoed]);
      echoed := spill + echoed;
      PagePrefix(b, asked, echoed, start);
      if fault.Some? {
        r := Failure(fault.value);
        return;
      }
    }
    r := Success(plan.closeEarly || plan.upgrade);
  }

  /** `handle_http`. The reply is a function of the stream, and of where the header
      reads stopped for the tunnel alone; a read or write that is cut off leaves a
      prefix of it, and one inside the tunnel by a timeout is no error. */
  method HandleHttp(sock: Socket, b: Backend, parse: Bytes -> Head, max: nat)
    returns (r: Result<bool, Fault>, ghost sizes: seq<nat>, ghost echoed: nat)
    requires sock.Valid() && !sock.faulted
    modifies sock`pos, sock`output, sock`calls, sock`faulted
    ensures sock.Valid() && (r.Failure? && IsCut(r.error) ==> sock.faulted)
    ensures var asked := Ask(b, parse, max, old(sock.Rest()));
            if asked.Refused? then
              sock.output == old(sock.output) && r == Failure(if sock.faulted then Timeout else asked.error)
            else Between(old(sock.output), sock.output, old(sock.output) + Everything(b, asked))
    ensures var asked := Ask(b, parse, max, old(sock.Rest()));
            asked.Accepted? && !(r.Failure? && IsCut(r.error)) ==>
              && r == Success(ClosesEarly(asked.mode) || asked.mode.Upgrade?)
              && (!asked.mode.Upgrade? ==>
                    && !sock.faulted && sock.output == old(sock.output) + Everything(b, asked)
                    && Written(old(sock.calls), sock.calls, asked.mode == Partial, |Everything(b, asked)|))
              && (asked.mode.Upgrade? ==>
                    && StopsAt(old(sock.Rest()), sizes).Some?
                    && var full := Echoed(asked, max, StopsAt(old(sock.Rest()), sizes).value);
                    && echoed <= Min(|asked.rest|, full) && (!sock.faulted ==> echoed == full)
                    && sock.output == old(sock.output) + b.page(Upgrade, true) + asked.rest[..echoed])
  {
    ghost var asked := Ask(b, parse, max, sock.Rest());
    if asked.Accepted? { SpillSmall(b, parse, max, sock.Rest()); }
    hide Ask, StopsAt, Between, Everything, ClosesEarly, Written;
    NothingOut(sock.output, b, asked);
    echoed := 0;
    var request;
    request, sizes := ReadRequest(sock, b, parse, max);
    if request.Failure? {
      r := Failure(request.error);
      return;
    }
    var (mode, tunnel) := request.value;
    r, echoed := Answer(sock, b, max, mode, tunnel, asked);
  }

  lemma NothingOut(start: Bytes, b: Backend, asked: Asked)
    ensures asked.Accepted? ==> Between(start, start, start + Everything(b, asked))
  {
  }

  lemma SpillSmall(b: Backend, parse: Bytes -> Head, max: nat, stream: Bytes)
    requires Ask(b, parse, max, stream).Accepted?
    ensures forall sizes :: StopsAt(stream, sizes).Some? ==>
              Spill(Ask(b, parse, max, stream), StopsAt(stream, sizes).value) <= 4095
  {
    var asked := Ask(b, parse, max, stream);
    AskedShape(b, parse, max, stream);
    hide Ask, StopsAt, HeaderBlock;
    forall sizes | StopsAt(stream, sizes).Some? ensures Spill(asked, StopsAt(stream, sizes).value) <= 4095 {
      StopsWithin(stream, asked.head, sizes);
    }
  }

  lemma EchoContinues(rest: Bytes, spill: nat, input: Bytes, at: nat, end: nat)
    requires spill <= |rest| && at <= end <= |input| && rest[spill..] == input[at..]
    ensures spill + end - at <= |rest| && rest[..spill] + input[at..end] == rest[..spill + end - at]
  {
    assert |rest[spill..]| == |input[at..]|;
    assert input[at..end] == input[at..][..end - at] == rest[spill..][..end - at];
  }
}
