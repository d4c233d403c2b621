/** A connected socket: a fixed stream of peer bytes, and an adversary that picks
    how many bytes every call moves and when a call fails. */
module Sockets {
  import opened Bytes
  import opened Wrappers

  /** The exceptions a socket operation can raise. */
  datatype Fault = Eof | Timeout | Broken | TooLarge | Invalid

  datatype Received = Block(data: Bytes) | TimedOut

  class Socket {
    /** What the peer sends before it shuts down its side. */
    const input: Bytes
    /** How much of the input has been read. */
    var pos: nat
    /** What has been written to the peer. */
    var output: Bytes
    /** Whether a call has timed out or failed. */
    var faulted: bool
    /** How much each call was given to write. */
    ghost var calls: seq<nat>

    constructor (stream: Bytes)
      ensures Valid() && input == stream && pos == 0 && output == [] && !faulted && calls == []
    {
      input := stream;
      pos, output, faulted, calls := 0, [], false, [];
    }

    ghost predicate Valid()
      reads this
    {
      pos <= |input|
    }

    /** The bytes still to be read. */
    ghost function Rest(): Bytes
      reads this
      requires Valid()
    {
      input[pos..]
    }

    /** `recv(n)`: some non-empty run of at most n bytes, b"" once the stream is
        exhausted, or a timeout. */
    method Recv(n: nat) returns (r: Received)
      requires Valid() && n > 0
      modifies this`pos, this`faulted
      ensures Valid() && old(pos) <= pos
      ensures r.Block? ==> r.data == input[old(pos)..pos] && |r.data| <= n && faulted == old(faulted)
      ensures r.Block? ==> (r.data == [] <==> old(pos) == |input|)
      ensures r.TimedOut? ==> pos == old(pos) && faulted
    {
      if * {
        faulted := true;
        return TimedOut;
      }
      var available := Min(n, |input| - pos);
      var k :| 0 <= k <= available && (available > 0 ==> k > 0);
      r := Block(input[pos..pos + k]);
      pos := pos + k;
    }

    /** `send(data)`: some prefix goes out, or the call times out or fails. */
    method SendSome(data: Bytes) returns (r: Result<nat, Fault>)
      requires data != []
      modifies this`output, this`calls, this`faulted
      ensures calls == old(calls) + [|data|]
      ensures r.Success? ==> r.value <= |data| && output == old(output) + data[..r.value]
      ensures r.Failure? ==> IsCut(r.error) && output == old(output)
      ensures if r.Success? && r.value > 0 then faulted == old(faulted) else faulted
    {
      calls := calls + [|data|];
      if * {
        var sent :| 0 <= sent <= |data|;
        output := output + data[..sent];
        faulted := faulted || sent == 0;
        r := Success(sent);
      } else {
        faulted := true;
        var timeout: bool := *;
        r := Failure(if timeout then Timeout else Broken);
      }
    }

    /** `sendall(data)`: everything goes out, or a prefix and a timeout or failure. */
    method SendAll(data: Bytes) returns (fault: Option<Fault>)
      modifies this`output, this`calls, this`faulted
      ensures calls == old(calls) + [|data|]
      ensures old(output) <= output <= old(output) + data
      ensures fault.None? ==> output == old(output) + data && faulted == old(faulted)
      ensures fault.Some? ==> IsCut(fault.value) && faulted
    {
      calls := calls + [|data|];
      var sent :| 0 <= sent <= |data|;
      var timeout: bool := *;
      output := output + data[..sent];
      fault := if sent == |data| then None else Some(if timeout then Timeout else Broken);
      faulted := faulted || fault.Some?;
    }
  }

  /** The exceptions with which a read or a write is cut off. */
  predicate IsCut(fault: Fault) { fault == Timeout || fault == Broken }

  /** A reply went out in calls of at most three bytes, or was given to one call. */
  ghost predicate Written(before: seq<nat>, after: seq<nat>, partial: bool, size: nat) {
    if partial then before <= after && forall i :: |before| <= i < |after| ==> after[i] <= 3
    else after == before + [size]
  }

  /** `_send`: all at once, or at most three bytes a call. */
  method Send(sock: Socket, data: Bytes, partial: bool) returns (fault: Option<Fault>)
    modifies sock`output, sock`calls, sock`faulted
    ensures Written(old(sock.calls), sock.calls, partial, |data|)
    ensures old(sock.output) <= sock.output <= old(sock.output) + data
    ensures fault.None? ==> sock.output == old(sock.output) + data && sock.faulted == old(sock.faulted)
    ensures fault.Some? ==> IsCut(fault.value) && sock.faulted
  {
    if !partial {
      fault := sock.SendAll(data);
      return;
    }
    var view := data;
    while view != []
      invariant |view| <= |data| && view == data[|data| - |view|..]
      invariant sock.output == old(sock.output) + data[..|data| - |view|]
      invariant sock.faulted == old(sock.faulted) && Written(old(sock.calls), sock.calls, true, |data|)
      decreases |view|
    {
      var sent := sock.SendSome(view[..Min(3, |view|)]);
      if sent.Failure? { return Some(sent.error); }
      if sent.value == 0 { return Some(Broken); }
      view := view[sent.value..];
    }
    fault := None;
  }

  lemma RestIs(sock: Socket)
    requires sock.Valid()
    ensures sock.Rest() == sock.input[sock.pos..]
  {
  }

  /** `_recv_exact`: exactly `length` bytes, or the end of the stream. */
  method RecvExact(sock: Socket, length: nat) returns (r: Result<Bytes, Fault>)
    requires sock.Valid()
    modifies sock`pos, sock`faulted
    ensures sock.Valid() && old(sock.pos) <= sock.pos
    ensures r.Success? ==> r.value == sock.input[old(sock.pos)..sock.pos] && |r.value| == length
                           && sock.faulted == old(sock.faulted)
    ensures r.Failure? ==> r.error == Eof || r.error == Timeout
    ensures r == Failure(Eof) ==> |sock.input| - old(sock.pos) < length && sock.faulted == old(sock.faulted)
    ensures r == Failure(Timeout) ==> sock.faulted
  {
    var data := [];
    while |data| < length
      invariant sock.Valid() && old(sock.pos) <= sock.pos
      invariant data == sock.input[old(sock.pos)..sock.pos] && |data| <= length
      invariant sock.faulted == old(sock.faulted)
      decreases length - |data|
    {
      var block := sock.Recv(length - |data|);
      if block.TimedOut? { return Failure(Timeout); }
      if block.data == [] { return Failure(Eof); }
      data := data + block.data;
    }
    r := Success(data);
  }

  const MAX_HEADERS := 64 * 1024

  predicate MarkerAt(s: Bytes, i: nat) {
    i + 4 <= |s| && s[i] == 13 && s[i + 1] == 10 && s[i + 2] == 13 && s[i + 3] == 10
  }

  /** `s.find(b"\r\n\r\n")`. */
  function FindMarker(s: Bytes): (r: Option<nat>)
    ensures r.Some? ==> MarkerAt(s, r.value) && forall j :: 0 <= j < r.value ==> !MarkerAt(s, j)
    ensures r.None? ==> forall j: nat :: !MarkerAt(s, j)
  {
    FindMarkerFrom(s, 0)
  }

  function FindMarkerFrom(s: Bytes, from: nat): (r: Option<nat>)
    ensures r.Some? ==> from <= r.value && MarkerAt(s, r.value)
    ensures r.Some? ==> forall j :: from <= j < r.value ==> !MarkerAt(s, j)
    ensures r.None? ==> forall j :: from <= j ==> !MarkerAt(s, j)
    decreases |s| - from
  {
    if from + 4 > |s| then None
    else if MarkerAt(s, from) then Some(from)
    else FindMarkerFrom(s, from + 1)
  }

  /** A marker found in a prefix is the first marker of the whole. */
  lemma FindMarkerInPrefix(prefix: Bytes, s: Bytes)
    requires prefix <= s
    ensures FindMarker(prefix).Some? ==> FindMarker(s) == FindMarker(prefix)
  {
    assert forall j: nat :: j + 4 <= |prefix| ==> MarkerAt(prefix, j) == MarkerAt(s, j);
  }

  /** The header block of a stream, whatever the sizes of the reads: the shortest
      prefix ending in a blank line, provided it ends within MAX_HEADERS + 1 bytes. */
  function HeaderBlock(stream: Bytes): Result<Bytes, Fault> {
    var window := stream[..Min(|stream|, MAX_HEADERS + 1)];
    match FindMarker(window)
    case Some(i) => Success(window[..i + 4])
    case None => if |stream| > MAX_HEADERS then Failure(TooLarge) else Failure(Eof)
  }

  predicate EndsInMarker(s: Bytes) { |s| >= 4 && MarkerAt(s, |s| - 4) }

  /** The first n bytes end in a blank line, and no shorter prefix does. */
  ghost predicate ShortestHeader(stream: Bytes, n: nat) {
    && n <= |stream|
    && EndsInMarker(stream[..n])
    && forall k :: 0 <= k < n ==> !EndsInMarker(stream[..k])
  }

  lemma PrefixMarker(stream: Bytes, k: nat)
    requires k <= |stream| && k <= MAX_HEADERS + 1
    ensures EndsInMarker(stream[..k]) <==>
            k >= 4 && MarkerAt(stream[..Min(|stream|, MAX_HEADERS + 1)], k - 4)
  {
  }

  /** The header block is the shortest prefix that ends in a blank line. */
  lemma HeaderBlockIsShortest(stream: Bytes, n: nat)
    requires n <= |stream|
    ensures HeaderBlock(stream) == Success(stream[..n]) <==> n <= 65537 && ShortestHeader(stream, n)
  {
    var window := stream[..Min(|stream|, MAX_HEADERS + 1)];
    forall k | 0 <= k <= |window|
      ensures EndsInMarker(stream[..k]) <==> k >= 4 && MarkerAt(window, k - 4)
    {
      PrefixMarker(stream, k);
    }
    match FindMarker(window) {
      case None =>
      case Some(i) =>
        assert window[..i + 4] == stream[..i + 4];
        assert ShortestHeader(stream, i + 4);
        if n <= MAX_HEADERS + 1 && ShortestHeader(stream, n) {
          assert MarkerAt(window, n - 4);
          assert n == i + 4;
        }
        if stream[..n] == stream[..i + 4] {
          assert |stream[..n]| == n;
        }
    }
  }

  /** Without one among the first MAX_HEADERS + 1 bytes, the length of the stream
      alone decides between the two errors. */
  lemma HeaderBlockErrors(stream: Bytes)
    ensures HeaderBlock(stream).Failure? <==>
            forall n :: 0 <= n <= |stream| && n <= 65537 ==> !EndsInMarker(stream[..n])
    ensures HeaderBlock(stream).Failure? ==>
            HeaderBlock(stream).error == if |stream| > 65536 then TooLarge else Eof
  {
    var window := stream[..Min(|stream|, MAX_HEADERS + 1)];
    forall k | 0 <= k <= |window|
      ensures EndsInMarker(stream[..k]) <==> k >= 4 && MarkerAt(window, k - 4)
    {
      PrefixMarker(stream, k);
    }
    if FindMarker(window).Some? {
      assert EndsInMarker(stream[..FindMarker(window).value + 4]);
    }
  }

  /** The read that completes the first marker also completes the header block. */
  lemma BlockFound(stream: Bytes, before: nat, read: nat)
    requires before <= read <= |stream| && read <= MAX_HEADERS + 1
    requires FindMarker(stream[..before]).None? && FindMarker(stream[..read]).Some?
    ensures var end := FindMarker(stream[..read]).value + 4;
            before < end <= read && HeaderBlock(stream) == Success(stream[..read][..end])
  {
    var window := stream[..Min(|stream|, MAX_HEADERS + 1)];
    var data := stream[..read];
    assert data == window[..read];
    FindMarkerInPrefix(data, window);
    var i := FindMarker(data).value;
    if i + 4 <= before { assert MarkerAt(stream[..before], i); }
    assert data[..i + 4] == window[..i + 4];
  }

  // ---------------------------------------------------------------------
  // The reads of `_recv_headers` as a schedule of sizes
  // ---------------------------------------------------------------------

  predicate Unmarked(stream: Bytes, read: nat)
    requires read <= |stream|
  {
    FindMarker(stream[..read]).None?
  }

  /** A read of this size is one the loop, the limits and the stream allow. */
  predicate CanRead(stream: Bytes, read: nat, size: nat)
    requires read <= |stream|
  {
    Unmarked(stream, read) && 0 < size <= Min(4096, MAX_HEADERS + 1 - read) && read + size <= |stream|
  }

  /** How far reads of these sizes have got, when `_recv_headers` makes them all. */
  function Position(stream: Bytes, sizes: seq<nat>): (r: Option<nat>)
    ensures r.Some? ==> r.value <= |stream| && r.value <= MAX_HEADERS + 1
  {
    if sizes == [] then Some(0)
    else
      var (earlier, size) := (Position(stream, sizes[..|sizes| - 1]), sizes[|sizes| - 1]);
      if earlier.Some? && CanRead(stream, earlier.value, size) then Some(earlier.value + size) else None
  }

  /** How much has been read when reads of these sizes complete the header block. */
  function StopsAt(stream: Bytes, sizes: seq<nat>): Option<nat> {
    var at := Position(stream, sizes);
    if at.Some? && !Unmarked(stream, at.value) then at else None
  }

  /** The furthest a header block of h bytes can be overshot. */
  function Overshoot(stream: Bytes, h: nat): int {
    Min(|stream|, Min(h + 4095, 65537))
  }

  lemma NoMarkerBefore(stream: Bytes, h: nat, j: nat)
    requires h <= |stream| && HeaderBlock(stream) == Success(stream[..h])
    ensures j < h ==> Unmarked(stream, j)
    ensures h <= j <= |stream| ==> !Unmarked(stream, j)
    ensures 4 <= h <= MAX_HEADERS + 1
  {
    HeaderBlockIsShortest(stream, h);
    hide HeaderBlock;
    if j <= |stream| { MarkerEnds(stream, j); }
    assert h <= j <= |stream| ==> MarkerAt(stream[..j], h - 4);
  }

  lemma MarkerEnds(stream: Bytes, j: nat)
    requires j <= |stream|
    ensures FindMarker(stream[..j]).Some? ==>
            var end := FindMarker(stream[..j]).value + 4;
            end <= j && EndsInMarker(stream[..end])
  {
  }

  lemma PositionNext(stream: Bytes, sizes: seq<nat>, size: nat)
    requires Position(stream, sizes).Some? && CanRead(stream, Position(stream, sizes).value, size)
    ensures Position(stream, sizes + [size]) == Some(Position(stream, sizes).value + size)
  {
    hide CanRead;
    assert (sizes + [size])[..|sizes|] == sizes;
  }

  /** Whatever the sizes, the reads stop behind the header block and within the overshoot. */
  lemma StopsWithin(stream: Bytes, h: nat, sizes: seq<nat>)
    requires h <= |stream| && HeaderBlock(stream) == Success(stream[..h]) && StopsAt(stream, sizes).Some?
    ensures h <= StopsAt(stream, sizes).value <= Overshoot(stream, h)
  {
    var read := StopsAt(stream, sizes).value;
    NoMarkerBefore(stream, h, read);
    assert sizes != [];
    NoMarkerBefore(stream, h, Position(stream, sizes[..|sizes| - 1]).value);
    hide Unmarked, HeaderBlock;
  }

  lemma {:induction false} OneByOne(stream: Bytes, h: nat, j: nat) returns (sizes: seq<nat>)
    requires h <= |stream| && HeaderBlock(stream) == Success(stream[..h]) && j < h
    ensures Position(stream, sizes) == Some(j)
  {
    NoMarkerBefore(stream, h, j);
    sizes := [];
    if j > 0 {
      NoMarkerBefore(stream, h, j - 1);
      var earlier := OneByOne(stream, h, j - 1);
      PositionNext(stream, earlier, 1);
      sizes := earlier + [1];
    }
  }

  /** And every stop there is reached by some sizes. */
  lemma StopReached(stream: Bytes, h: nat, read: nat) returns (sizes: seq<nat>)
    requires h <= |stream| && HeaderBlock(stream) == Success(stream[..h]) && h <= read <= Overshoot(stream, h)
    ensures StopsAt(stream, sizes) == Some(read)
  {
    NoMarkerBefore(stream, h, read);
    NoMarkerBefore(stream, h, h - 1);
    var earlier := OneByOne(stream, h, h - 1);
    hide HeaderBlock, Unmarked;
    PositionNext(stream, earlier, read - (h - 1));
    sizes := earlier + [read - (h - 1)];
  }

  /** The loop of `_recv_headers` after some reads, none of which completed a marker. */
  ghost predicate Reading(stream: Bytes, data: Bytes, sizes: seq<nat>) {
    && |data| <= |stream| && |data| <= MAX_HEADERS + 1 && data == stream[..|data|] && FindMarker(data).None?
    && Position(stream, sizes) == Some(|data|)
  }

  lemma NextRead(stream: Bytes, data: Bytes, sizes: seq<nat>, block: Bytes)
    requires Reading(stream, data, sizes) && block != [] && |block| <= Min(4096, MAX_HEADERS + 1 - |data|)
    requires |data| + |block| <= |stream| && block == stream[|data|..|data| + |block|]
    ensures var (now, found) := (data + block, FindMarker(data + block));
            && now == stream[..|data| + |block|]
            && if found.None? then Reading(stream, now, sizes + [|block|])
               else
                 && |data| < found.value + 4 <= |now| && now[..found.value + 4] + now[found.value + 4..] == now
                 && HeaderBlock(stream) == Success(now[..found.value + 4])
                 && StopsAt(stream, sizes + [|block|]) == Some(|now|)
  {
    var now := data + block;
    assert now == stream[..|data| + |block|];
    hide HeaderBlock, FindMarker, Position, MarkerAt;
    PositionNext(stream, sizes, |block|);
    if FindMarker(now).Some? { BlockFound(stream, |data|, |now|); }
  }

  /** A window without a marker that cannot grow settles which error it is. */
  lemma NoBlock(stream: Bytes, data: Bytes, sizes: seq<nat>)
    requires Reading(stream, data, sizes)
    ensures NoHeaders(stream, Timeout)
    ensures |data| == |stream| <= MAX_HEADERS ==> NoHeaders(stream, Eof)
    ensures |data| == MAX_HEADERS + 1 ==> NoHeaders(stream, TooLarge)
  {
    assert stream[..|stream|] == stream;
  }

  lemma ReadingStarts(stream: Bytes)
    ensures Reading(stream, [], [])
  {
  }

  /** Reads of these sizes took these bytes off a stream and found its header block. */
  ghost predicate HeadersRead(stream: Bytes, taken: Bytes, head: Bytes, extra: Bytes, sizes: seq<nat>) {
    && HeaderBlock(stream) == Success(head) && head + extra == taken && |extra| < 4096
    && StopsAt(stream, sizes) == Some(|taken|)
  }

  ghost predicate NoHeaders(stream: Bytes, error: Fault) {
    error == Timeout || (HeaderBlock(stream) == Failure(error) && (error == Eof || error == TooLarge))
  }

  /** Behind one more read the block is complete, or the loop goes on. */
  ghost predicate ReadOn(input: Bytes, from: nat, stream: Bytes, now: Bytes, sizes: seq<nat>)
    requires from + |now| <= |input|
  {
    var found := FindMarker(now);
    if found.None? then Reading(stream, now, sizes)
    else
      && found.value + 4 <= |now|
      && HeadersRead(stream, input[from..from + |now|], now[..found.value + 4], now[found.value + 4..], sizes)
  }

  lemma ReadMore(input: Bytes, from: nat, stream: Bytes, data: Bytes, sizes: seq<nat>, block: Bytes)
    requires from + |data| + |block| <= |input| && stream == input[from..]
    requires Reading(stream, data, sizes) && 0 < |block| <= Min(4096, MAX_HEADERS + 1 - |data|)
    requires block == input[from + |data|..from + |data| + |block|]
    ensures ReadOn(input, from, stream, data + block, sizes + [|block|])
  {
    SuffixSlice(input, from, |data|, |data| + |block|);
    NextRead(stream, data, sizes, block);
    SuffixSlice(input, from, 0, |data + block|);
  }

  /** One more read of `_recv_headers`, appended to the data. */
  method RecvMore(sock: Socket, data: Bytes, ghost stream: Bytes, ghost from: nat, ghost sizes: seq<nat>)
    returns (r: Result<Bytes, Fault>)
    requires sock.Valid() && from + |data| == sock.pos && stream == sock.input[from..]
    requires Reading(stream, data, sizes) && |data| <= MAX_HEADERS
    modifies sock`pos, sock`faulted
    ensures sock.Valid() && if r == Failure(Timeout) then sock.faulted else sock.faulted == old(sock.faulted)
    ensures r.Failure? ==> NoHeaders(stream, r.error) && old(sock.pos) <= sock.pos
    ensures r.Success? ==> |r.value| > |data| && from + |r.value| == sock.pos && |r.value| <= MAX_HEADERS + 1
    ensures r.Success? ==> ReadOn(sock.input, from, stream, r.value, sizes + [|r.value| - |data|])
  {
    hide Reading, NoHeaders, ReadOn;
    NoBlock(stream, data, sizes);
    var block := sock.Recv(Min(4096, MAX_HEADERS + 1 - |data|));
    if block.TimedOut? { return Failure(Timeout); }
    if block.data == [] { return Failure(Eof); }
    ReadMore(sock.input, from, stream, data, sizes, block.data);
    r := Success(data + block.data);
  }

  /** `_recv_headers`: the header block and whatever was read beyond it; the sizes are
      those of the reads. */
  method RecvHeaders(sock: Socket) returns (r: Result<(Bytes, Bytes), Fault>, ghost sizes: seq<nat>)
    requires sock.Valid()
    modifies sock`pos, sock`faulted
    ensures sock.Valid() && old(sock.pos) <= sock.pos
    ensures r.Success? ==>
              HeadersRead(old(sock.Rest()), sock.input[old(sock.pos)..sock.pos], r.value.0, r.value.1, sizes)
    ensures r.Failure? ==> NoHeaders(old(sock.Rest()), r.error)
    ensures if r == Failure(Timeout) then sock.faulted else sock.faulted == old(sock.faulted)
  {
    ghost var (stream, from) := (sock.Rest(), sock.pos);
    var data := [];
    sizes := [];
    RestIs(sock);
    ReadingStarts(stream);
    hide FindMarker, MarkerAt, Reading, HeadersRead, NoHeaders, Socket.Rest;
    while |data| <= MAX_HEADERS
      invariant sock.Valid() && sock.pos == from + |data| && |data| <= MAX_HEADERS + 1
      invariant Reading(stream, data, sizes) && sock.faulted == old(sock.faulted)
      decreases MAX_HEADERS + 1 - |data|
    {
      var more := RecvMore(sock, data, stream, from, sizes);
      if more.Failure? {
        r := Failure(more.error);
        return;
      }
      data, sizes := more.value, sizes + [|more.value| - |data|];
      var marker := FindMarker(data);
      if marker.Some? {
        var end := marker.value + 4;
        r := Success((data[..end], data[end..]));
        return;
      }
    }
    NoBlock(stream, data, sizes);
    r := Failure(TooLarge);
  }
}
