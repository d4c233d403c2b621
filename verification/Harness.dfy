/** The send path of the fuzzing harness: C pointers into one allocation, sizes
    that must not overflow, and a target that takes what it likes of every send. */
module Harness {
  import opened Bytes
  import opened Multipacket
  import opened Wrappers

  /** C's size_t on a 64-bit target; every result has to stay in range. */
  newtype SizeT = x: int | 0 <= x < 0x1_0000_0000_0000_0000

  const FUZZ_MAX_PACKET_COUNT: SizeT := 64

  /** A pointer to data[at] with size bytes behind it inside the allocation. */
  predicate Readable(data: array<byte>, at: SizeT, size: SizeT) {
    at as int + size as int <= data.Length < 0x1_0000_0000_0000_0000
  }

  /** The same, with nothing allocated behind those bytes. */
  predicate Whole(data: array<byte>, at: SizeT, size: SizeT) {
    at as int + size as int == data.Length < 0x1_0000_0000_0000_0000
  }

  function View(data: array<byte>, at: SizeT, size: SizeT): (r: Bytes)
    requires Readable(data, at, size)
    reads data
    ensures |r| == size as int
  {
    data[at as int..at as int + size as int]
  }

  datatype Outcome = Moved(count: SizeT) | Interrupted | Failed

  /** The connection to lighttpd. It interrupts calls only finitely often. The ghost
      fields say how much had been received at each wait for a response, how many waits
      got data, and in which sizes sendAll was given what was to be sent. */
  class Target {
    var received: Bytes
    var interrupts: nat
    ghost var waits: seq<nat>
    ghost var answers: nat
    ghost var pieces: seq<nat>

    constructor (interrupts: nat)
      ensures received == [] && waits == [] && answers == 0 && pieces == [] && this.interrupts == interrupts
    {
      received, waits, answers, pieces := [], [], 0, [];
      this.interrupts := interrupts;
    }

    /** `send`: a non-empty part goes out, or the call is interrupted or fails. */
    method Send(data: array<byte>, at: SizeT, size: SizeT) returns (r: Outcome)
      requires Readable(data, at, size) && size > 0
      modifies this`received, this`interrupts
      ensures match r
              case Moved(n) => 0 < n <= size && received == old(received) + View(data, at, n)
                               && interrupts == old(interrupts)
              case Interrupted => received == old(received) && interrupts < old(interrupts)
              case Failed => received == old(received) && interrupts == old(interrupts)
    {
      if * {
        var n: SizeT :| 0 < n <= size;
        received := received + data[at as int..at as int + n as int];
        r := Moved(n);
      } else if interrupts > 0 {
        interrupts := interrupts - 1;
        r := Interrupted;
      } else {
        r := Failed;
      }
    }

    /** `poll`: what comes back is the target's choice. */
    method Poll() returns (r: Outcome)
      modifies this`interrupts
      ensures if r.Interrupted? then interrupts < old(interrupts) else interrupts == old(interrupts)
    {
      if * {
        var n: SizeT := *;
        r := Moved(n);
      } else if interrupts > 0 {
        interrupts := interrupts - 1;
        r := Interrupted;
      } else {
        r := Failed;
      }
    }

    /** `recv`: some data, the end of the stream, or a failure. */
    method Recv() returns (r: Outcome)
      modifies this`interrupts, this`answers
      ensures if r.Interrupted? then interrupts < old(interrupts) else interrupts == old(interrupts)
      ensures answers == old(answers) + if r.Moved? && r.count > 0 then 1 else 0
    {
      r := Poll();
      answers := answers + if r.Moved? && r.count > 0 then 1 else 0;
    }
  }

  lemma ViewAt(data: array<byte>, at: SizeT, size: SizeT, offset: SizeT, count: SizeT)
    requires Readable(data, at, size) && offset as int + 2 + count as int <= size as int
    ensures View(data, at, size)[offset as int] == data[at + offset]
    ensures View(data, at, size)[offset as int + 1] == data[at + offset + 1]
    ensures View(data, at + offset + 2, count) == View(data, at, size)[offset as int + 2..offset as int + 2 + count as int]
  {
    SliceOfSlice(data[..], at as int, at as int + size as int, offset as int + 2, offset as int + 2 + count as int);
  }

  lemma SliceOfSlice<T>(s: seq<T>, from: nat, to: nat, i: nat, j: nat)
    requires i <= j && from + j <= to <= |s|
    ensures s[from..to][i..j] == s[from + i..from + j]
  {
    assert s[from..to] == s[from..][..to - from];
  }

  lemma PacketEndInMemory(data: array<byte>, at: SizeT, size: SizeT, offset: SizeT)
    requires Readable(data, at, size) && offset < size
    ensures PacketEnd(View(data, at, size), offset as int) ==
            if size - offset < 2 then None
            else
              var n := FromBe16(data[at + offset], data[at + offset + 1]) as SizeT;
              if n == 0 || n > size - offset - 2 then None else Some((offset + 2 + n) as int)
  {
    if size - offset >= 2 { ViewAt(data, at, size, offset, 0); }
  }

  /** `fuzzValidMultipacketData`. */
  method FuzzValidMultipacketData(data: array<byte>, at: SizeT, size: SizeT) returns (r: bool)
    requires Whole(data, at, size)
    ensures r <==> WellFramed(View(data, at, size))
  {
    ghost var payload := View(data, at, size);
    PacketsIffWellFramed(payload);
    hide WellFramed, SplitFrom, Packets, View, PacketEnd, FromBe16;
    var offset: SizeT := 0;
    var packetCount: SizeT := 0;
    ghost var done: seq<Bytes> := [];
    while offset < size
      invariant 0 <= offset <= size && packetCount as int == |done| <= MAX_PACKETS
      invariant SplitFrom(payload, 0, []) == SplitFrom(payload, offset as int, done)
    {
      SplitStep(payload, offset as int, done);
      SplitSettles(payload, offset as int, done);
      PacketEndInMemory(data, at, size, offset);
      if size - offset < 2 { return false; }
      var packetSize := FromBe16(data[at + offset], data[at + offset + 1]) as SizeT;
      offset := offset + 2;
      if packetSize == 0 || packetSize > size - offset { return false; }
      done := done + [payload[offset as int..offset as int + packetSize as int]];
      offset := offset + packetSize;
      packetCount := packetCount + 1;
      if packetCount > FUZZ_MAX_PACKET_COUNT {
        TooMany(payload, offset as int, done);
        return false;
      }
    }
    SplitSettles(payload, offset as int, done);
    r := packetCount > 0;
  }

  /** Of what was to be sent the target got a prefix, and all of it just if whole. */
  ghost predicate Delivered(before: Bytes, after: Bytes, sent: Bytes, whole: bool) {
    before <= after <= before + sent && (whole <==> after == before + sent)
  }

  lemma DeliveredInTurn(start: Bytes, before: Bytes, after: Bytes, head: Bytes, tail: Bytes, whole: bool)
    requires Delivered(start, before, head, true) && Delivered(before, after, tail, whole)
    ensures Delivered(start, after, head + tail, whole)
  {
    Assoc(start, head, tail);
  }

  lemma DeliveredShort(start: Bytes, after: Bytes, head: Bytes, tail: Bytes, whole: bool)
    requires Delivered(start, after, head, whole) && (tail == [] ==> !whole)
    ensures Delivered(start, after, head + tail, false)
  {
    Assoc(start, head, tail);
  }

  /** `sendAll`: everything, or a proper part and -1. */
  method SendAll(target: Target, data: array<byte>, at: SizeT, size: SizeT) returns (r: int)
    requires Readable(data, at, size)
    modifies target`received, target`interrupts, target`pieces
    ensures r == 0 || r == -1
    ensures Delivered(old(target.received), target.received, View(data, at, size), r == 0)
    ensures target.pieces == old(target.pieces) + [size as nat]
  {
    target.pieces := target.pieces + [size as nat];
    var sent: SizeT := 0;
    while sent < size
      invariant 0 <= sent <= size
      invariant Delivered(old(target.received), target.received, View(data, at, sent), true)
      invariant target.pieces == old(target.pieces) + [size as nat]
      decreases size - sent, target.interrupts
    {
      var result := target.Send(data, at + sent, size - sent);
      match result {
        case Moved(n) =>
          ViewsJoin(data, at, sent, n);
          Assoc(old(target.received), View(data, at, sent), View(data, at + sent, n));
          sent := sent + n;
        case Interrupted =>
        case Failed =>
          ViewsJoin(data, at, sent, size - sent);
          Assoc(old(target.received), View(data, at, sent), View(data, at + sent, size - sent));
          return -1;
      }
    }
    r := 0;
  }

  lemma ViewsJoin(data: array<byte>, at: SizeT, n: SizeT, m: SizeT)
    requires n as int + m as int < 0x1_0000_0000_0000_0000 && Readable(data, at, n + m)
    ensures View(data, at, n) + View(data, at + n, m) == View(data, at, n + m)
  {
  }

  /** `sendPacket`: the same in one piece, or in two halves when asked. */
  method SendPacket(target: Target, data: array<byte>, at: SizeT, size: SizeT, fragmented: bool) returns (r: int)
    requires Readable(data, at, size)
    modifies target`received, target`interrupts, target`pieces
    ensures r == 0 || r == -1
    ensures Delivered(old(target.received), target.received, View(data, at, size), r == 0)
    ensures r == 0 ==> target.pieces == old(target.pieces) + Pieces(size as nat, fragmented)
    ensures Between(old(target.pieces), target.pieces, old(target.pieces) + Pieces(size as nat, fragmented))
  {
    PiecesOf(target.pieces, size as nat, fragmented);
    hide Delivered, View, Pieces, Between;
    if !fragmented || size < 2 {
      r := SendAll(target, data, at, size);
      return;
    }
    var split := size / 2;
    ghost var start := target.received;
    ViewsJoin(data, at, split, size - split);
    r := SendAll(target, data, at, split);
    if r == -1 {
      DeliveredShort(start, target.received, View(data, at, split), View(data, at + split, size - split), false);
      return;
    }
    ghost var half := target.received;
    r := SendAll(target, data, at + split, size - split);
    DeliveredInTurn(start, half, target.received, View(data, at, split), View(data, at + split, size - split), r == 0);
  }

  lemma PiecesOf(before: seq<nat>, size: nat, fragmented: bool)
    ensures var all := before + Pieces(size, fragmented);
            && Between(before, all, all)
            && if fragmented && size > 1 then
                 all == before + [size / 2] + [size - size / 2] && Between(before, before + [size / 2], all)
               else all == before + [size]
  {
    if fragmented && size > 1 { Assoc(before, [size / 2], [size - size / 2]); }
  }

  /** `readSomeResponse`: 0 exactly when data came. */
  method ReadSomeResponse(target: Target) returns (r: int)
    modifies target`waits, target`answers, target`interrupts
    ensures r == 0 || r == -1
    ensures target.waits == old(target.waits) + [|target.received|]
    ensures target.answers == old(target.answers) + if r == 0 then 1 else 0
  {
    target.waits := target.waits + [|target.received|];
    var result := target.Poll();
    while result.Interrupted?
      invariant target.waits == old(target.waits) + [|target.received|] && target.answers == old(target.answers)
      decreases result.Interrupted?, target.interrupts
    {
      result := target.Poll();
    }
    var hasInput: bool := *;
    if result.Failed? || result.count == 0 || !hasInput { return -1; }
    result := target.Recv();
    while result.Interrupted?
      invariant target.waits == old(target.waits) + [|target.received|]
      invariant target.answers == old(target.answers) + if result.Moved? && result.count > 0 then 1 else 0
      decreases result.Interrupted?, target.interrupts
    {
      result := target.Recv();
    }
    r := if result.Moved? && result.count > 0 then 0 else -1;
  }

  /** The first k packets have reached the target and offset i is behind them. */
  ghost predicate Midway(s: Bytes, i: nat, k: nat, packets: seq<Bytes>, start: Bytes, now: Bytes) {
    && i <= |s| && k <= |packets| && AllPackets(packets)
    && SplitFrom(s, i, packets[..k]) == Some(packets)
    && Delivered(start, now, Concat(packets[..k]), true)
  }

  lemma SetOut(payload: Bytes, start: Bytes) returns (packets: seq<Bytes>)
    requires WellFramed(payload)
    ensures payload != [] && packets != []
    ensures Packets(payload) == Some(packets) && Midway(payload, 0, 0, packets, start, start)
  {
    PacketsIffWellFramed(payload);
    packets := Packets(payload).value;
  }

  lemma NextSplit(s: Bytes, i: nat, done: seq<Bytes>, packets: seq<Bytes>)
    requires i < |s| && SplitFrom(s, i, done) == Some(packets)
    ensures i + 2 <= |s| && PacketEnd(s, i) == Some(i + 2 + FromBe16(s[i], s[i + 1]))
    ensures |done| < |packets|
    ensures var next := done + [s[i + 2..PacketEnd(s, i).value]];
            next <= packets && SplitFrom(s, PacketEnd(s, i).value, next) == Some(packets)
  {
    assert i + 2 <= |s| && PacketEnd(s, i) == Some(i + 2 + FromBe16(s[i], s[i + 1]));
    hide PacketEnd, FromBe16;
    SplitExtends(s, PacketEnd(s, i).value, done + [s[i + 2..PacketEnd(s, i).value]]);
  }

  /** The next length and its packet are there, and it is the last one at the end. */
  lemma NextPacketThere(s: Bytes, i: nat, k: nat, packets: seq<Bytes>, start: Bytes, now: Bytes)
    requires Midway(s, i, k, packets, start, now) && i < |s|
    ensures k < |packets| && i + 2 <= |s|
    ensures var end := i + 2 + FromBe16(s[i], s[i + 1]);
            && end <= |s| && packets[k] == s[i + 2..end]
            && SplitFrom(s, end, packets[..k + 1]) == Some(packets)
            && (end == |s| <==> k + 1 == |packets|)
  {
    hide Delivered, Concat, AllPackets, PacketEnd, SplitFrom, FromBe16;
    NextSplit(s, i, packets[..k], packets);
    var end := PacketEnd(s, i).value;
    assert packets[..k + 1] == packets[..k] + [s[i + 2..end]];
    if end < |s| { NextSplit(s, end, packets[..k + 1], packets); } else { SplitEnd(s, packets[..k + 1]); }
  }

  /** Where sending one packet leaves the target: short of all the packets, unless
      it was the last and went out whole. */
  lemma PacketSent(s: Bytes, i: nat, k: nat, packets: seq<Bytes>, start: Bytes, before: Bytes,
      end: nat, after: Bytes, whole: bool)
    requires Midway(s, i, k, packets, start, before) && k < |packets| && end <= |s|
    requires SplitFrom(s, end, packets[..k + 1]) == Some(packets)
    requires Delivered(before, after, packets[k], whole)
    ensures whole ==> Midway(s, end, k + 1, packets, start, after)
    ensures Delivered(start, after, Concat(packets), whole && k + 1 == |packets|)
  {
    hide SplitFrom, Delivered, AllPackets;
    var (now, rest) := (packets[..k + 1], packets[k + 1..]);
    assert now == packets[..k] + [packets[k]];
    ConcatOne(packets[k]);
    assert packets == now + rest;
    ConcatAppend(packets[..k], [packets[k]]);
    ConcatAppend(now, rest);
    NonEmptyRest(packets, k + 1);
    DeliveredInTurn(start, before, after, Concat(packets[..k]), packets[k], whole);
    if rest == [] { assert packets == now; } else { DeliveredShort(start, after, Concat(now), Concat(rest), whole); }
  }

  lemma NonEmptyRest(packets: seq<Bytes>, n: nat)
    requires n <= |packets| && AllPackets(packets)
    ensures n < |packets| ==> Concat(packets[n..]) != []
  {
    assert n < |packets| ==> IsPacket(packets[n]);
  }

  /** How much has been received behind each of the first n packets. */
  function Gaps(start: nat, packets: seq<Bytes>, n: nat): seq<nat>
    requires n <= |packets|
  {
    if n == 0 then [] else Gaps(start, packets, n - 1) + [start + |Concat(packets[..n])|]
  }

  /** The waits after n packets, when asked to wait. */
  function Waited(earlier: seq<nat>, wanted: bool, start: nat, packets: seq<Bytes>, n: nat): (r: seq<nat>)
    requires n <= |packets|
    ensures !wanted ==> r == earlier
  {
    earlier + if wanted then Gaps(start, packets, n) else []
  }

  lemma OneMoreWait(earlier: seq<nat>, s: Bytes, i: nat, k: nat, packets: seq<Bytes>, start: Bytes, now: Bytes)
    requires Midway(s, i, k, packets, start, now) && k > 0
    ensures Waited(earlier, true, |start|, packets, k - 1) + [|now|] == Waited(earlier, true, |start|, packets, k)
  {
    hide Concat;
    Assoc(earlier, Gaps(|start|, packets, k - 1), [|now|]);
  }

  /** Wait i comes behind packet i, when asked to wait, and there are no others. */
  lemma {:induction false} WaitsBetween(wanted: bool, start: nat, packets: seq<Bytes>, n: nat)
    requires n <= |packets|
    ensures var waits := Waited([], wanted, start, packets, n);
            && |waits| == (if wanted then n else 0)
            && forall i :: 0 <= i < |waits| ==> waits[i] == start + |Concat(packets[..i + 1])|
  {
    hide Concat;
    assert wanted ==> Waited([], wanted, start, packets, n) == Gaps(start, packets, n);
    if n > 0 {
      WaitsBetween(wanted, start, packets, n - 1);
      assert wanted ==> Waited([], wanted, start, packets, n - 1) == Gaps(start, packets, n - 1);
    }
  }

  lemma {:induction false} WaitsBelow(earlier: seq<nat>, wanted: bool, start: nat, packets: seq<Bytes>, n: nat, m: nat)
    requires n <= m <= |packets|
    ensures Between(earlier, Waited(earlier, wanted, start, packets, n), Waited(earlier, wanted, start, packets, m))
    decreases m
  {
    if wanted && n < m {
      WaitsBelow(earlier, wanted, start, packets, n, m - 1);
      Assoc(earlier, Gaps(start, packets, m - 1), [start + |Concat(packets[..m])|]);
    }
  }

  /** `sendMultipacketData`: reads lengths without a check of its own. Behind the
      validator every read is inside the allocation and no offset overflows; the
      target gets the packets in order, all of them exactly when the result is 0;
      when asked to wait, a response is awaited between any two packets and nowhere
      else, and the next packet is only sent when data came. */
  method SendMultipacketData(target: Target, data: array<byte>, at: SizeT, size: SizeT,
      waitForResponse: bool, fragmented: bool) returns (r: int)
    requires Whole(data, at, size) && WellFramed(View(data, at, size))
    modifies target
    ensures r == 0 || r == -1
    ensures var packets := Packets(View(data, at, size));
            && packets.Some? && packets.value != []
            && Delivered(old(target.received), target.received, Concat(packets.value), r == 0)
            && var full := Waited(old(target.waits), waitForResponse, |old(target.received)|, packets.value,
                                  |packets.value| - 1);
            && Between(old(target.waits), target.waits, full) && (r == 0 ==> target.waits == full)
    ensures var packets := Packets(View(data, at, size));
            && packets.Some?
            && var full := old(target.pieces) + AllPieces(packets.value, fragmented);
            && Between(old(target.pieces), target.pieces, full) && (r == 0 ==> target.pieces == full)
    ensures var waited := |target.waits| - |old(target.waits)|;
            if r == 0 then target.answers == old(target.answers) + waited
            else old(target.answers) + waited - 1 <= target.answers <= old(target.answers) + waited
  {
    hide WellFramed, Packets, SplitFrom, View, Concat, Delivered, FromBe16, Midway, Waited, Between, Pieces, AllPieces;
    ghost var (start, earlier, cut) := (target.received, target.waits, target.pieces);
    ghost var payload := View(data, at, size);
    ghost var packets := SetOut(payload, start);
    NoPieces(cut, packets, fragmented);
    NoWaits(earlier, waitForResponse, |start|, packets);
    ghost var k := 0;
    var offset: SizeT := 0;
    while offset < size
      invariant 0 <= offset <= size
      invariant Midway(payload, offset as int, k, packets, start, target.received)
      invariant offset > 0 ==> Delivered(start, target.received, Concat(packets), offset == size)
      invariant if offset < size then k < |packets| else k == |packets|
      invariant target.waits == Waited(earlier, waitForResponse, |start|, packets, Min(k, |packets| - 1))
      invariant target.answers == old(target.answers) + |target.waits| - |earlier|
      invariant target.pieces == cut + AllPieces(packets[..k], fragmented)
      invariant Between(cut, target.pieces, cut + AllPieces(packets, fragmented))
    {
      NextPacketThere(payload, offset as int, k, packets, start, target.received);
      ViewAt(data, at, size, offset, 0);
      var packetSize := FromBe16(data[at + offset], data[at + offset + 1]) as SizeT;
      ViewAt(data, at, size, offset, packetSize);
      ghost var before, i := target.received, offset as int;
      offset := offset + 2;
      var result := SendPacket(target, data, at + offset, packetSize, fragmented);
      offset := offset + packetSize;
      PacketSent(payload, i, k, packets, start, before, offset as int, target.received, result == 0);
      WaitsBelow(earlier, waitForResponse, |start|, packets, k, |packets| - 1);
      NextPieces(cut, target.pieces, packets, k, fragmented);
      if result == -1 { return -1; }
      k := k + 1;
      if offset < size {
        if waitForResponse {
          OneMoreWait(earlier, payload, offset as int, k, packets, start, target.received);
          result := ReadSomeResponse(target);
          WaitsBelow(earlier, waitForResponse, |start|, packets, k, |packets| - 1);
          if result == -1 { return -1; }
        }
      }
    }
    WaitsBelow(earlier, waitForResponse, |start|, packets, |packets| - 1, |packets| - 1);
    assert packets[..k] == packets;
    r := 0;
  }

  lemma NoPieces(earlier: seq<nat>, packets: seq<Bytes>, fragmented: bool)
    ensures earlier == earlier + AllPieces(packets[..0], fragmented)
    ensures Between(earlier, earlier, earlier + AllPieces(packets, fragmented))
  {
  }

  lemma NoWaits(earlier: seq<nat>, wanted: bool, start: nat, packets: seq<Bytes>)
    ensures Waited(earlier, wanted, start, packets, 0) == earlier
  {
  }

  lemma OnlyPieces(payload: Bytes, fragmented: bool)
    ensures AllPieces([payload], fragmented) == [] + Pieces(|payload|, fragmented) == Pieces(|payload|, fragmented)
  {
    hide Pieces;
    assert [payload][..0] == [] && AllPieces([], fragmented) == [];
  }

  /** `fuzzServer`, with connectTarget()'s failure left to the environment. A target
      is only ever connected to for an input the other parsers accept, and gets a
      prefix of what they say it means, the whole of it exactly when sending ended
      well; one more response is then awaited. */
  method FuzzServer(data: array<byte>, size: SizeT, interrupts: nat)
    returns (r: int, target: Target?, sendResult: int)
    requires Whole(data, 0, size)
    ensures r == 0
    ensures Meaning(View(data, 0, size)).None? ==> target == null
    ensures target != null ==>
            var packets := Meaning(View(data, 0, size));
            && fresh(target) && packets.Some?
            && Delivered([], target.received, Concat(packets.value), sendResult == 0)
            && packets.value != []
            && (var gaps := Waited([], data[0] / 4 % 2 == 1, 0, packets.value, |packets.value| - 1);
                if sendResult == 0 then target.waits == gaps + [|target.received|] else target.waits <= gaps)
            && (var pieces := AllPieces(packets.value, data[0] % 2 == 1);
                if sendResult == 0 then target.pieces == pieces else target.pieces <= pieces)
  {
    hide Packets, WellFramed, Concat, Delivered, Waited, Pieces, AllPieces;
    r, target, sendResult := 0, null, 0;
    if size < 1 { return; }
    var flags := data[0];
    ghost var payload := View(data, 1, size - 1);
    PacketsIffWellFramed(payload);
    ConcatOne(payload);
    NoWaits([], Waits(flags), 0, [payload]);
    OnlyPieces(payload, Fragments(flags));
    assert payload == View(data, 0, size)[1..];
    if IsMultipacket(flags) {
      var valid := FuzzValidMultipacketData(data, 1, size - 1);
      if !valid { return; }
    }
    if * { return; }
    var connected := new Target(interrupts);
    target := connected;
    if IsMultipacket(flags) {
      sendResult := SendMultipacketData(connected, data, 1, size - 1, Waits(flags), Fragments(flags));
    } else {
      sendResult := SendPacket(connected, data, 1, size - 1, Fragments(flags));
    }
    if sendResult == 0 {
      var _ := ReadSomeResponse(connected);
    }
  }
}
