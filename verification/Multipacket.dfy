/** The multipacket input format: its printer and its three parsers. */
module Multipacket {
  import opened Bytes
  import opened Wrappers

  const MAX_PACKETS := 64

  /** The bits of the control byte. */
  predicate Fragments(flags: byte) { flags % 2 == 1 }
  predicate IsMultipacket(flags: byte) { flags / 2 % 2 == 1 }
  predicate Waits(flags: byte) { flags / 4 % 2 == 1 }

  predicate IsPacket(p: Bytes) { 0 < |p| < 0x1_0000 }

  /** Every packet has a length that two bytes can hold. */
  predicate Frameable(packets: seq<Bytes>) {
    forall i :: 0 <= i < |packets| ==> |packets[i]| < 0x1_0000
  }

  predicate AllPackets(packets: seq<Bytes>) {
    forall i :: 0 <= i < |packets| ==> IsPacket(packets[i])
  }

  predicate ValidPackets(packets: seq<Bytes>) {
    1 <= |packets| <= MAX_PACKETS && AllPackets(packets)
  }

  function Join(packets: seq<Bytes>): Bytes
    requires Frameable(packets)
  {
    if packets == [] then [] else Be16(|packets[0]|) + packets[0] + Join(packets[1..])
  }

  /** What the format promises: 1 to 64 complete, non-empty packets and nothing else. */
  ghost predicate WellFramed(payload: Bytes) {
    exists packets :: ValidPackets(packets) && payload == Join(packets)
  }

  /** The end of the packet framed at offset i; None when the frame is broken. */
  function PacketEnd(s: Bytes, i: nat): (r: Option<nat>)
    requires i <= |s|
    ensures r.Some? ==> i + 2 < r.value <= |s|
  {
    if |s| - i < 2 then None
    else
      var size := FromBe16(s[i], s[i + 1]);
      if size == 0 || size > |s| - i - 2 then None else Some(i + 2 + size)
  }

  /** The packets from offset i on, behind those already split off. */
  function SplitFrom(s: Bytes, i: nat, done: seq<Bytes>): Option<seq<Bytes>>
    requires i <= |s|
    decreases |s| - i
  {
    if i == |s| then Some(done)
    else
      match PacketEnd(s, i)
      case None => None
      case Some(end) => SplitFrom(s, end, done + [s[i + 2..end]])
  }

  lemma SplitStep(s: Bytes, i: nat, done: seq<Bytes>)
    requires i < |s|
    ensures var end := PacketEnd(s, i);
            SplitFrom(s, i, done) == if end.None? then None else SplitFrom(s, end.value, done + [s[i + 2..end.value]])
  {
  }

  lemma SplitEnd(s: Bytes, done: seq<Bytes>)
    ensures SplitFrom(s, |s|, done) == Some(done)
  {
  }

  lemma {:induction false} SplitExtends(s: Bytes, i: nat, done: seq<Bytes>)
    requires i <= |s|
    ensures SplitFrom(s, i, done).Some? ==> done <= SplitFrom(s, i, done).value
    decreases |s| - i
  {
    hide PacketEnd;
    var end := PacketEnd(s, i);
    if i < |s| && end.Some? { SplitExtends(s, end.value, done + [s[i + 2..end.value]]); }
  }

  lemma JoinedPacketEnd(before: Bytes, p: Bytes, rest: Bytes)
    requires IsPacket(p)
    ensures var s := before + (Be16(|p|) + p + rest);
            && PacketEnd(s, |before|) == Some(|before| + 2 + |p|)
            && s[|before| + 2..|before| + 2 + |p|] == p
            && s == (before + (Be16(|p|) + p)) + rest
  {
    hide Be16, FromBe16;
    var s := before + (Be16(|p|) + p + rest);
    assert s[|before|] == Be16(|p|)[0] && s[|before| + 1] == Be16(|p|)[1];
    assert s == (before + Be16(|p|)) + p + rest;
  }

  lemma {:induction false} JoinSplits(before: Bytes, packets: seq<Bytes>, done: seq<Bytes>)
    requires AllPackets(packets)
    ensures SplitFrom(before + Join(packets), |before|, done) == Some(done + packets)
    decreases |packets|
  {
    hide PacketEnd, Be16;
    if packets == [] {
      assert done + packets == done;
    } else {
      var (p, rest) := (packets[0], packets[1..]);
      assert IsPacket(p);
      JoinedPacketEnd(before, p, Join(rest));
      JoinSplits(before + (Be16(|p|) + p), rest, done + [p]);
      assert done + [p] + rest == done + packets;
    }
  }

  lemma {:induction false} SplitJoins(s: Bytes, i: nat, done: seq<Bytes>) returns (packets: seq<Bytes>)
    requires i <= |s| && SplitFrom(s, i, done).Some?
    ensures SplitFrom(s, i, done) == Some(done + packets)
    ensures AllPackets(packets) && s[i..] == Join(packets)
    decreases |s| - i
  {
    if i == |s| {
      packets := [];
      assert done + packets == done;
    } else {
      var end := PacketEnd(s, i).value;
      var p := s[i + 2..end];
      var later := SplitJoins(s, end, done + [p]);
      packets := [p] + later;
      assert done + [p] + later == done + packets;
      assert packets[1..] == later;
      FramedSlice(s, i, end);
    }
  }

  lemma FramedSlice(s: Bytes, i: nat, end: nat)
    requires i <= |s| && PacketEnd(s, i) == Some(end)
    ensures IsPacket(s[i + 2..end])
    ensures s[i..] == Be16(end - i - 2) + s[i + 2..end] + s[end..]
  {
    var n := FromBe16(s[i], s[i + 1]);
    assert Be16(n) == [s[i], s[i + 1]];
  }

  /** The packets of a payload, when it is well framed. */
  function Packets(payload: Bytes): Option<seq<Bytes>> {
    match SplitFrom(payload, 0, [])
    case None => None
    case Some(packets) => if 1 <= |packets| <= MAX_PACKETS then Some(packets) else None
  }

  /** Splitting accepts the well-framed payloads and no others, and inverts joining. */
  lemma PacketsIffWellFramed(payload: Bytes)
    ensures Packets(payload).Some? <==> WellFramed(payload)
    ensures Packets(payload).Some? ==>
            ValidPackets(Packets(payload).value) && payload == Join(Packets(payload).value)
  {
    hide SplitFrom;
    if SplitFrom(payload, 0, []).Some? {
      var packets := SplitJoins(payload, 0, []);
      assert [] + packets == packets && payload[0..] == payload;
    }
    if WellFramed(payload) {
      var packets :| ValidPackets(packets) && payload == Join(packets);
      PacketsOfJoin(packets);
    }
  }

  lemma PacketsOfJoin(packets: seq<Bytes>)
    requires ValidPackets(packets)
    ensures Packets(Join(packets)) == Some(packets)
  {
    hide SplitFrom, Join;
    JoinSplits([], packets, []);
    assert [] + packets == packets && [] + Join(packets) == Join(packets);
  }

  /** No payload with more than 64 packets in front is well framed. */
  lemma TooMany(payload: Bytes, i: nat, done: seq<Bytes>)
    requires i <= |payload| && SplitFrom(payload, 0, []) == SplitFrom(payload, i, done) && |done| > MAX_PACKETS
    ensures Packets(payload).None?
  {
    hide SplitFrom;
    SplitExtends(payload, i, done);
  }

  /** What a broken frame, or the end of the payload, says of the whole. */
  lemma SplitSettles(payload: Bytes, i: nat, done: seq<Bytes>)
    requires i <= |payload| && SplitFrom(payload, 0, []) == SplitFrom(payload, i, done)
    ensures i < |payload| && PacketEnd(payload, i).None? ==> Packets(payload).None?
    ensures i == |payload| && |done| <= MAX_PACKETS ==> (Packets(payload).Some? <==> |done| > 0)
  {
    hide PacketEnd;
  }

  /** `valid_multipacket` of the corpus tool. */
  method ValidMultipacket(data: Bytes) returns (r: bool)
    ensures r <==> WellFramed(data)
  {
    PacketsIffWellFramed(data);
    hide WellFramed, SplitFrom, Packets;
    var offset := 0;
    var packetCount := 0;
    ghost var done: seq<Bytes> := [];
    while offset < |data|
      invariant 0 <= offset <= |data| && packetCount == |done| <= MAX_PACKETS
      invariant SplitFrom(data, 0, []) == SplitFrom(data, offset, done)
    {
      SplitStep(data, offset, done);
      SplitSettles(data, offset, done);
      if |data| - offset < 2 { return false; }
      var size := FromBe16(data[offset], data[offset + 1]);
      ghost var start := offset + 2;
      offset := offset + 2;
      if size == 0 || size > |data| - offset { return false; }
      offset := offset + size;
      done := done + [data[start..offset]];
      packetCount := packetCount + 1;
      if packetCount > MAX_PACKETS {
        TooMany(data, offset, done);
        return false;
      }
    }
    SplitSettles(data, offset, done);
    r := packetCount > 0;
  }

  /** What a fuzzer input means: its packets, or None for the ValueError. */
  function Meaning(data: Bytes): Option<seq<Bytes>> {
    if data == [] then None
    else if !IsMultipacket(data[0]) then Some([data[1..]])
    else Packets(data[1..])
  }

  /** One step of splitting data[1..], with offsets into data itself. */
  lemma ShiftedSplit(data: Bytes, offset: nat, done: seq<Bytes>)
    requires 1 <= offset < |data|
    ensures var end := PacketEnd(data, offset);
            SplitFrom(data[1..], offset - 1, done) ==
            if end.None? then None else SplitFrom(data[1..], end.value - 1, done + [data[offset + 2..end.value]])
  {
    var end := PacketEnd(data, offset);
    if end.Some? { SuffixSlice(data, 1, offset + 1, end.value - 1); }
  }

  /** `fuzzer_packets` of the replay tool. */
  method FuzzerPackets(data: Bytes) returns (r: Option<seq<Bytes>>)
    ensures r == Meaning(data)
  {
    hide SplitFrom, Fragments, Waits;
    if data == [] { return None; }
    if !IsMultipacket(data[0]) { return Some([data[1..]]); }
    ghost var payload := data[1..];
    var packets := [];
    var offset := 1;
    while offset < |data|
      invariant 1 <= offset <= |data| && |packets| <= MAX_PACKETS
      invariant SplitFrom(payload, 0, []) == SplitFrom(payload, offset - 1, packets)
    {
      ShiftedSplit(data, offset, packets);
      if |data| - offset < 2 { return None; }
      var length := FromBe16(data[offset], data[offset + 1]);
      offset := offset + 2;
      var end := offset + length;
      if length == 0 || end > |data| { return None; }
      packets := packets + [data[offset..end]];
      if |packets| > MAX_PACKETS {
        TooMany(payload, end - 1, packets);
        return None;
      }
      offset := end;
    }
    SplitEnd(payload, packets);
    r := if packets == [] then None else Some(packets);
  }

  /** `multipacket`; None is the OverflowError of a packet of 65536 bytes or more. */
  method Frame(flags: byte, packets: seq<Bytes>) returns (r: Option<Bytes>)
    ensures if Frameable(packets) then r == Some([flags] + Join(packets)) else r == None
  {
    var result: Bytes := [flags];
    var i := 0;
    while i < |packets|
      invariant 0 <= i <= |packets| && Frameable(packets[..i])
      invariant result == [flags] + Join(packets[..i])
    {
      var packet := packets[i];
      if |packet| >= 0x1_0000 { return None; }
      JoinOneMore(packets, i);
      result := result + Be16(|packet|);
      result := result + packet;
      assert result == [flags] + (Join(packets[..i]) + (Be16(|packet|) + packet));
      i := i + 1;
    }
    assert packets[..i] == packets;
    r := Some(result);
  }

  lemma {:induction false} JoinOneMore(packets: seq<Bytes>, i: nat)
    requires i < |packets| && Frameable(packets[..i + 1])
    ensures Frameable(packets[..i])
    ensures Join(packets[..i + 1]) == Join(packets[..i]) + (Be16(|packets[i]|) + packets[i])
  {
    hide Be16;
    if i == 0 {
      assert packets[..1][1..] == [];
    } else {
      assert packets[..i + 1][1..] == packets[1..][..i];
      JoinOneMore(packets[1..], i - 1);
      assert packets[..i][1..] == packets[1..][..i - 1];
    }
  }

  /** Framing and splitting are mutually inverse between the inputs whose control byte has
      the bit of value 2 and the lists of 1 to 64 packets of 1 to 65535 bytes; without the
      bit an input is its one packet behind the control byte. */
  lemma FramingBijection(flags: byte, packets: seq<Bytes>, data: Bytes)
    ensures flags / 2 % 2 == 1 && 1 <= |packets| <= 64
            && (forall i :: 0 <= i < |packets| ==> 1 <= |packets[i]| <= 65535) ==>
              Frameable(packets) && Meaning([flags] + Join(packets)) == Some(packets)
    ensures data != [] && data[0] / 2 % 2 == 1 && Meaning(data).Some? ==>
            var means := Meaning(data).value;
            && 1 <= |means| <= 64 && (forall i :: 0 <= i < |means| ==> 1 <= |means[i]| <= 65535)
            && data == [data[0]] + Join(means)
    ensures data != [] && data[0] / 2 % 2 == 0 ==> Meaning(data) == Some([data[1..]])
    ensures Meaning([]) == None
  {
    hide Packets, Join;
    if flags / 2 % 2 == 1 && ValidPackets(packets) {
      PacketsOfJoin(packets);
      assert ([flags] + Join(packets))[1..] == Join(packets);
    }
    if data != [] && data[0] / 2 % 2 == 1 && Meaning(data).Some? {
      PacketsIffWellFramed(data[1..]);
      assert data == [data[0]] + data[1..];
    }
  }

  /** A packet is framed by its length in two bytes, the higher one first. */
  lemma FrameLayout(p: Bytes, packets: seq<Bytes>)
    requires |p| < 65536 && Frameable(packets)
    ensures Frameable([p] + packets)
    ensures Join([p] + packets) == [|p| / 256, |p| % 256] + p + Join(packets) && Join([]) == []
  {
    assert ([p] + packets)[1..] == packets;
    forall i | 0 <= i < |packets| + 1 ensures |([p] + packets)[i]| < 65536 {
      if i > 0 { assert ([p] + packets)[i] == packets[i - 1]; }
    }
  }

  /** The control byte is made of bits: of value 1 for halves, 2 for framing, 4 for waits. */
  lemma ControlBits(halves: bool, framed: bool, waits: bool, others: nat)
    requires others < 32
    ensures var flags := 8 * others + (if halves then 1 else 0) + (if framed then 2 else 0) + (if waits then 4 else 0);
            (Fragments(flags) <==> halves) && (IsMultipacket(flags) <==> framed) && (Waits(flags) <==> waits)
  {
    var low := (if halves then 1 else 0) + (if framed then 2 else 0) + (if waits then 4 else 0);
    assert (8 * others + low) / 2 == 4 * others + low / 2;
    assert (8 * others + low) / 4 == 2 * others + low / 4;
  }

  /** The sizes in which a packet is handed over: two halves when asked and long enough. */
  function Pieces(size: nat, fragmented: bool): seq<nat> {
    if fragmented && size > 1 then [size / 2, size - size / 2] else [size]
  }

  function AllPieces(packets: seq<Bytes>, fragmented: bool): seq<nat> {
    if packets == [] then []
    else
      AllPieces(packets[..|packets| - 1], fragmented) + Pieces(|packets[|packets| - 1]|, fragmented)
  }

  /** Packet by packet, in order: halves of what is asked for in halves and has two bytes. */
  lemma PiecesInOrder(packets: seq<Bytes>, p: Bytes, fragmented: bool)
    ensures AllPieces([], fragmented) == []
    ensures AllPieces(packets + [p], fragmented) == AllPieces(packets, fragmented)
            + if fragmented && |p| >= 2 then [|p| / 2, |p| - |p| / 2] else [|p|]
  {
    assert (packets + [p])[..|packets|] == packets;
  }

  lemma {:induction false} PiecesOfPrefix(packets: seq<Bytes>, k: nat, fragmented: bool)
    requires k <= |packets|
    ensures AllPieces(packets[..k], fragmented) <= AllPieces(packets, fragmented)
    decreases |packets|
  {
    if k < |packets| {
      PiecesOfPrefix(packets[..|packets| - 1], k, fragmented);
      assert packets[..|packets| - 1][..k] == packets[..k];
    } else {
      assert packets[..k] == packets;
    }
  }

  /** Handing over one more packet, or part of it, behind the first k. */
  lemma NextPieces(earlier: seq<nat>, now: seq<nat>, packets: seq<Bytes>, k: nat, fragmented: bool)
    requires k < |packets|
    requires var before := earlier + AllPieces(packets[..k], fragmented);
             Between(before, now, before + Pieces(|packets[k]|, fragmented))
    ensures Between(earlier, now, earlier + AllPieces(packets, fragmented))
    ensures earlier + AllPieces(packets[..k], fragmented) + Pieces(|packets[k]|, fragmented)
            == earlier + AllPieces(packets[..k + 1], fragmented)
  {
    hide Pieces;
    assert packets[..k + 1][..k] == packets[..k];
    PiecesOfPrefix(packets, k + 1, fragmented);
    hide AllPieces;
    var (done, all) := (AllPieces(packets[..k + 1], fragmented), AllPieces(packets, fragmented));
    Assoc(earlier, AllPieces(packets[..k], fragmented), Pieces(|packets[k]|, fragmented));
    assert all == done + all[|done|..];
    Assoc(earlier, done, all[|done|..]);
  }

  /** `normalize` of the corpus tool. */
  method Normalize(data: Bytes) returns (r: Bytes)
    ensures r == Normalized(data)
  {
    if data == [] { return data; }
    hide WellFramed, Packets, IsMultipacket;
    if data[0] <= 7 {
      if IsMultipacket(data[0]) {
        PacketsIffWellFramed(data[1..]);
        var valid := ValidMultipacket(data[1..]);
        if !valid { return [0] + data; }
      }
      Whole(data);
      return [data[0] % 8] + data[1..];
    }
    return [0] + data;
  }

  lemma Whole(data: Bytes)
    requires data != [] && data[0] < 8
    ensures [data[0] % 8] + data[1..] == data
  {
  }

  /** The input itself when it is usable, else behind a zero control byte. */
  function Normalized(data: Bytes): Bytes {
    if data == [] || (data[0] <= 7 && (IsMultipacket(data[0]) ==> Packets(data[1..]).Some?)) then data
    else [0] + data
  }

  /** Normalizing is idempotent, keeps just the inputs with no undefined flags and a
      well-framed payload when flagged, puts a zero byte in front of all others, and
      makes every non-empty input one that all the parsers accept. */
  lemma NormalizedIsUsable(data: Bytes)
    ensures Normalized(data) == data <==>
            data == [] || (data[0] <= 7 && (data[0] / 2 % 2 == 1 ==> WellFramed(data[1..])))
    ensures Normalized(Normalized(data)) == Normalized(data)
    ensures Normalized(data) == data || Normalized(data) == [0] + data
    ensures data != [] ==>
            var n := Normalized(data);
            && n != [] && n[0] <= 7 && Meaning(n).Some?
            && (IsMultipacket(n[0]) ==> WellFramed(n[1..]))
  {
    hide Packets;
    if data != [] {
      PacketsIffWellFramed(data[1..]);
      PacketsIffWellFramed(Normalized(data)[1..]);
    }
  }
}
