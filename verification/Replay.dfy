/** The replay tool: which packets it sends and how it sends them. */
module Replay {
  import opened Bytes
  import opened Multipacket
  import opened Sockets
  import opened Wrappers

  /** The raw file, `--packet N`, or `--fuzzer-input`. */
  datatype Choice = Raw | Packet(number: int) | FuzzerInput

  /** The packets of a choice; None is the argument error or the ValueError. */
  function Chosen(data: Bytes, choice: Choice): Option<seq<Bytes>> {
    match choice
    case Raw => Some([data])
    case FuzzerInput => Meaning(data)
    case Packet(n) =>
      var packets := Meaning(data);
      if n < 1 || packets.None? || n > |packets.value| then None else Some([packets.value[n - 1]])
  }

  /** Packet n is the n-th of the input, counted from one. */
  lemma ChosenIsNth(data: Bytes, n: int)
    ensures Chosen(data, Raw) == Some([data]) && Chosen(data, FuzzerInput) == Meaning(data)
    ensures Chosen(data, Packet(n)).Some? <==> exists all :: Meaning(data) == Some(all) && 1 <= n <= |all|
    ensures forall before, p, after :: Meaning(data) == Some(before + [p] + after) && |before| == n - 1 ==>
              Chosen(data, Packet(n)) == Some([p])
  {
    hide Meaning;
    if Chosen(data, Packet(n)).Some? { assert Meaning(data) == Some(Meaning(data).value); }
    forall before, p, after | Meaning(data) == Some(before + [p] + after) && |before| == n - 1
      ensures Chosen(data, Packet(n)) == Some([p]) {
      assert (before + [p] + after)[|before|] == p;
    }
  }

  const RECEIVE_LIMIT := 1024 * 1024

  /** `receive`: what the peer sends until it stops, times out or has sent enough. */
  method Receive(sock: Socket) returns (response: Bytes)
    requires sock.Valid()
    modifies sock`pos, sock`faulted
    ensures sock.Valid() && old(sock.pos) <= sock.pos && response == sock.input[old(sock.pos)..sock.pos]
    ensures |response| < 1048576 + 65536
    ensures |response| < 1048576 ==> sock.pos == |sock.input| || sock.faulted
  {
    response := [];
    while |response| < RECEIVE_LIMIT
      invariant sock.Valid() && old(sock.pos) <= sock.pos && response == sock.input[old(sock.pos)..sock.pos]
      invariant |response| < RECEIVE_LIMIT + 65536
      decreases RECEIVE_LIMIT - |response|
    {
      var block := sock.Recv(65536);
      if block.TimedOut? || block.data == [] { break; }
      response := response + block.data;
    }
  }

  /** The sending loop of `main`: the packets in order, in halves when the input asks
      for fragments; false is an OSError, which leaves only a prefix sent. */
  method SendPackets(sock: Socket, packets: seq<Bytes>, flags: byte)
    returns (ok: bool, ghost pieces: seq<nat>, ghost waits: seq<nat>)
    requires sock.Valid()
    modifies sock
    ensures sock.Valid()
    ensures Between(old(sock.output), sock.output, old(sock.output) + Concat(packets))
    ensures ok ==> sock.output == old(sock.output) + Concat(packets)
    ensures !ok ==> sock.faulted
    ensures old(sock.pos) <= sock.pos && (flags / 4 % 2 == 0 ==> sock.pos == old(sock.pos))
    ensures ok ==> pieces == AllPieces(packets, flags % 2 == 1)
    ensures ok ==> waits == if flags / 4 % 2 == 1 then seq(|packets| - One(packets != []), i => i + 1) else []
  {
    BitsOf(flags);
    hide Concat, Between, Fragments, Waits, AllPieces;
    ghost var start := sock.output;
    Nothing(start);
    NoPieces(packets, Fragments(flags));
    pieces, waits := [], [];
    var i := 0;
    while i < |packets|
      invariant sock.Valid() && 0 <= i <= |packets|
      invariant sock.output == start + Concat(packets[..i])
      invariant old(sock.pos) <= sock.pos && (!Waits(flags) ==> sock.pos == old(sock.pos))
      invariant pieces == AllPieces(packets[..i], Fragments(flags))
      invariant waits == if Waits(flags) then seq(Min(i, |packets| - One(packets != [])), i => i + 1) else []
    {
      NextPiece(packets, i, Fragments(flags));
      var packet := packets[i];
      ghost var before := sock.output;
      if Fragments(flags) && |packet| > 1 {
        var split := |packet| / 2;
        pieces := pieces + [|packet[..split]|];
        var fault := sock.SendAll(packet[..split]);
        ok := fault.None?;
        Halves(before, sock.output, packet, split);
        if !ok {
          OnTheWay(start, packets, i, before, sock.output);
          return;
        }
        pieces := pieces + [|packet[split..]|];
        fault := sock.SendAll(packet[split..]);
        ok := fault.None?;
        Halves(before, sock.output, packet, split);
      } else {
        pieces := pieces + [|packet|];
        var fault := sock.SendAll(packet);
        ok := fault.None?;
        EverythingSent(before, sock.output, packet);
      }
      OnTheWay(start, packets, i, before, sock.output);
      if !ok { return; }
      if i + 1 < |packets| && Waits(flags) {
        waits := waits + [i + 1];
        var _ := sock.Recv(8192);
      }
      i := i + 1;
    }
    assert packets[..i] == packets;
    EverythingSent(start, sock.output, Concat(packets));
    ok := true;
  }

  lemma BitsOf(flags: byte)
    ensures (Fragments(flags) <==> flags % 2 == 1) && (Waits(flags) <==> flags / 4 % 2 == 1)
  {
  }

  lemma NoPieces(packets: seq<Bytes>, fragmented: bool)
    ensures AllPieces(packets[..0], fragmented) == []
  {
  }

  lemma NextPiece(packets: seq<Bytes>, i: nat, fragmented: bool)
    requires i < |packets|
    ensures var (before, size) := (AllPieces(packets[..i], fragmented), |packets[i]|);
            AllPieces(packets[..i + 1], fragmented) ==
            if fragmented && size > 1 then before + [size / 2] + [size - size / 2] else before + [size]
  {
    PiecesInOrder(packets[..i], packets[i], fragmented);
    hide AllPieces;
    assert packets[..i + 1] == packets[..i] + [packets[i]];
  }

  lemma Nothing(start: Bytes)
    ensures forall packets: seq<Bytes> :: start == start + Concat(packets[..0])
  {
  }

  lemma EverythingSent(before: Bytes, now: Bytes, packet: Bytes)
    requires before <= now <= before + packet
    ensures Between(before, now, before + packet)
  {
  }

  lemma Halves(before: Bytes, now: Bytes, packet: Bytes, split: nat)
    requires split <= |packet|
    ensures before + packet[..split] + packet[split..] == before + packet
    ensures before <= now <= before + packet[..split] ==> Between(before, now, before + packet)
    ensures before + packet[..split] <= now <= before + packet ==> Between(before, now, before + packet)
  {
    assert packet == packet[..split] + packet[split..];
    Assoc(before, packet[..split], packet[split..]);
  }

  lemma OnTheWay(start: Bytes, packets: seq<Bytes>, i: nat, before: Bytes, now: Bytes)
    requires i < |packets| && before == start + Concat(packets[..i]) && Between(before, now, before + packets[i])
    ensures Between(start, now, start + Concat(packets))
    ensures before + packets[i] == start + Concat(packets[..i + 1])
  {
    hide Concat, Between;
    ConcatAt(packets, i);
    Squeezed(start, Concat(packets[..i]), packets[i], Concat(packets[i + 1..]), now);
  }

  lemma Squeezed(start: Bytes, before: Bytes, packet: Bytes, after: Bytes, now: Bytes)
    requires Between(start + before, now, start + before + packet)
    ensures start + (before + packet) == start + before + packet
    ensures Between(start, now, start + (before + packet + after))
  {
    Assoc(start, before, packet);
    Assoc(start, before + packet, after);
    BetweenWithin(start, start + before, now, start + before + packet, start + (before + packet + after));
  }

  /** `main` up to the closing of the connection, where it reads what comes back. Replaying
      a whole fuzzer input sends what the input means, which is what the harness sends. */
  method Replay(sock: Socket, data: Bytes, choice: Choice)
    returns (packets: Option<seq<Bytes>>, ok: bool, ghost pieces: seq<nat>, ghost waits: seq<nat>)
    requires sock.Valid()
    modifies sock
    ensures packets == Chosen(data, choice)
    ensures packets.None? ==> !ok && sock.output == old(sock.output)
    ensures packets.Some? ==> Between(old(sock.output), sock.output, old(sock.output) + Concat(packets.value))
    ensures ok ==> packets.Some? && sock.output == old(sock.output) + Concat(packets.value)
    ensures packets.Some? && !ok ==> sock.faulted
    ensures ok ==> sock.faulted || sock.pos == |sock.input| || sock.pos - old(sock.pos) >= 1048576
    ensures ok ==> var flags := if data != [] && choice != Raw then data[0] else 0;
              && pieces == AllPieces(packets.value, flags % 2 == 1)
              && waits == if flags / 4 % 2 == 1 then seq(|packets.value| - One(packets.value != []), i => i + 1) else []
  {
    hide Between, Concat, Meaning, AllPieces;
    packets, ok, pieces, waits := None, false, [], [];
    var flags: byte := if data != [] && !choice.Raw? then data[0] else 0;
    match choice {
      case Raw => packets := Some([data]);
      case FuzzerInput => packets := FuzzerPackets(data);
      case Packet(n) =>
        if n < 1 { return; }
        var all := FuzzerPackets(data);
        if all.None? || n > |all.value| { return; }
        packets := Some([all.value[n - 1]]);
    }
    if packets.None? { return; }
    ok, pieces, waits := SendPackets(sock, packets.value, flags);
    if ok {
      var _ := Receive(sock);
    }
  }
}
