/** A client's view of `handle_fastcgi`: what it decodes of the answer to its call. */
module FastCgiClient {
  import opened Bytes
  import opened FastCgi
  import opened FastCgiConnection
  import opened FastCgiTransaction
  import opened FastCgiWire
  import opened FastCgiParams
  import opened Responses
  import opened Sockets
  import opened Wrappers

  /** The ideal session of a connection that carries this call and nothing else. */
  lemma OneCall(b: Backend, max: nat, call: Call, params: seq<Bytes>, body: seq<Bytes>, frames: seq<Frame>)
    requires call.Valid(max)
    requires Blocks(params) && Concat(params) == EncodePairs(call.pairs)
    requires Blocks(body) && Concat(body) == call.body
    requires RecordsOf(frames) == Transaction(call.id, call.begin, params, body)
    ensures var expected := call.Expected(b, map[]);
            Serve(b, max, map[], WireAll(frames))
            == Session(expected.sent, if expected.end.Open? then Failed(Eof) else expected.end)
  {
    var expected := call.Expected(b, map[]);
    EndToEnd(b, max, map[], call, params, body, frames, []);
    ServeStops(b, max, map[], []);
    hide Serve, WireAll, EncodePairs;
    assert WireAll(frames) + [] == WireAll(frames);
    assert expected.sent + [] == expected.sent;
  }

  /** On a new connection that carries one call, cut into records in any way, with any
      padding, and however reads and writes fall: the client decodes just the reply
      its call should get, and a call that is answered leaves the connection closed
      or at its end; a read or write that is cut off leaves a prefix of the reply. */
  method ServeCall(sock: Socket, b: Backend, max: nat, ghost call: Call,
      ghost params: seq<Bytes>, ghost body: seq<Bytes>, ghost frames: seq<Frame>) returns (r: Result<bool, Fault>)
    requires sock.Valid() && !sock.faulted && sock.pos == 0 && sock.output == [] && sock.input == WireAll(frames)
    requires call.Valid(max)
    requires Blocks(params) && Concat(params) == EncodePairs(call.pairs)
    requires Blocks(body) && Concat(body) == call.body
    requires RecordsOf(frames) == Transaction(call.id, call.begin, params, body)
    modifies sock`pos, sock`output, sock`calls, sock`faulted
    ensures !sock.faulted ==>
              match Reply(b, call.id, call.Mode(b), call.body)
              case None => r == Failure(Invalid) && sock.output == []
              case Some(reply) =>
                && DecodeRecords(sock.output) == Some(reply)
                && r == if ClosesEarly(call.Mode(b)) || !call.Keep() then Success(true) else Failure(Eof)
    ensures Between([], sock.output, EncodeRecords(call.Expected(b, map[]).sent))
  {
    hide Serve, WireAll, EncodePairs, Transaction, Reply, DecodeRecords, Between;
    OneCall(b, max, call, params, body, frames);
    RestIs(sock);
    assert sock.input[0..] == sock.input;
    ghost var sent := call.Expected(b, map[]).sent;
    assert [] + EncodeRecords(sent) == EncodeRecords(sent);
    RecordsRoundTrip(sent);
    r := HandleFastCgi(sock, b, max);
  }
}
