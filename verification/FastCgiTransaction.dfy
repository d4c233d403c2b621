/** One FastCGI request end to end, however its streams are cut into records. */
module FastCgiTransaction {
  import opened Bytes
  import opened FastCgi
  import opened FastCgiLifecycle
  import opened FastCgiParams
  import opened FastCgiWire
  import opened Gateway
  import opened Python
  import opened Responses
  import opened Sockets
  import opened Wrappers

  /** Blocks that fit one record each, none of them empty. */
  predicate Blocks(blocks: seq<Bytes>) {
    forall c :: c in blocks ==> 0 < |c| < 0x1_0000
  }

  /** A stream cut into records, closed by an empty one: section 3.3 of the
      FastCGI Specification. */
  function Stream(kind: byte, id: RequestId, blocks: seq<Bytes>): seq<Record>
    requires Blocks(blocks)
  {
    if blocks == [] then [Record(kind, id, [])]
    else [Record(kind, id, blocks[0])] + Stream(kind, id, blocks[1..])
  }

  /** The records of a request: types 1, 4 and 5 of section 8 of the FastCGI Specification. */
  function Transaction(id: RequestId, begin: Content, params: seq<Bytes>, body: seq<Bytes>): seq<Record>
    requires Blocks(params) && Blocks(body)
  {
    [Record(1, id, begin)] + Stream(4, id, params) + Stream(5, id, body)
  }

  lemma RunFirst(b: Backend, max: nat, requests: Requests, first: Record, rest: seq<Record>)
    ensures var step := Handle(b, max, requests, first);
            Run(b, max, requests, [first] + rest)
            == if step.Raise? then Session([], Failed(Invalid))
               else if step.Finish? then Session(step.sent, Closed)
               else Run(b, max, step.requests, rest).After(step.sent)
  {
    hide Handle;
    assert ([first] + rest)[0] == first && ([first] + rest)[1..] == rest;
  }

  lemma {:induction false} ParamsStream(b: Backend, max: nat, requests: Requests, id: RequestId,
                                        blocks: seq<Bytes>, pairs: seq<Pair>)
    requires Blocks(blocks) && id in requests
    requires |requests[id].params| + |Concat(blocks)| <= max
    requires DecodePairs(requests[id].params + Concat(blocks)) == Some(pairs)
    ensures var q := requests[id];
            Run(b, max, requests, Stream(PARAMS, id, blocks))
            == Session([], Open(requests[id := Described(q.(params := q.params + Concat(blocks)), Assigned(pairs))]))
    decreases |blocks|
  {
    hide DecodePairs, Assigned, Described;
    var q := requests[id];
    if blocks == [] {
      assert q.params + Concat(blocks) == q.params;
      assert [Record(PARAMS, id, [])] == [Record(PARAMS, id, [])] + [];
      RunFirst(b, max, requests, Record(PARAMS, id, []), []);
      assert Run(b, max, requests[id := Described(q, Assigned(pairs))], [])
          == Session([], Open(requests[id := Described(q, Assigned(pairs))]));
    } else {
      RunFirst(b, max, requests, Record(PARAMS, id, blocks[0]), Stream(PARAMS, id, blocks[1..]));
      var q' := q.(params := q.params + blocks[0]);
      var requests' := requests[id := q'];
      assert q.params + blocks[0] + Concat(blocks[1..]) == q.params + Concat(blocks);
      ParamsStream(b, max, requests', id, blocks[1..], pairs);
      var done := Described(q'.(params := q.params + Concat(blocks)), Assigned(pairs));
      assert requests'[id := done] == requests[id := done];
    }
  }

  /** What the closing of the body stream leads to. */
  function Answer(b: Backend, requests: Requests, id: RequestId, q: Request): Session {
    var mode := b.select(q.uri, q.headers);
    match Reply(b, id, mode, q.body)
    case None => Session([], Failed(Invalid))
    case Some(sent) =>
      Session(sent, if ClosesEarly(mode) || !q.keep then Closed else Open(requests - {id}))
  }

  lemma {:induction false} BodyStream(b: Backend, max: nat, requests: Requests, id: RequestId, blocks: seq<Bytes>)
    requires Blocks(blocks) && id in requests
    requires |requests[id].body| + |Concat(blocks)| <= max
    ensures var q := requests[id];
            Run(b, max, requests, Stream(STDIN, id, blocks))
            == Answer(b, requests, id, q.(body := q.body + Concat(blocks)))
    decreases |blocks|
  {
    hide Reply, ClosesEarly;
    var q := requests[id];
    if blocks == [] {
      assert q.body + Concat(blocks) == q.body;
      assert [Record(STDIN, id, [])] == [Record(STDIN, id, [])] + [];
      RunFirst(b, max, requests, Record(STDIN, id, []), []);
      var reply := Reply(b, id, b.select(q.uri, q.headers), q.body);
      if reply.Some? { assert reply.value + [] == reply.value; }
    } else {
      RunFirst(b, max, requests, Record(STDIN, id, blocks[0]), Stream(STDIN, id, blocks[1..]));
      var requests' := requests[id := q.(body := q.body + blocks[0])];
      assert q.body + blocks[0] + Concat(blocks[1..]) == q.body + Concat(blocks);
      BodyStream(b, max, requests', id, blocks[1..]);
      assert requests' - {id} == requests - {id};
      var rest := Run(b, max, requests', Stream(STDIN, id, blocks[1..]));
      assert [] + rest.sent == rest.sent;
    }
  }

  /** A request as the client means it: its URI and headers are those its variables
      carry, and "/" when it has no REQUEST_URI. */
  datatype Call = Call(id: RequestId, begin: Content, pairs: seq<Pair>, body: Bytes,
                       uri: Bytes, headers: map<Bytes, Bytes>) {
    ghost predicate Valid(max: nat) {
      && id > 0 && |begin| == 8
      && (forall p :: p in pairs ==> Encodable(p))
      && |EncodePairs(pairs)| <= max && |body| <= max
      && MeansValue(pairs, Ascii("REQUEST_URI"), Ascii("/"), uri) && MeansHeaders(pairs, headers)
    }

    predicate Keep()
      requires |begin| == 8
    {
      begin[2] % 2 == 1
    }

    function Mode(b: Backend): Mode {
      b.select(uri, headers)
    }

    /** The reply it should get, next to the other requests open. */
    function Expected(b: Backend, others: Requests): Session
      requires |begin| == 8
    {
      match Reply(b, id, Mode(b), body)
      case None => Session([], Failed(Invalid))
      case Some(sent) => Session(sent, if ClosesEarly(Mode(b)) || !Keep() then Closed else Open(others))
    }
  }

  lemma CallSelects(call: Call, max: nat)
    requires call.Valid(max)
    ensures Assigned(call.pairs).Get(REQUEST_URI, ROOT) == call.uri && GatewayHeaders(Assigned(call.pairs)) == call.headers
  {
    hide Ascii, Assigned, GatewayHeaders, EncodePairs;
    NamesSpelled();
    ValueMeans(call.pairs, REQUEST_URI, ROOT, call.uri);
    HeadersMeanOne(call.pairs, call.headers);
  }

  /** A complete parameter stream and a complete body, whatever their cuts. */
  lemma CutsAnswered(b: Backend, max: nat, others: Requests, id: RequestId, begin: Content, pairs: seq<Pair>,
      params: seq<Bytes>, body: seq<Bytes>)
    requires id !in others && |begin| == 8 && Blocks(params) && Blocks(body)
    requires |Concat(params)| <= max && |Concat(body)| <= max && DecodePairs(Concat(params)) == Some(pairs)
    ensures var q := Described(Request(Concat(params), Concat(body), map[], ROOT, begin[2] % 2 == 1), Assigned(pairs));
            Run(b, max, others, Transaction(id, begin, params, body)) == Answer(b, others[id := q], id, q)
  {
    hide DecodePairs, Assigned, GatewayHeaders, Answer, Stream, Concat, Run, Blocks;
    var blank := Request([], [], map[], ROOT, begin[2] % 2 == 1);
    var begun := others[id := blank];
    var later := Stream(PARAMS, id, params) + Stream(STDIN, id, body);
    assert Transaction(id, begin, params, body) == [Record(BEGIN, id, begin)] + later;
    RunFirst(b, max, others, Record(BEGIN, id, begin), later);
    assert [] + Concat(params) == Concat(params) && [] + Concat(body) == Concat(body);
    ParamsStream(b, max, begun, id, params, pairs);
    var described := Described(blank.(params := Concat(params)), Assigned(pairs));
    var ready := begun[id := described];
    RunAppend(b, max, begun, Stream(PARAMS, id, params), Stream(STDIN, id, body));
    BodyStream(b, max, ready, id, body);
    var q := described.(body := Concat(body));
    assert ready - {id} == others == others[id := q] - {id};
    AnswerLeaves(b, others, ready, id, q);
    AnswerLeaves(b, others, others[id := q], id, q);
    var answer := Answer(b, ready, id, q);
    assert [] + ([] + answer.sent) == answer.sent;
  }

  /** Closing a request leaves the others. */
  lemma AnswerLeaves(b: Backend, others: Requests, ready: Requests, id: RequestId, q: Request)
    requires ready - {id} == others
    ensures Answer(b, ready, id, q)
            == match Reply(b, id, b.select(q.uri, q.headers), q.body)
               case None => Session([], Failed(Invalid))
               case Some(sent) =>
                 Session(sent, if ClosesEarly(b.select(q.uri, q.headers)) || !q.keep then Closed else Open(others))
  {
  }

  /** End to end: every cut of parameters and body into records gets the reply of
      the whole request, next to any other open requests. */
  lemma CutIndependent(b: Backend, max: nat, others: Requests, call: Call, params: seq<Bytes>, body: seq<Bytes>)
    requires call.Valid(max) && call.id !in others
    requires Blocks(params) && Concat(params) == EncodePairs(call.pairs)
    requires Blocks(body) && Concat(body) == call.body
    ensures Run(b, max, others, Transaction(call.id, call.begin, params, body)) == call.Expected(b, others)
  {
    hide Ascii, MeansValue, MeansHeaders, Stream, Run, Concat, Blocks;
    CallSelects(call, max);
    PairsRoundTrip(call.pairs);
    hide DecodePairs, EncodePairs, Assigned, GatewayHeaders, Reply, ClosesEarly;
    CutsAnswered(b, max, others, call.id, call.begin, call.pairs, params, body);
    var q := Described(Request(Concat(params), Concat(body), map[], ROOT, call.begin[2] % 2 == 1), Assigned(call.pairs));
    assert others[call.id := q] - {call.id} == others;
    AnswerLeaves(b, others, others[call.id := q], call.id, q);
  }

  /** The same over bytes: any padding between the records, and whatever follows
      on the connection is served after the reply. */
  lemma EndToEnd(b: Backend, max: nat, others: Requests, call: Call, params: seq<Bytes>, body: seq<Bytes>,
                 frames: seq<Frame>, rest: Bytes)
    requires call.Valid(max) && call.id !in others
    requires Blocks(params) && Concat(params) == EncodePairs(call.pairs)
    requires Blocks(body) && Concat(body) == call.body
    requires RecordsOf(frames) == Transaction(call.id, call.begin, params, body)
    ensures var expected := call.Expected(b, others);
            Serve(b, max, others, WireAll(frames) + rest)
            == if expected.end.Open? then Serve(b, max, others, rest).After(expected.sent) else expected
  {
    hide Serve, Run, WireAll, Stream, DecodePairs, EncodePairs, Assigned, GatewayHeaders, Reply;
    CutIndependent(b, max, others, call, params, body);
    FramesCarryIds(frames, call, params, body);
    ServeFrames(b, max, others, frames, rest);
  }

  lemma {:induction false} StreamIds(kind: byte, id: RequestId, blocks: seq<Bytes>)
    requires Blocks(blocks)
    ensures forall r :: r in Stream(kind, id, blocks) ==> r.id == id
  {
    if blocks != [] { StreamIds(kind, id, blocks[1..]); }
  }

  lemma {:induction false} FrameRecords(frames: seq<Frame>)
    ensures forall f :: f in frames ==> f.record in RecordsOf(frames)
  {
    if frames != [] { FrameRecords(frames[1..]); }
  }

  lemma FramesCarryIds(frames: seq<Frame>, call: Call, params: seq<Bytes>, body: seq<Bytes>)
    requires Blocks(params) && Blocks(body) && call.id > 0
    requires RecordsOf(frames) == Transaction(call.id, call.begin, params, body)
    ensures forall f :: f in frames ==> f.record.id > 0
  {
    FrameRecords(frames);
    StreamIds(PARAMS, call.id, params);
    StreamIds(STDIN, call.id, body);
  }

  /** Among interleaved requests: whenever the records of one id form a whole
      request, and the connection stays open, that id is answered as if alone. */
  lemma InterleavedCall(b: Backend, max: nat, records: seq<Record>, call: Call, params: seq<Bytes>, body: seq<Bytes>)
    requires call.Valid(max)
    requires Blocks(params) && Concat(params) == EncodePairs(call.pairs)
    requires Blocks(body) && Concat(body) == call.body
    requires Of(call.id, records) == Transaction(call.id, call.begin, params, body)
    requires Run(b, max, map[], records).end.Open?
    ensures Reply(b, call.id, call.Mode(b), call.body)
            == Some(Of(call.id, Run(b, max, map[], records).sent))
  {
    hide Run, Stream, Transaction, DecodePairs, EncodePairs, Assigned, GatewayHeaders, Reply, Of;
    CutIndependent(b, max, map[], call, params, body);
    Demultiplex(b, max, map[], records, call.id);
    assert Only(call.id, map[]) == map[];
  }

  /** The reply is one STDOUT record with the mode's page, and the request body behind
      that of an upgrade; then, unless the mode is one of the three that close early, an
      empty STDOUT and END_REQUEST. With pages of the promised size it is missing exactly
      when an upgrade echo overflows the record. */
  lemma ReplyShape(b: Backend, id: RequestId, mode: Mode, body: Bytes)
    requires SmallPages(b)
    ensures Reply(b, id, mode, body).None? <==>
            mode.Upgrade? && |b.page(Upgrade, false)| + Min(|body|, 1048576) > 65535
    ensures Reply(b, id, mode, body).Some? ==>
            var (sent, page) := (Reply(b, id, mode, body).value, b.page(if mode == Partial then Normal else mode, false));
            && |page| + (if mode == Upgrade then |body| else 0) <= 65535
            && sent[0] == Record(6, id, if mode == Upgrade then page + body else page) && sent[0].content != []
            && sent[1..] == if mode in {EarlyClose, TruncatedHeaders, TruncatedChunk} then []
                            else [Record(6, id, []), Record(3, id, [0, 0, 0, 0, 0, 0, 0, 0])]
  {
    assert 0 < |b.page(mode, false)| < 1024 && 0 < |b.page(Normal, false)| < 1024;
    PlanMeans(b, mode, false, body);
  }
}
