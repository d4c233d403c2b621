/** The FastCGI request multiplexer of the backend fixture: what one connection
    does with a stream of records. */
module FastCgi {
  import opened Bytes
  import opened FastCgiParams
  import opened Python
  import opened Responses
  import opened Sockets
  import opened Wrappers

  type RequestId = n: nat | n < 0x1_0000
  type Content = c: Bytes | |c| < 0x1_0000
  type Padding = p: Bytes | |p| < 256

  datatype Record = Record(kind: byte, id: RequestId, content: Content)

  /** A record on the wire: section 3.3 of the FastCGI Specification. */
  datatype Frame = Frame(record: Record, padding: Padding, reserved: byte)

  function FrameHeader(f: Frame): (r: Bytes)
    ensures |r| == 8
  {
    [1, f.record.kind] + Be16(f.record.id) + Be16(|f.record.content|) + [|f.padding|, f.reserved]
  }

  function Wire(f: Frame): Bytes {
    FrameHeader(f) + f.record.content + f.padding
  }

  function WireAll(frames: seq<Frame>): Bytes {
    if frames == [] then [] else Wire(frames[0]) + WireAll(frames[1..])
  }

  /** `fcgi_record`: a record without padding. */
  function EncodeRecord(r: Record): Bytes { Wire(Frame(r, [], 0)) }

  function EncodeRecords(records: seq<Record>): Bytes {
    if records == [] then [] else EncodeRecord(records[0]) + EncodeRecords(records[1..])
  }

  datatype Next = Short | Rejected | Got(record: Record, size: nat)

  /** The record at the front of a stream and its size on the wire. */
  function NextRecord(s: Bytes): (n: Next)
    ensures n.Got? ==> 8 <= n.size <= |s|
  {
    if |s| < 8 then Short
    else
      var (id, length) := (FromBe16(s[2], s[3]), FromBe16(s[4], s[5]));
      if s[0] != 1 || id == 0 then Rejected
      else if |s| < 8 + length + s[6] then Short
      else Got(Record(s[1], id, s[8..8 + length]), 8 + length + s[6])
  }

  /** The layout of a frame: version 1, type, id and length with the higher bytes first,
      the padding's length and a reserved byte; then content and padding. */
  lemma FrameOnWire(f: Frame)
    ensures var (r, n) := (f.record, |f.record.content|);
            Wire(f) == [1, r.kind, r.id / 256, r.id % 256, n / 256, n % 256, |f.padding|, f.reserved]
                       + r.content + f.padding
  {
  }

  /** Which streams begin with no record: those with another version or the id zero, and
      those that end inside the record. */
  lemma NoRecord(s: Bytes)
    ensures NextRecord(s) == Rejected <==> |s| >= 8 && (s[0] != 1 || (s[2] == 0 && s[3] == 0))
    ensures NextRecord(s) == Short <==>
            |s| < 8 || (s[0] == 1 && !(s[2] == 0 && s[3] == 0) && |s| < 8 + FromBe16(s[4], s[5]) + s[6])
  {
  }

  /** What is kept of an open request. */
  datatype Request = Request(params: Bytes, body: Bytes, headers: map<Bytes, Bytes>, uri: Bytes, keep: bool)

  type Requests = map<RequestId, Request>

  /** "/" and "REQUEST_URI". */
  const ROOT: Bytes := [47]
  const REQUEST_URI: Bytes := [82, 69, 81, 85, 69, 83, 84, 95, 85, 82, 73]

  lemma NamesSpelled()
    ensures REQUEST_URI == Ascii("REQUEST_URI") && ROOT == Ascii("/")
  {
  }

  const BEGIN: byte := 1
  const ABORT: byte := 2
  const END: byte := 3
  const PARAMS: byte := 4
  const STDIN: byte := 5
  const STDOUT: byte := 6

  const END_BODY: Bytes := [0, 0, 0, 0, 0, 0, 0, 0]

  /** The records `_fcgi_respond` sends; None when the response does not fit one. */
  function Reply(b: Backend, id: RequestId, mode: Mode, body: Bytes): (r: Option<seq<Record>>)
    ensures r.Some? ==> forall x :: x in r.value ==> x.id == id
  {
    var plan := Plan(b, mode, false, body);
    if |plan.data| > 0xFFFF then None
    else Some([Record(STDOUT, id, plan.data)]
              + if plan.closeEarly then [] else [Record(STDOUT, id, []), Record(END, id, END_BODY)])
  }

  datatype Step = Continue(requests: Requests, sent: seq<Record>) | Finish(sent: seq<Record>) | Raise

  /** One round of the loop of `handle_fastcgi`. */
  function Handle(b: Backend, max: nat, requests: Requests, r: Record): Step
  {
    if r.kind == BEGIN then
      if |r.content| != 8 || r.id in requests then Raise
      else Continue(requests[r.id := Request([], [], map[], ROOT, r.content[2] % 2 == 1)], [])
    else if r.id !in requests then Raise
    else
      var q := requests[r.id];
      if r.kind == PARAMS then
        if r.content != [] then
          if |q.params| + |r.content| > max then Raise
          else Continue(requests[r.id := q.(params := q.params + r.content)], [])
        else
          match DecodePairs(q.params)
          case None => Raise
          case Some(pairs) => Continue(requests[r.id := Described(q, Assigned(pairs))], [])
      else if r.kind == STDIN then
        if r.content != [] then
          if |q.body| + |r.content| > max then Raise
          else Continue(requests[r.id := q.(body := q.body + r.content)], [])
        else
          var mode := b.select(q.uri, q.headers);
          match Reply(b, r.id, mode, q.body)
          case None => Raise
          case Some(sent) =>
            if ClosesEarly(mode) || !q.keep then Finish(sent) else Continue(requests - {r.id}, sent)
      else if r.kind == ABORT then Continue(requests - {r.id}, [])
      else Continue(requests, [])
  }

  /** Exactly what is refused: a begin of the wrong size or of an open id, any other record
      of an id that is not open, a stream that outgrows the limit, parameters that do not
      decode, and a reply that does not fit. Of an open id an abort closes it, and a
      record of any further type is ignored. */
  lemma HandleRefuses(b: Backend, max: nat, requests: Requests, r: Record)
    ensures r.kind == 1 ==> (Handle(b, max, requests, r).Raise? <==> |r.content| != 8 || r.id in requests)
    ensures r.kind != 1 && r.id !in requests ==> Handle(b, max, requests, r).Raise?
    ensures r.kind != 1 && r.id in requests ==>
              var (step, q) := (Handle(b, max, requests, r), requests[r.id]);
              && (r.kind == 2 ==> step == Continue(requests - {r.id}, []))
              && (r.kind == 4 && r.content != [] ==> (step.Raise? <==> |q.params| + |r.content| > max))
              && (r.kind == 4 && r.content == [] ==> (step.Raise? <==> DecodePairs(q.params).None?))
              && (r.kind == 5 && r.content != [] ==> (step.Raise? <==> |q.body| + |r.content| > max))
              && (r.kind == 5 && r.content == [] ==>
                    (step.Raise? <==> Reply(b, r.id, b.select(q.uri, q.headers), q.body).None?))
              && (r.kind != 2 && r.kind != 4 && r.kind != 5 ==> step == Continue(requests, []))
  {
    hide DecodePairs, Assigned, GatewayHeaders, Reply;
  }

  /** A request once its parameter stream is complete. */
  function Described(q: Request, variables: Dict): Request {
    q.(uri := variables.Get(REQUEST_URI, ROOT), headers := GatewayHeaders(variables))
  }

  datatype End = Open(requests: Requests) | Closed | Failed(error: Fault)

  /** What a connection has sent, and where it stands. */
  datatype Session = Session(sent: seq<Record>, end: End) {
    function After(earlier: seq<Record>): Session { Session(earlier + sent, end) }
  }

  /** Handling a list of records. */
  function Run(b: Backend, max: nat, requests: Requests, records: seq<Record>): Session
    decreases |records|
  {
    if records == [] then Session([], Open(requests))
    else
      match Handle(b, max, requests, records[0])
      case Raise => Session([], Failed(Invalid))
      case Finish(sent) => Session(sent, Closed)
      case Continue(next, sent) => Run(b, max, next, records[1..]).After(sent)
  }

  /** Serving a byte stream to its end. */
  function Serve(b: Backend, max: nat, requests: Requests, stream: Bytes): (r: Session)
    ensures !r.end.Open?
    decreases |stream|
  {
    match NextRecord(stream)
    case Short => Session([], Failed(Eof))
    case Rejected => Session([], Failed(Invalid))
    case Got(record, size) =>
      match Handle(b, max, requests, record)
      case Raise => Session([], Failed(Invalid))
      case Finish(sent) => Session(sent, Closed)
      case Continue(next, sent) => Serve(b, max, next, stream[size..]).After(sent)
  }

  /** What ends a session without an answer: the end of the stream, or something refused. */
  lemma ServeEnds(b: Backend, max: nat, requests: Requests, stream: Bytes)
    ensures NextRecord(stream) == Short ==> Serve(b, max, requests, stream) == Session([], Failed(Eof))
    ensures NextRecord(stream) == Rejected ==> Serve(b, max, requests, stream) == Session([], Failed(Invalid))
    ensures NextRecord(stream).Got? && Handle(b, max, requests, NextRecord(stream).record).Raise? ==>
              Serve(b, max, requests, stream) == Session([], Failed(Invalid))
  {
    hide NextRecord, Handle;
  }

  // ---------------------------------------------------------------------
  // Demultiplexing
  // ---------------------------------------------------------------------

  /** The records of one request id, in order. */
  function Of(id: RequestId, records: seq<Record>): seq<Record> {
    if records == [] then []
    else (if records[0].id == id then [records[0]] else []) + Of(id, records[1..])
  }

  lemma {:induction false} OfAppend(id: RequestId, left: seq<Record>, right: seq<Record>)
    ensures Of(id, left + right) == Of(id, left) + Of(id, right)
  {
    if left == [] {
      assert left + right == right;
    } else {
      OfAppend(id, left[1..], right);
      assert (left + right)[0] == left[0] && (left + right)[1..] == left[1..] + right;
      var first := if left[0].id == id then [left[0]] else [];
      assert first + (Of(id, left[1..]) + Of(id, right)) == first + Of(id, left[1..]) + Of(id, right);
    }
  }

  lemma {:induction false} OfOwn(id: RequestId, other: RequestId, records: seq<Record>)
    requires forall r :: r in records ==> r.id == id
    ensures Of(other, records) == if other == id then records else []
  {
    if records != [] {
      OfOwn(id, other, records[1..]);
      assert [records[0]] + records[1..] == records;
    }
  }

  function Only(id: RequestId, requests: Requests): Requests {
    if id in requests then map[id := requests[id]] else map[]
  }

  /** A record only touches the request of its own id, and only looks at it. */
  lemma HandleIsLocal(b: Backend, max: nat, requests: Requests, r: Record, id: RequestId)
    requires Handle(b, max, requests, r).Continue?
    ensures var step := Handle(b, max, requests, r);
            && (forall x :: x in step.sent ==> x.id == r.id)
            && if r.id == id
               then Handle(b, max, Only(id, requests), r) == Continue(Only(id, step.requests), step.sent)
               else Only(id, step.requests) == Only(id, requests)
  {
    hide DecodePairs, Assigned, GatewayHeaders, Plan;
    if r.id == id {
      assert id in requests ==> Only(id, requests) - {id} == map[];
    }
  }

  /** Demultiplexing: in a run without error or close, request id gets the bytes,
      and is left in the state, it would have if its records came alone. */
  lemma {:induction false} Demultiplex(b: Backend, max: nat, requests: Requests, records: seq<Record>, id: RequestId)
    requires Run(b, max, requests, records).end.Open?
    ensures var all := Run(b, max, requests, records);
            Run(b, max, Only(id, requests), Of(id, records))
            == Session(Of(id, all.sent), Open(Only(id, all.end.requests)))
    decreases |records|
  {
    hide Handle;
    if records != [] {
      var step := Handle(b, max, requests, records[0]);
      var later := Run(b, max, step.requests, records[1..]);
      HandleIsLocal(b, max, requests, records[0], id);
      Demultiplex(b, max, step.requests, records[1..], id);
      OfAppend(id, step.sent, later.sent);
      OfOwn(records[0].id, id, step.sent);
      var mine := Of(id, records[1..]);
      assert Of(id, records) == (if records[0].id == id then [records[0]] else []) + mine;
      if records[0].id == id {
        assert Of(id, records)[1..] == mine;
      } else {
        assert Of(id, records) == mine;
        assert Of(id, step.sent) + Of(id, later.sent) == Of(id, later.sent);
      }
    }
  }

  /** Two interleavings of the same per-id streams give every id the same reply. */
  lemma InterleavingIndependent(b: Backend, max: nat, one: seq<Record>, two: seq<Record>, id: RequestId)
    requires Of(id, one) == Of(id, two)
    requires Run(b, max, map[], one).end.Open? && Run(b, max, map[], two).end.Open?
    ensures Of(id, Run(b, max, map[], one).sent) == Of(id, Run(b, max, map[], two).sent)
  {
    hide Handle, Run, Of;
    Demultiplex(b, max, map[], one, id);
    Demultiplex(b, max, map[], two, id);
    assert Only(id, map[]) == map[];
  }
}
