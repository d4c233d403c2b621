/** `handle_fastcgi` over a socket whose reads and writes an adversary cuts up. */
module FastCgiConnection {
  import opened Bytes
  import opened FastCgi
  import opened FastCgiParams
  import opened FastCgiWire
  import opened Python
  import opened Responses
  import opened Sockets
  import opened Wrappers

  /** How a served connection ends: True when it is to be closed, or an exception. */
  function Outcome(end: End): Result<bool, Fault>
    requires !end.Open?
  {
    if end.Closed? then Success(true) else Failure(end.error)
  }

  lemma ServeStops(b: Backend, max: nat, requests: Requests, stream: Bytes)
    ensures NextRecord(stream).Short? ==> Serve(b, max, requests, stream) == Session([], Failed(Eof))
    ensures NextRecord(stream).Rejected? ==> Serve(b, max, requests, stream) == Session([], Failed(Invalid))
  {
  }

  /** The connection so far: what is out, and what the rest of the stream leads to. */
  ghost predicate Serving(ideal: Session, before: Bytes, now: Bytes, sent: seq<Record>, rest: Session) {
    && now == before + EncodeRecords(sent)
    && ideal == rest.After(sent)
  }

  /** The peer has a prefix of the ideal session's replies, all of them when done. */
  ghost predicate Answered(ideal: Session, before: Bytes, now: Bytes, done: bool) {
    && Between(before, now, before + EncodeRecords(ideal.sent))
    && (done ==> now == before + EncodeRecords(ideal.sent))
  }

  lemma ServingStarts(ideal: Session, before: Bytes)
    ensures Serving(ideal, before, before, [], ideal)
  {
    assert [] + ideal.sent == ideal.sent;
  }

  /** Sending some records moves them from the future to the past. */
  lemma ServingMore(ideal: Session, before: Bytes, now: Bytes, sent: seq<Record>, later: Session, more: seq<Record>)
    requires Serving(ideal, before, now, sent, later.After(more))
    ensures Serving(ideal, before, now + EncodeRecords(more), sent + more, later)
    ensures Between(before, now + EncodeRecords(more), before + EncodeRecords(ideal.sent))
  {
    hide EncodeRecords;
    EncodeAppend(sent, more);
    Assoc(before, EncodeRecords(sent), EncodeRecords(more));
    EncodeAppend(sent + more, later.sent);
    Assoc(sent, more, later.sent);
    Assoc(before, EncodeRecords(sent + more), EncodeRecords(later.sent));
    PrefixOfSum(now + EncodeRecords(more), EncodeRecords(later.sent));
  }

  /** A session that stops here is all out. */
  lemma ServingEnds(ideal: Session, before: Bytes, now: Bytes, sent: seq<Record>, rest: Session)
    requires Serving(ideal, before, now, sent, rest)
    ensures Answered(ideal, before, now, false)
    ensures rest.sent == [] ==> Answered(ideal, before, now, true) && ideal.end == rest.end
  {
    hide EncodeRecords;
    EncodeAppend(sent, rest.sent);
    Assoc(before, EncodeRecords(sent), EncodeRecords(rest.sent));
    PrefixOfSum(now, EncodeRecords(rest.sent));
    if rest.sent == [] { assert sent + [] == sent; }
  }

  /** What one record does to a connection and to its ideal session. */
  lemma ServingRound(b: Backend, max: nat, requests: Requests, stream: Bytes, record: Record, size: nat,
                     ideal: Session, before: Bytes, now: Bytes, sent: seq<Record>)
    requires Serving(ideal, before, now, sent, Serve(b, max, requests, stream))
    requires NextRecord(stream) == Got(record, size)
    ensures var step := Handle(b, max, requests, record);
            if step.Raise? then Answered(ideal, before, now, true) && ideal.end == Failed(Invalid)
            else
              && Answered(ideal, before, now + EncodeRecords(step.sent), step.Finish?)
              && if step.Finish? then ideal.end == Closed
                 else Serving(ideal, before, now + EncodeRecords(step.sent), sent + step.sent,
                              Serve(b, max, step.requests, stream[size..]))
  {
    hide Handle, NextRecord, EncodeRecords;
    var rest := Serve(b, max, requests, stream);
    var step := Handle(b, max, requests, record);
    if step.Continue? {
      ServingMore(ideal, before, now, sent, Serve(b, max, step.requests, stream[size..]), step.sent);
    } else {
      var end := Session([], rest.end);
      assert rest.sent + [] == rest.sent;
      ServingMore(ideal, before, now, sent, end, rest.sent);
      ServingEnds(ideal, before, now + EncodeRecords(rest.sent), sent + rest.sent, end);
      if step.Raise? { ServingEnds(ideal, before, now, sent, rest); }
    }
  }

  /** A write that failed on the way leaves a prefix. */
  lemma CutShort(ideal: Session, before: Bytes, now: Bytes, after: Bytes, target: Bytes, done: bool)
    requires Answered(ideal, before, now, false) && Between(now, after, target) && Answered(ideal, before, target, done)
    ensures Answered(ideal, before, after, false)
  {
    BetweenWithin(before, now, after, target, before + EncodeRecords(ideal.sent));
  }

  /** The front of a stream by the fields of its header. */
  ghost predicate HasHeader(stream: Bytes, h: Bytes) { |stream| >= 8 && h == stream[..8] }

  function RecordSize(h: Bytes): nat
    requires |h| == 8
  {
    8 + FromBe16(h[4], h[5]) + h[6]
  }

  lemma BadHeader(stream: Bytes, h: Bytes)
    requires HasHeader(stream, h) && (h[0] != 1 || FromBe16(h[2], h[3]) == 0)
    ensures NextRecord(stream) == Rejected
  {
  }

  lemma CutRecord(stream: Bytes, h: Bytes)
    requires HasHeader(stream, h) && h[0] == 1 && FromBe16(h[2], h[3]) != 0 && |stream| < RecordSize(h)
    ensures NextRecord(stream) == Short
  {
  }

  lemma WholeRecord(stream: Bytes, h: Bytes, content: Bytes)
    requires HasHeader(stream, h) && h[0] == 1 && FromBe16(h[2], h[3]) != 0 && RecordSize(h) <= |stream|
    requires content == stream[8..8 + FromBe16(h[4], h[5])]
    ensures NextRecord(stream) == Got(Record(h[1], FromBe16(h[2], h[3]), content), RecordSize(h))
  {
  }

  /** One record off the socket: `NextRecord` of the rest of the stream. */
  method ReadRecord(sock: Socket) returns (r: Result<Record, Fault>)
    requires sock.Valid()
    modifies sock`pos, sock`faulted
    ensures sock.Valid() && old(sock.pos) <= sock.pos
    ensures r.Success? ==> sock.faulted == old(sock.faulted)
                           && NextRecord(old(sock.Rest())) == Got(r.value, sock.pos - old(sock.pos))
                           && sock.Rest() == old(sock.Rest())[sock.pos - old(sock.pos)..]
                           && |sock.Rest()| < |old(sock.Rest())|
    ensures r.Failure? ==> r.error == Eof || r.error == Invalid || r.error == Timeout
    ensures r == Failure(Eof) ==> NextRecord(old(sock.Rest())) == Short && sock.faulted == old(sock.faulted)
    ensures r == Failure(Invalid) ==> NextRecord(old(sock.Rest())) == Rejected && sock.faulted == old(sock.faulted)
    ensures r == Failure(Timeout) ==> sock.faulted
  {
    ghost var stream := sock.Rest();
    ghost var start := sock.pos;
    assert |stream| < 8 ==> NextRecord(stream) == Short;
    RestIs(sock);
    hide NextRecord, FromBe16, Socket.Rest, HasHeader;
    var header := RecvExact(sock, 8);
    if header.Failure? { return Failure(header.error); }
    var h := header.value;
    HeaderRead(sock.input, start, stream, h);
    var id := FromBe16(h[2], h[3]);
    var length := FromBe16(h[4], h[5]);
    if h[0] != 1 || id == 0 {
      BadHeader(stream, h);
      return Failure(Invalid);
    }
    if |stream| < RecordSize(h) { CutRecord(stream, h); }
    var content := [];
    if length > 0 {
      var body := RecvExact(sock, length);
      if body.Failure? { return Failure(body.error); }
      content := body.value;
    }
    assert content == sock.input[start + 8..start + 8 + length];
    if h[6] > 0 {
      var padding := RecvExact(sock, h[6]);
      if padding.Failure? { return Failure(padding.error); }
    }
    SuffixSlice(sock.input, start, 8, 8 + length);
    WholeRecord(stream, h, content);
    SuffixSlice(sock.input, start, RecordSize(h), RecordSize(h));
    RestIs(sock);
    r := Success(Record(h[1], id, content));
  }

  lemma HeaderRead(input: Bytes, start: nat, stream: Bytes, h: Bytes)
    requires start + 8 <= |input| && stream == input[start..] && h == input[start..start + 8]
    ensures HasHeader(stream, h)
  {
    SuffixSlice(input, start, 0, 8);
  }

  /** `_fcgi_respond`: whether to close, or the exception. */
  method Respond(sock: Socket, b: Backend, id: RequestId, mode: Mode, body: Bytes, keep: bool)
    returns (r: Result<bool, Fault>)
    modifies sock`output, sock`calls, sock`faulted
    ensures r.Success? ==> Reply(b, id, mode, body).Some? && r.value == (ClosesEarly(mode) || !keep)
                           && sock.output == old(sock.output) + EncodeRecords(Reply(b, id, mode, body).value)
                           && sock.faulted == old(sock.faulted)
    ensures r.Failure? ==> r.error == Invalid || IsCut(r.error)
    ensures r != Failure(Invalid) && Reply(b, id, mode, body).Some? ==>
              Written(old(sock.calls), sock.calls, mode == Partial, |EncodeRecords(Reply(b, id, mode, body).value)|)
    ensures r == Failure(Invalid) ==> Reply(b, id, mode, body).None? && sock.output == old(sock.output)
                                      && sock.faulted == old(sock.faulted)
    ensures r.Failure? && IsCut(r.error) ==> Reply(b, id, mode, body).Some? && sock.faulted
    ensures r.Failure? && IsCut(r.error) ==>
            Between(old(sock.output), sock.output,
                    old(sock.output) + EncodeRecords(Reply(b, id, mode, body).value))
  {
    var plan := Plan(b, mode, false, body);
    if |plan.data| > 0xFFFF { return Failure(Invalid); }
    var wire := EncodeRecord(Record(STDOUT, id, plan.data));
    if !plan.closeEarly {
      wire := wire + EncodeRecord(Record(STDOUT, id, []));
      wire := wire + EncodeRecord(Record(END, id, END_BODY));
    }
    ReplyBytes(b, id, mode, body);
    PlanMeans(b, mode, false, body);
    var fault := Send(sock, wire, plan.partial);
    if fault.Some? { return Failure(fault.value); }
    r := Success(plan.closeEarly || !keep);
  }

  lemma ReplyBytes(b: Backend, id: RequestId, mode: Mode, body: Bytes)
    requires Reply(b, id, mode, body).Some?
    ensures var plan := Plan(b, mode, false, body);
            EncodeRecords(Reply(b, id, mode, body).value)
            == if plan.closeEarly then EncodeRecord(Record(STDOUT, id, plan.data))
               else EncodeRecord(Record(STDOUT, id, plan.data)) + EncodeRecord(Record(STDOUT, id, []))
                    + EncodeRecord(Record(END, id, END_BODY))
    ensures Plan(b, mode, false, body).closeEarly == ClosesEarly(mode)
  {
    hide EncodeRecord;
    var sent := Reply(b, id, mode, body).value;
    if Plan(b, mode, false, body).closeEarly {
      assert sent == [sent[0]];
      EncodeOne(sent[0]);
    } else {
      var (first, second, third) := (Record(STDOUT, id, Plan(b, mode, false, body).data), Record(STDOUT, id, []),
                                     Record(END, id, END_BODY));
      assert sent == [first] + [second] + [third];
      EncodeAppend([first] + [second], [third]);
      EncodeAppend([first], [second]);
      EncodeOne(first);
      EncodeOne(second);
      EncodeOne(third);
    }
  }

  lemma EncodeOne(r: Record)
    ensures EncodeRecords([r]) == EncodeRecord(r)
  {
    hide EncodeRecord;
    assert [r][1..] == [];
    assert EncodeRecord(r) + [] == EncodeRecord(r);
  }

  /** The outcome of a round, and what it sent, are those of the ideal step. */
  ghost predicate Handled(step: Step, r: Result<Option<Requests>, Fault>, before: Bytes, after: Bytes) {
    match r
    case Failure(error) =>
      if step.Raise? then error == Invalid && after == before
      else IsCut(error) && Between(before, after, before + EncodeRecords(step.sent))
    case Success(requests) =>
      && !step.Raise? && after == before + EncodeRecords(step.sent)
      && if requests.None? then step.Finish? else step == Continue(requests.value, step.sent)
  }

  /** Where a round leaves the connection. */
  lemma RoundEnds(b: Backend, max: nat, requests: Requests, stream: Bytes, record: Record, size: nat,
                  ideal: Session, before: Bytes, now: Bytes, sent: seq<Record>,
                  r: Result<Option<Requests>, Fault>, after: Bytes)
    requires Serving(ideal, before, now, sent, Serve(b, max, requests, stream))
    requires NextRecord(stream) == Got(record, size)
    requires Handled(Handle(b, max, requests, record), r, now, after)
    ensures r.Failure? && IsCut(r.error) ==> Answered(ideal, before, after, false)
    ensures r.Failure? && !IsCut(r.error) ==>
            r.error == Invalid && Answered(ideal, before, after, true) && ideal.end == Failed(Invalid)
    ensures r == Success(None) ==> Answered(ideal, before, after, true) && ideal.end == Closed
    ensures r.Success? && r.value.Some? ==>
            var step := Handle(b, max, requests, record);
            step.Continue? && Serving(ideal, before, after, sent + step.sent,
                                      Serve(b, max, r.value.value, stream[size..]))
  {
    hide Handle, NextRecord, EncodeRecords, Serve, Serving, Between, Answered;
    var step := Handle(b, max, requests, record);
    ServingRound(b, max, requests, stream, record, size, ideal, before, now, sent);
    ServingEnds(ideal, before, now, sent, Serve(b, max, requests, stream));
    if r.Failure? && IsCut(r.error) { CutShort(ideal, before, now, after, now + EncodeRecords(step.sent), step.Finish?); }
  }

  /** One round of the loop of `handle_fastcgi`: the requests left open, or None
      to close the connection. */
  method HandleRecord(sock: Socket, b: Backend, max: nat, requests: Requests, record: Record)
    returns (r: Result<Option<Requests>, Fault>)
    modifies sock`output, sock`calls, sock`faulted
    ensures Handled(Handle(b, max, requests, record), r, old(sock.output), sock.output)
    ensures if r.Failure? && IsCut(r.error) then sock.faulted else sock.faulted == old(sock.faulted)
  {
    hide Reply, ClosesEarly, DecodePairs, Assigned, GatewayHeaders;
    var (id, content) := (record.id, record.content);
    assert sock.output == sock.output + EncodeRecords([]);
    if record.kind == BEGIN {
      if |content| != 8 || id in requests { return Failure(Invalid); }
      return Success(Some(requests[id := Request([], [], map[], ROOT, content[2] % 2 == 1)]));
    }
    if id !in requests { return Failure(Invalid); }
    var state := requests[id];
    if record.kind == PARAMS {
      if content != [] {
        if |state.params| + |content| > max { return Failure(Invalid); }
        state := state.(params := state.params + content);
      } else {
        var params := ReadParams(state.params);
        if params.None? { return Failure(Invalid); }
        state := state.(uri := params.value.Get(REQUEST_URI, ROOT));
        state := state.(headers := GatewayHeaders(params.value));
      }
      return Success(Some(requests[id := state]));
    } else if record.kind == STDIN {
      if content != [] {
        if |state.body| + |content| > max { return Failure(Invalid); }
        state := state.(body := state.body + content);
        return Success(Some(requests[id := state]));
      }
      var mode := b.select(state.uri, state.headers);
      var close := Respond(sock, b, id, mode, state.body, state.keep);
      if close.Failure? { return Failure(close.error); }
      return Success(if close.value then None else Some(requests - {id}));
    } else if record.kind == ABORT {
      return Success(Some(requests - {id}));
    }
    return Success(Some(requests));
  }

  /** One round: a record off the socket and what it does. The connection stays on the way
      to the end of its ideal session, or has reached it. */
  method Round(sock: Socket, b: Backend, max: nat, requests: Requests, ghost ideal: Session, ghost before: Bytes,
      ghost sent: seq<Record>) returns (r: Result<Option<Requests>, Fault>, ghost more: seq<Record>)
    requires sock.Valid() && !sock.faulted
    requires Serving(ideal, before, sock.output, sent, Serve(b, max, requests, sock.Rest()))
    modifies sock`pos, sock`output, sock`calls, sock`faulted
    ensures sock.Valid() && (sock.faulted <==> r.Failure? && IsCut(r.error))
    ensures r.Failure? && IsCut(r.error) ==> Answered(ideal, before, sock.output, false)
    ensures r.Failure? && !IsCut(r.error) ==> Answered(ideal, before, sock.output, true) && ideal.end == Failed(r.error)
    ensures r == Success(None) ==> Answered(ideal, before, sock.output, true) && ideal.end == Closed
    ensures r.Success? && r.value.Some? ==>
              && old(sock.pos) < sock.pos
              && Serving(ideal, before, sock.output, more, Serve(b, max, r.value.value, sock.Rest()))
  {
    hide Handle, Handled, NextRecord, EncodeRecords, Serve, Serving, Between, Answered, Socket.Rest;
    ghost var (stream, from, now) := (sock.Rest(), sock.pos, sock.output);
    ServingEnds(ideal, before, now, sent, Serve(b, max, requests, stream));
    ServeStops(b, max, requests, stream);
    more := sent;
    var record := ReadRecord(sock);
    if record.Failure? {
      r := Failure(record.error);
      return;
    }
    ghost var size := sock.pos - from;
    RestIs(sock);
    r := HandleRecord(sock, b, max, requests, record.value);
    RoundEnds(b, max, requests, stream, record.value, size, ideal, before, now, sent, r, sock.output);
    RestIs(sock);
    more := if r.Success? && r.value.Some? then sent + Handle(b, max, requests, record.value).sent else sent;
  }

  /** `handle_fastcgi`: whatever the sizes of reads and writes, the peer receives
      the replies of the ideal session and the connection ends as it does; with a
      timeout or a failed write it receives a prefix. */
  method HandleFastCgi(sock: Socket, b: Backend, max: nat) returns (r: Result<bool, Fault>)
    requires sock.Valid() && !sock.faulted
    modifies sock`pos, sock`output, sock`calls, sock`faulted
    ensures var ideal := Serve(b, max, map[], old(sock.Rest()));
            if r.Failure? && IsCut(r.error) then
              sock.faulted && Answered(ideal, old(sock.output), sock.output, false)
            else
              !sock.faulted && Answered(ideal, old(sock.output), sock.output, true) && r == Outcome(ideal.end)
  {
    ghost var ideal := Serve(b, max, map[], sock.Rest());
    ghost var before := sock.output;
    var requests: Requests := map[];
    ghost var sent: seq<Record> := [];
    ServingStarts(ideal, before);
    hide Serve, Serving, Answered, Socket.Rest;
    while true
      invariant sock.Valid() && !sock.faulted
      invariant Serving(ideal, before, sock.output, sent, Serve(b, max, requests, sock.Rest()))
      decreases |sock.input| - sock.pos
    {
      var handled;
      handled, sent := Round(sock, b, max, requests, ideal, before, sent);
      if handled.Failure? { return Failure(handled.error); }
      if handled.value.None? { return Success(true); }
      requests := handled.value.value;
    }
  }
}
