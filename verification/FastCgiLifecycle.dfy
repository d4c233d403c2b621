/** What every reachable state of a FastCGI connection keeps. */
module FastCgiLifecycle {
  import opened Bytes
  import opened FastCgi
  import opened FastCgiParams
  import opened Python
  import opened Responses

  function Count(records: seq<Record>, id: RequestId, kind: byte): nat {
    if records == [] then 0
    else (if records[0].id == id && records[0].kind == kind then 1 else 0)
         + Count(records[1..], id, kind)
  }

  function Begins(records: seq<Record>, id: RequestId): nat { Count(records, id, 1) }

  function Aborts(records: seq<Record>, id: RequestId): nat { Count(records, id, 2) }

  /** The END_REQUEST records among those sent for a request id. */
  function Answers(sent: seq<Record>, id: RequestId): nat { Count(sent, id, 3) }

  function IsOpen(requests: Requests, id: RequestId): nat { if id in requests then 1 else 0 }

  lemma {:induction false} CountAppend(a: seq<Record>, c: seq<Record>, id: RequestId, kind: byte)
    ensures Count(a + c, id, kind) == Count(a, id, kind) + Count(c, id, kind)
  {
    if a == [] {
      assert a + c == c;
    } else {
      CountAppend(a[1..], c, id, kind);
      assert (a + c)[0] == a[0] && (a + c)[1..] == a[1..] + c;
    }
  }

  lemma {:induction false} RunAppend(b: Backend, max: nat, requests: Requests, first: seq<Record>, second: seq<Record>)
    ensures var one := Run(b, max, requests, first);
            Run(b, max, requests, first + second)
            == if one.end.Open? then Run(b, max, one.end.requests, second).After(one.sent) else one
    decreases |first|
  {
    hide Handle;
    if first == [] {
      assert first + second == second;
      var all := Run(b, max, requests, second);
      assert [] + all.sent == all.sent;
    } else {
      assert (first + second)[0] == first[0] && (first + second)[1..] == first[1..] + second;
      var step := Handle(b, max, requests, first[0]);
      if step.Continue? {
        RunAppend(b, max, step.requests, first[1..], second);
        var one := Run(b, max, step.requests, first[1..]);
        if one.end.Open? {
          var two := Run(b, max, one.end.requests, second);
          assert step.sent + (one.sent + two.sent) == step.sent + one.sent + two.sent;
        }
      }
    }
  }

  ghost predicate Bounded(max: nat, requests: Requests) {
    forall id :: id in requests ==> |requests[id].params| <= max && |requests[id].body| <= max
  }

  /** A response that does not close early ends with its one END_REQUEST. */
  lemma AnsweredOnce(b: Backend, id: RequestId, mode: Mode, body: Bytes, other: RequestId)
    requires Reply(b, id, mode, body).Some? && !ClosesEarly(mode)
    ensures Answers(Reply(b, id, mode, body).value, other) == if other == id then 1 else 0
  {
    var sent := Reply(b, id, mode, body).value;
    assert |sent| == 3 && sent == [sent[0], sent[1], sent[2]];
    assert sent[1..] == [sent[1], sent[2]] && sent[1..][1..] == [sent[2]] && [sent[2]][1..] == [];
    assert sent[2].id == id;
    assert sent[2].kind == END;
    assert Count([sent[2]][1..], other, END) == 0;
    assert Answers([sent[2]], other) == if other == id then 1 else 0;
    assert Answers([sent[1], sent[2]], other) == Answers([sent[2]], other);
  }

  /** One record: a begin opens, a response or an abort closes, nothing else does. */
  lemma HandleCounts(b: Backend, max: nat, requests: Requests, r: Record, id: RequestId)
    requires Handle(b, max, requests, r).Continue?
    ensures var step := Handle(b, max, requests, r);
            IsOpen(requests, id) + Begins([r], id)
            == Answers(step.sent, id) + Aborts([r], id) + IsOpen(step.requests, id)
    ensures Bounded(max, requests) ==> Bounded(max, Handle(b, max, requests, r).requests)
  {
    hide DecodePairs, Assigned, GatewayHeaders;
    assert Count([r][1..], id, BEGIN) == Count([r][1..], id, ABORT) == 0;
    assert Begins([r], id) == if r.id == id && r.kind == BEGIN then 1 else 0;
    assert Aborts([r], id) == if r.id == id && r.kind == ABORT then 1 else 0;
    if r.id in requests {
      var mode := b.select(requests[r.id].uri, requests[r.id].headers);
      if Reply(b, r.id, mode, requests[r.id].body).Some? && !ClosesEarly(mode) {
        AnsweredOnce(b, r.id, mode, requests[r.id].body, id);
      }
    }
  }

  /** Lifecycle: in every reachable state each id has been begun as often as it
      was answered or aborted, plus once when it is open; so no id is begun twice
      while open. No buffer outgrows the limit. */
  lemma {:induction false} Lifecycle(b: Backend, max: nat, requests: Requests, records: seq<Record>, id: RequestId)
    requires Run(b, max, requests, records).end.Open?
    ensures var all := Run(b, max, requests, records);
            IsOpen(requests, id) + Begins(records, id)
            == Answers(all.sent, id) + Aborts(records, id) + IsOpen(all.end.requests, id)
    ensures Bounded(max, requests) ==> Bounded(max, Run(b, max, requests, records).end.requests)
    decreases |records|
  {
    hide Handle;
    if records != [] {
      var step := Handle(b, max, requests, records[0]);
      HandleCounts(b, max, requests, records[0], id);
      Lifecycle(b, max, step.requests, records[1..], id);
      assert [records[0]] + records[1..] == records;
      CountAppend([records[0]], records[1..], id, BEGIN);
      CountAppend([records[0]], records[1..], id, ABORT);
      CountAppend(step.sent, Run(b, max, step.requests, records[1..]).sent, id, END);
    }
  }

  /** The states passed on the way are reachable states too. */
  lemma OpenThroughout(b: Backend, max: nat, requests: Requests, records: seq<Record>, k: nat)
    requires k <= |records| && Run(b, max, requests, records).end.Open?
    ensures Run(b, max, requests, records[..k]).end.Open?
  {
    hide Run;
    RunAppend(b, max, requests, records[..k], records[k..]);
    assert records[..k] + records[k..] == records;
  }
}
