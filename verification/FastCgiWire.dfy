/** FastCGI records as bytes, in both directions. */
module FastCgiWire {
  import opened Bytes
  import opened FastCgi
  import opened Responses
  import opened Wrappers

  /** The record decoder of the fixture's tests; None is its AssertionError. */
  function DecodeRecords(s: Bytes): Option<seq<Record>> {
    if s == [] then Some([])
    else if |s| < 8 then None
    else
      var end := 8 + FromBe16(s[4], s[5]) + s[6];
      if end > |s| then None
      else
        var record := Record(s[1], FromBe16(s[2], s[3]), s[8..8 + FromBe16(s[4], s[5])]);
        match DecodeRecords(s[end..])
        case None => None
        case Some(others) => Some([record] + others)
  }

  lemma WireLayout(f: Frame, rest: Bytes)
    ensures var s := Wire(f) + rest;
            && |Wire(f)| == 8 + |f.record.content| + |f.padding|
            && s[0] == 1 && s[1] == f.record.kind && FromBe16(s[2], s[3]) == f.record.id
            && FromBe16(s[4], s[5]) == |f.record.content| && s[6] == |f.padding|
            && s[8..8 + |f.record.content|] == f.record.content
            && s[|Wire(f)|..] == rest
  {
    var s := Wire(f) + rest;
    assert forall k :: 0 <= k < 8 ==> s[k] == FrameHeader(f)[k];
    assert s == FrameHeader(f) + f.record.content + (f.padding + rest);
  }

  /** The reader takes one sent frame off the front of the stream, whatever its padding. */
  lemma NextOfWire(f: Frame, rest: Bytes)
    requires f.record.id > 0
    ensures NextRecord(Wire(f) + rest) == Got(f.record, |Wire(f)|)
    ensures (Wire(f) + rest)[|Wire(f)|..] == rest
  {
    hide Wire;
    WireLayout(f, rest);
  }

  function RecordsOf(frames: seq<Frame>): seq<Record> {
    if frames == [] then [] else [frames[0].record] + RecordsOf(frames[1..])
  }

  /** Serving the bytes of some frames is running their records, then serving the rest. */
  lemma {:induction false} ServeFrames(b: Backend, max: nat, requests: Requests, frames: seq<Frame>, rest: Bytes)
    requires forall f :: f in frames ==> f.record.id > 0
    ensures var run := Run(b, max, requests, RecordsOf(frames));
            Serve(b, max, requests, WireAll(frames) + rest)
            == if run.end.Open? then Serve(b, max, run.end.requests, rest).After(run.sent) else run
    decreases |frames|
  {
    hide Handle, NextRecord, Wire;
    if frames == [] {
      assert WireAll(frames) + rest == rest;
      var session := Serve(b, max, requests, rest);
      assert [] + session.sent == session.sent;
    } else {
      var later := WireAll(frames[1..]) + rest;
      assert WireAll(frames) + rest == Wire(frames[0]) + later;
      NextOfWire(frames[0], later);
      var records := RecordsOf(frames);
      assert records[0] == frames[0].record && records[1..] == RecordsOf(frames[1..]);
      var step := Handle(b, max, requests, frames[0].record);
      if step.Continue? {
        ServeFrames(b, max, step.requests, frames[1..], rest);
        var run := Run(b, max, step.requests, records[1..]);
        if run.end.Open? {
          var session := Serve(b, max, run.end.requests, rest);
          assert step.sent + (run.sent + session.sent) == step.sent + run.sent + session.sent;
        }
      }
    }
  }

  /** A client decodes exactly the records that were sent. */
  lemma {:induction false} RecordsRoundTrip(records: seq<Record>)
    ensures DecodeRecords(EncodeRecords(records)) == Some(records)
  {
    hide Wire, FromBe16;
    if records != [] {
      var f := Frame(records[0], [], 0);
      var s := EncodeRecords(records);
      WireLayout(f, EncodeRecords(records[1..]));
      RecordsRoundTrip(records[1..]);
      assert s[|Wire(f)|..] == EncodeRecords(records[1..]);
      assert Record(s[1], FromBe16(s[2], s[3]), s[8..8 + FromBe16(s[4], s[5])]) == records[0];
      assert [records[0]] + records[1..] == records;
    }
  }

  lemma {:induction false} EncodeAppend(a: seq<Record>, c: seq<Record>)
    ensures EncodeRecords(a + c) == EncodeRecords(a) + EncodeRecords(c)
  {
    hide EncodeRecord;
    if a == [] {
      assert a + c == c;
    } else {
      EncodeAppend(a[1..], c);
      assert (a + c)[0] == a[0] && (a + c)[1..] == a[1..] + c;
      Assoc(EncodeRecord(a[0]), EncodeRecords(a[1..]), EncodeRecords(c));
    }
  }
}
