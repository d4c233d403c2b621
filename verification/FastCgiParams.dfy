/** FastCGI name-value pairs: section 3.4 of the FastCGI Specification. */
module FastCgiParams {
  import opened Bytes
  import opened Python
  import opened Wrappers

  const TOP := 0x8000_0000

  /** `_fcgi_length`: one byte below 128, else four with the top bit set. */
  function EncodeLength(n: nat): (r: Bytes)
    requires n < TOP
    ensures |r| == 1 || |r| == 4
  {
    if n < 128 then [n] else Be32(TOP + n)
  }

  predicate Encodable(p: Pair) { |p.0| < TOP && |p.1| < TOP }

  function EncodePair(p: Pair): (r: Bytes)
    requires Encodable(p)
    ensures |r| > 0
  {
    EncodeLength(|p.0|) + EncodeLength(|p.1|) + p.0 + p.1
  }

  function EncodePairs(pairs: seq<Pair>): Bytes
    requires forall p :: p in pairs ==> Encodable(p)
  {
    if pairs == [] then [] else EncodePair(pairs[0]) + EncodePairs(pairs[1..])
  }

  /** `take_length` at offset i: the value and the offset behind it. */
  function LengthAt(s: Bytes, i: nat): (r: Option<(nat, nat)>)
    requires i <= |s|
    ensures r.Some? ==> i < r.value.1 <= |s|
  {
    if i == |s| then None
    else if s[i] < 128 then Some((s[i], i + 1))
    else if |s| - i < 4 then None
    else Some((FromBe32(s[i], s[i + 1], s[i + 2], s[i + 3]) - TOP, i + 4))
  }

  /** The pair at offset i and the offset behind it. */
  function PairAt(s: Bytes, i: nat): (r: Option<(Pair, nat)>)
    requires i <= |s|
    ensures r.Some? ==> i < r.value.1 <= |s|
  {
    var name := LengthAt(s, i);
    if name.None? then None else
    var value := LengthAt(s, name.value.1);
    if value.None? then None else
    var start := value.value.1;
    var mid := start + name.value.0;
    var end := mid + value.value.0;
    if end > |s| then None else Some(((s[start..mid], s[mid..end]), end))
  }

  /** The pairs from offset i on, behind those already done; None is the ValueError. */
  function DecodeFrom(s: Bytes, i: nat, done: seq<Pair>): Option<seq<Pair>>
    requires i <= |s|
    decreases |s| - i
  {
    if i == |s| then Some(done) else
    match PairAt(s, i)
    case None => None
    case Some((pair, next)) => DecodeFrom(s, next, done + [pair])
  }

  /** The pairs of a complete parameter stream. */
  function DecodePairs(s: Bytes): Option<seq<Pair>> { DecodeFrom(s, 0, []) }

  /** Lengths on the wire: a byte below 128 is the length itself, and a length may take
      four bytes with the top bit set, which it has to from 128 on. */
  lemma LengthOnWire(before: Bytes, n: nat, rest: Bytes)
    requires n < 2147483648
    ensures n < 128 ==> LengthAt(before + [n] + rest, |before|) == Some((n, |before| + 1)) && EncodeLength(n) == [n]
    ensures LengthAt(before + Be32(2147483648 + n) + rest, |before|) == Some((n, |before| + 4))
    ensures n >= 128 ==> EncodeLength(n) == Be32(2147483648 + n)
  {
    hide Be32, FromBe32;
    var (w, s) := (Be32(2147483648 + n), before + Be32(2147483648 + n) + rest);
    assert s[|before|] == w[0] && s[|before| + 1] == w[1] && s[|before| + 2] == w[2] && s[|before| + 3] == w[3];
    if n < 128 { assert (before + [n] + rest)[|before|] == n; }
  }

  lemma EncodedLengthAt(before: Bytes, n: nat, rest: Bytes)
    requires n < TOP
    ensures LengthAt(before + EncodeLength(n) + rest, |before|) == Some((n, |before| + |EncodeLength(n)|))
  {
    hide Be32, FromBe32;
    var s := before + EncodeLength(n) + rest;
    assert forall k :: 0 <= k < |EncodeLength(n)| ==> s[|before| + k] == EncodeLength(n)[k];
  }

  lemma EncodedPairAt(before: Bytes, p: Pair, rest: Bytes)
    requires Encodable(p)
    ensures PairAt(before + EncodePair(p) + rest, |before|) == Some((p, |before| + |EncodePair(p)|))
  {
    hide LengthAt, EncodeLength;
    var (name, value) := (EncodeLength(|p.0|), EncodeLength(|p.1|));
    var s := before + EncodePair(p) + rest;
    assert s == before + name + (value + p.0 + p.1 + rest);
    EncodedLengthAt(before, |p.0|, value + p.0 + p.1 + rest);
    assert s == (before + name) + value + (p.0 + p.1 + rest);
    EncodedLengthAt(before + name, |p.1|, p.0 + p.1 + rest);
    assert s == (before + name + value) + p.0 + (p.1 + rest);
    assert s == (before + name + value + p.0) + p.1 + rest;
  }

  lemma {:induction false} EncodedPairsFrom(before: Bytes, pairs: seq<Pair>, done: seq<Pair>)
    requires forall p :: p in pairs ==> Encodable(p)
    ensures DecodeFrom(before + EncodePairs(pairs), |before|, done) == Some(done + pairs)
    decreases |pairs|
  {
    hide PairAt, EncodePair;
    if pairs == [] {
      assert done + pairs == done;
    } else {
      var e := EncodePair(pairs[0]);
      EncodedPairAt(before, pairs[0], EncodePairs(pairs[1..]));
      EncodedPairsFrom(before + e, pairs[1..], done + [pairs[0]]);
      assert before + EncodePairs(pairs) == before + e + EncodePairs(pairs[1..]);
      assert done + [pairs[0]] + pairs[1..] == done + pairs;
    }
  }

  /** Decoding inverts encoding. */
  lemma PairsRoundTrip(pairs: seq<Pair>)
    requires forall p :: p in pairs ==> Encodable(p)
    ensures DecodePairs(EncodePairs(pairs)) == Some(pairs)
  {
    EncodedPairsFrom([], pairs, []);
    assert [] + EncodePairs(pairs) == EncodePairs(pairs);
    assert [] + pairs == pairs;
  }

  lemma CutLength(before: Bytes, n: nat, cut: nat)
    requires n < TOP && cut < |EncodeLength(n)|
    ensures LengthAt(before + EncodeLength(n)[..cut], |before|).None?
  {
    var s := before + EncodeLength(n)[..cut];
    if cut > 0 { assert s[|before|] == EncodeLength(n)[0]; }
  }

  lemma CutPair(before: Bytes, p: Pair, cut: nat)
    requires Encodable(p) && cut < |EncodePair(p)|
    ensures PairAt(before + EncodePair(p)[..cut], |before|).None?
  {
    hide LengthAt, EncodeLength;
    var (name, value) := (EncodeLength(|p.0|), EncodeLength(|p.1|));
    var s := before + EncodePair(p)[..cut];
    if cut < |name| {
      assert EncodePair(p)[..cut] == name[..cut];
      CutLength(before, |p.0|, cut);
    } else {
      var tail := (value + p.0 + p.1)[..cut - |name|];
      assert EncodePair(p)[..cut] == name + tail;
      assert s == before + name + tail;
      EncodedLengthAt(before, |p.0|, tail);
      if |tail| < |value| {
        assert tail == value[..|tail|];
        CutLength(before + name, |p.1|, |tail|);
      } else {
        var content := (p.0 + p.1)[..|tail| - |value|];
        assert tail == value + content;
        assert s == (before + name) + value + content;
        EncodedLengthAt(before + name, |p.1|, content);
      }
    }
  }

  lemma {:induction false} CutPairsFrom(before: Bytes, pairs: seq<Pair>, cut: nat, done: seq<Pair>) returns (k: nat)
    requires forall p :: p in pairs ==> Encodable(p)
    requires cut <= |EncodePairs(pairs)|
    requires DecodeFrom(before + EncodePairs(pairs)[..cut], |before|, done).Some?
    ensures k <= |pairs| && cut == |EncodePairs(pairs[..k])|
    decreases |pairs|
  {
    hide PairAt, EncodePair;
    k := 0;
    if cut > 0 {
      var e := EncodePair(pairs[0]);
      if cut < |e| {
        assert EncodePairs(pairs)[..cut] == e[..cut];
        CutPair(before, pairs[0], cut);
      } else {
        var rest := EncodePairs(pairs[1..])[..cut - |e|];
        assert EncodePairs(pairs)[..cut] == e + rest;
        assert before + (e + rest) == before + e + rest;
        EncodedPairAt(before, pairs[0], rest);
        k := CutPairsFrom(before + e, pairs[1..], cut - |e|, done + [pairs[0]]);
        k := k + 1;
        assert pairs[..k][1..] == pairs[1..][..k - 1];
      }
    }
  }

  lemma {:induction false} EncodePairsSplit(pairs: seq<Pair>, k: nat)
    requires k <= |pairs| && forall p :: p in pairs ==> Encodable(p)
    ensures EncodePairs(pairs) == EncodePairs(pairs[..k]) + EncodePairs(pairs[k..])
  {
    hide EncodePair;
    if k == 0 {
      assert pairs[k..] == pairs;
    } else {
      EncodePairsSplit(pairs[1..], k - 1);
      assert pairs[..k][0] == pairs[0] && pairs[..k][1..] == pairs[1..][..k - 1];
      assert pairs[k..] == pairs[1..][k - 1..];
      Assoc(EncodePair(pairs[0]), EncodePairs(pairs[1..][..k - 1]), EncodePairs(pairs[k..]));
    }
  }

  /** A prefix of an encoding decodes exactly when it ends on a pair boundary,
      and then to the pairs before the boundary. */
  lemma PrefixDecodesOnBoundaries(pairs: seq<Pair>, cut: nat)
    requires forall p :: p in pairs ==> Encodable(p)
    requires cut <= |EncodePairs(pairs)|
    ensures DecodePairs(EncodePairs(pairs)[..cut]).Some? <==>
            exists k :: 0 <= k <= |pairs| && cut == |EncodePairs(pairs[..k])|
    ensures forall k :: 0 <= k <= |pairs| && cut == |EncodePairs(pairs[..k])|
                        ==> DecodePairs(EncodePairs(pairs)[..cut]) == Some(pairs[..k])
  {
    forall k | 0 <= k <= |pairs| && cut == |EncodePairs(pairs[..k])|
      ensures DecodePairs(EncodePairs(pairs)[..cut]) == Some(pairs[..k])
    {
      EncodePairsSplit(pairs, k);
      assert EncodePairs(pairs)[..cut] == EncodePairs(pairs[..k]);
      PairsRoundTrip(pairs[..k]);
    }
    if DecodePairs(EncodePairs(pairs)[..cut]).Some? {
      assert [] + EncodePairs(pairs)[..cut] == EncodePairs(pairs)[..cut];
      var k := CutPairsFrom([], pairs, cut, []);
    }
  }

  lemma AssignedPut(done: seq<Pair>, pair: Pair)
    ensures Assigned(done + [pair]) == Assigned(done).Put(pair.0, pair.1)
  {
    assert (done + [pair])[..|done|] == done;
  }

  /** `_fcgi_params`: the dictionary of the decoded pairs, or the ValueError. */
  method ReadParams(data: Bytes) returns (r: Option<Dict>)
    ensures r == match DecodePairs(data)
                 case None => None
                 case Some(pairs) => Some(Assigned(pairs))
  {
    hide LengthAt;
    var result := EMPTY;
    var offset := 0;
    ghost var done: seq<Pair> := [];
    while offset < |data|
      invariant 0 <= offset <= |data| && result == Assigned(done)
      invariant DecodePairs(data) == DecodeFrom(data, offset, done)
    {
      var name := LengthAt(data, offset);
      if name.None? { return None; }
      var value := LengthAt(data, name.value.1);
      if value.None? { return None; }
      offset := value.value.1;
      var end := offset + name.value.0 + value.value.0;
      if end > |data| { return None; }
      var key := data[offset..offset + name.value.0];
      offset := offset + name.value.0;
      result := result.Put(key, data[offset..end]);
      AssignedPut(done, (key, data[offset..end]));
      done := done + [(key, data[offset..end])];
      offset := end;
    }
    r := Some(result);
  }
}
