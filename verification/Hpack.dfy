/** The HPACK printer of the corpus tool, and a decoder for what it prints. */
module Hpack {
  import opened Bytes
  import opened Wrappers

  lemma {:induction false} OrBound(a: nat, b: nat, bits: nat)
    requires a < Power(2, bits) && b < Power(2, bits)
    ensures BitOr(a, b) < Power(2, bits)
  {
    if bits > 0 { OrBound(a / 2, b / 2, bits - 1); }
  }

  lemma {:induction false} PowerMonotone(base: nat, m: nat, n: nat)
    requires base > 0 && m <= n
    ensures Power(base, m) <= Power(base, n)
  {
    if m < n { PowerMonotone(base, m, n - 1); }
  }

  function PrefixMax(bits: nat): (r: byte)
    requires 1 <= bits <= 8
    ensures r == Power(2, bits) - 1
  {
    PowerMonotone(2, bits, 8);
    assert Power(2, 8) == 256 by { EighthPower(); }
    assert Power(2, bits) >= 1;
    Power(2, bits) - 1
  }

  lemma EighthPower()
    ensures Power(2, 8) == 256 && Power(2, 7) == 128 && Power(2, 4) == 16
  {
    assert Power(2, 4) == 2 * Power(2, 3) == 4 * Power(2, 2) == 8 * Power(2, 1);
    assert Power(2, 8) == 2 * Power(2, 7) == 4 * Power(2, 6) == 8 * Power(2, 5) == 16 * Power(2, 4);
  }

  /** The first byte with a prefix or-ed into it. */
  function FirstByte(flags: byte, prefix: byte): (r: byte)
    ensures r == BitOr(flags, prefix)
  {
    EighthPower();
    OrBound(flags, prefix, 8);
    BitOr(flags, prefix)
  }

  /** Base-128 digits, least significant first, all but the last with the top bit. */
  function Continuation(n: nat): Bytes {
    if n < 128 then [n] else [n % 128 + 128] + Continuation(n / 128)
  }

  /** An integer with an N-bit prefix: section 5.1 of RFC 7541. */
  function EncodeInteger(value: nat, bits: nat, flags: byte): Bytes
    requires 1 <= bits <= 8
  {
    var max := PrefixMax(bits);
    if value < max then [FirstByte(flags, value)]
    else [FirstByte(flags, max)] + Continuation(value - max)
  }

  /** `hpack_integer`. */
  method HpackInteger(value: nat, bits: nat, flags: byte) returns (r: Bytes)
    requires 1 <= bits <= 8
    ensures r == EncodeInteger(value, bits, flags)
  {
    hide FirstByte, PrefixMax;
    var max := PrefixMax(bits);
    if value < max { return [FirstByte(flags, value)]; }
    r := [FirstByte(flags, max)];
    var rest: nat := value - max;
    while rest >= 128
      invariant EncodeInteger(value, bits, flags) == r + Continuation(rest)
    {
      Assoc(r, [rest % 128 + 128], Continuation(rest / 128));
      r := r + [rest % 128 + 128];
      rest := rest / 128;
    }
    r := r + [rest];
  }

  /** The decoding loop of section 5.1 of RFC 7541: the value and the bytes read. */
  function DecodeContinuation(s: Bytes): (r: Option<(nat, nat)>)
    ensures r.Some? ==> 0 < r.value.1 <= |s|
  {
    if s == [] then None
    else if s[0] < 128 then Some((s[0], 1))
    else
      match DecodeContinuation(s[1..])
      case None => None
      case Some((n, used)) => Some((s[0] - 128 + 128 * n, used + 1))
  }

  function DecodeInteger(bits: nat, s: Bytes): (r: Option<(nat, nat)>)
    requires 1 <= bits <= 8
    ensures r.Some? ==> 0 < r.value.1 <= |s|
  {
    if s == [] then None
    else
      var prefix := LowBits(s[0], bits);
      if prefix < PrefixMax(bits) then Some((prefix, 1))
      else
        match DecodeContinuation(s[1..])
        case None => None
        case Some((n, used)) => Some((prefix + n, used + 1))
  }

  lemma {:induction false} ContinuationRoundTrip(n: nat, rest: Bytes)
    ensures DecodeContinuation(Continuation(n) + rest) == Some((n, |Continuation(n)|))
  {
    if n >= 128 {
      ContinuationRoundTrip(n / 128, rest);
      assert (Continuation(n) + rest)[1..] == Continuation(n / 128) + rest;
    }
  }

  /** As many digits as base 128 needs. */
  lemma {:induction false} ContinuationLength(n: nat)
    ensures var digits := |Continuation(n)|;
            digits >= 1 && n < Power(128, digits) && (digits == 1 || Power(128, digits - 1) <= n)
  {
    if n >= 128 {
      ContinuationLength(n / 128);
    } else {
      assert Power(128, 1) == 128 * Power(128, 0);
    }
  }

  /** `hpack_integer` is exact: the value comes back, with the bytes that follow
      untouched, and the flag bits survive. */
  lemma IntegerRoundTrip(value: nat, bits: nat, flags: byte, rest: Bytes)
    requires 1 <= bits <= 8 && LowBits(flags, bits) == 0
    ensures var e := EncodeInteger(value, bits, flags);
            && DecodeInteger(bits, e + rest) == Some((value, |e|))
            && (e + rest)[|e|..] == rest
            && HighBits(e[0], bits) == HighBits(flags, bits)
  {
    hide FirstByte, PrefixMax, Power, BitOr, LowBits, HighBits;
    var e := EncodeInteger(value, bits, flags);
    var max := PrefixMax(bits);
    if value < max {
      OrSetsLowBits(flags, value, bits);
    } else {
      OrSetsLowBits(flags, max, bits);
      ContinuationRoundTrip(value - max, rest);
      assert (e + rest)[1..] == Continuation(value - max) + rest;
    }
  }

  /** Its length is one, or one more than the base-128 digits of what the prefix
      cannot hold. */
  lemma IntegerLength(value: nat, bits: nat, flags: byte)
    requires 1 <= bits <= 8
    ensures var (length, max) := (|EncodeInteger(value, bits, flags)|, Power(2, bits) - 1);
            if value < max then length == 1
            else length >= 2 && value - max < Power(128, length - 1)
                 && (length == 2 || Power(128, length - 2) <= value - max)
  {
    hide FirstByte, PrefixMax, Continuation;
    if value >= PrefixMax(bits) { ContinuationLength(value - PrefixMax(bits)); }
  }

  /** No encoding is a proper prefix of another, whatever their flags. */
  lemma PrefixFree(v: nat, w: nat, bits: nat, f: byte, g: byte)
    requires 1 <= bits <= 8 && LowBits(f, bits) == 0 && LowBits(g, bits) == 0
    requires EncodeInteger(v, bits, f) <= EncodeInteger(w, bits, g)
    ensures EncodeInteger(v, bits, f) == EncodeInteger(w, bits, g) && v == w
  {
    hide EncodeInteger, DecodeInteger;
    var (e, d) := (EncodeInteger(v, bits, f), EncodeInteger(w, bits, g));
    IntegerRoundTrip(v, bits, f, d[|e|..]);
    IntegerRoundTrip(w, bits, g, []);
    assert e + d[|e|..] == d == d + [];
  }

  /** The examples of appendix C.1 of RFC 7541: 10 and 1337 with five bits, 42 with eight. */
  lemma Appendix()
    ensures EncodeInteger(10, 5, 0) == [10]
    ensures EncodeInteger(1337, 5, 0) == [31, 154, 10]
    ensures EncodeInteger(42, 8, 0) == [42]
  {
    EighthPower();
    assert Power(2, 5) == 2 * Power(2, 4);
    OrZero(10);
    OrZero(31);
    OrZero(42);
    hide BitOr, Power;
    assert Continuation(10) == [10];
    assert Continuation(1306) == [154] + Continuation(10);
    assert EncodeInteger(1337, 5, 0) == [31] + Continuation(1306);
  }
}
