/** The Python built-ins the protocol parsers rely on, over latin-1 text held as
    bytes: ordered dictionaries, `int()`, `bytes.split` and `str.lower`. */
module Python {
  import opened Bytes
  import opened Wrappers

  type Pair = (Bytes, Bytes)

  /** A `dict`: iteration follows the first insertion of each key, and assigning
      to a present key keeps its place. */
  datatype Dict = Dict(order: seq<Bytes>, items: map<Bytes, Bytes>) {
    function Put(key: Bytes, value: Bytes): Dict {
      Dict(if key in items then order else order + [key], items[key := value])
    }

    ghost predicate OrdersKeys() {
      && (forall k :: k in order <==> k in items)
      && (forall i, j :: 0 <= i < j < |order| ==> order[i] != order[j])
    }

    function Get(key: Bytes, default: Bytes): Bytes {
      if key in items then items[key] else default
    }
  }

  const EMPTY := Dict([], map[])

  /** The dictionary left by assigning the pairs in turn. */
  function Assigned(pairs: seq<Pair>): Dict {
    if pairs == [] then EMPTY
    else
      var (key, value) := pairs[|pairs| - 1];
      Assigned(pairs[..|pairs| - 1]).Put(key, value)
  }

  predicate LastUnder(pairs: seq<Pair>, i: int, key: Bytes) {
    && 0 <= i < |pairs|
    && pairs[i].0 == key
    && forall j :: i < j < |pairs| ==> pairs[j].0 != key
  }

  /** The dictionary holds exactly the assigned keys, each with the value of its
      last pair. */
  lemma {:induction false} AssignedIsLastWins(pairs: seq<Pair>, key: Bytes)
    ensures key in Assigned(pairs).items ==>
              exists i :: LastUnder(pairs, i, key) && Assigned(pairs).items[key] == pairs[i].1
    ensures key !in Assigned(pairs).items ==> forall i :: 0 <= i < |pairs| ==> pairs[i].0 != key
  {
    if pairs != [] {
      var init := pairs[..|pairs| - 1];
      AssignedIsLastWins(init, key);
      if pairs[|init|].0 == key {
        assert LastUnder(pairs, |init|, key);
      } else if key in Assigned(init).items {
        var i :| LastUnder(init, i, key) && Assigned(init).items[key] == init[i].1;
        assert LastUnder(pairs, i, key);
      } else {
        assert forall i :: 0 <= i < |init| ==> init[i] == pairs[i];
      }
    }
  }

  /** Iteration visits every key of the dictionary exactly once. */
  lemma {:induction false} AssignedOrder(pairs: seq<Pair>)
    ensures Assigned(pairs).OrdersKeys()
  {
    if pairs != [] {
      var before := Assigned(pairs[..|pairs| - 1]);
      AssignedOrder(pairs[..|pairs| - 1]);
      var after := Assigned(pairs);
      assert forall i :: 0 <= i < |before.order| ==> after.order[i] == before.order[i];
      assert forall i :: 0 <= i < |before.order| ==> before.order[i] in before.order;
      var key := pairs[|pairs| - 1].0;
      assert key in after.order by {
        if key !in before.items { assert after.order[|before.order|] == key; }
      }
    }
  }

  const UNDERSCORE: byte := 95
  const DASH: byte := 45
  const PLUS: byte := 43

  predicate IsDigit(c: byte) { 48 <= c <= 57 }

  predicate IsSpace(c: byte) { c == 32 || 9 <= c <= 13 }

  function StripLeft(b: Bytes): Bytes {
    if b != [] && IsSpace(b[0]) then StripLeft(b[1..]) else b
  }

  function Strip(b: Bytes): Bytes
    decreases |b|, 0
  {
    StripRight(StripLeft(b))
  }

  function StripRight(b: Bytes): Bytes {
    if b != [] && IsSpace(b[|b| - 1]) then StripRight(b[..|b| - 1]) else b
  }

  /** Digits with single underscores between them. */
  function Digits(b: Bytes): Option<nat> {
    if b == [] || !IsDigit(b[|b| - 1]) then None
    else if |b| == 1 then Some(b[0] - 48)
    else
      var init := if b[|b| - 2] == UNDERSCORE then b[..|b| - 2] else b[..|b| - 1];
      match Digits(init)
      case None => None
      case Some(v) => Some(10 * v + (b[|b| - 1] - 48))
  }

  /** CPython's default bound on the digits `int()` converts. */
  const MAX_STR_DIGITS := 4300

  function CountDigits(b: Bytes): nat {
    if b == [] then 0 else (if IsDigit(b[0]) then 1 else 0) + CountDigits(b[1..])
  }

  /** `int(b)` for a bytes value; None is the ValueError. */
  function ParseInt(b: Bytes): Option<int> {
    var t := Strip(b);
    var signed := t != [] && (t[0] == DASH || t[0] == PLUS);
    var body := if signed then t[1..] else t;
    match Digits(body)
    case None => None
    case Some(v) =>
      if CountDigits(body) > MAX_STR_DIGITS then None
      else
        var magnitude: int := v;
        Some(if signed && t[0] == DASH then -magnitude else magnitude)
  }

  /** `str(n).encode()`. */
  function Decimal(n: nat): (r: Bytes)
    ensures |r| > 0
    ensures forall i :: 0 <= i < |r| ==> IsDigit(r[i])
  {
    if n < 10 then [48 + n] else Decimal(n / 10) + [48 + n % 10]
  }

  lemma {:induction false} DigitsOfDecimal(n: nat)
    ensures Digits(Decimal(n)) == Some(n)
  {
    if n >= 10 {
      DigitsOfDecimal(n / 10);
      var d := Decimal(n);
      assert d[..|d| - 1] == Decimal(n / 10);
      assert IsDigit(d[|d| - 2]);
    }
  }

  lemma {:induction false} CountOfDigits(b: Bytes)
    requires forall i :: 0 <= i < |b| ==> IsDigit(b[i])
    ensures CountDigits(b) == |b|
  {
    if b != [] { CountOfDigits(b[1..]); }
  }

  lemma ParseIntOfDecimal(n: nat)
    ensures ParseInt(Decimal(n)) == if |Decimal(n)| <= 4300 then Some(n) else None
  {
    var d := Decimal(n);
    assert IsDigit(d[0]) && IsDigit(d[|d| - 1]);
    DigitsOfDecimal(n);
    CountOfDigits(d);
  }

  predicate Blank(b: Bytes) { forall i :: 0 <= i < |b| ==> b[i] == 32 || 9 <= b[i] <= 13 }

  lemma {:induction false} StripLeftOf(left: Bytes, rest: Bytes)
    requires Blank(left)
    ensures StripLeft(left + rest) == StripLeft(rest)
  {
    if left == [] {
      assert left + rest == rest;
    } else {
      StripLeftOf(left[1..], rest);
      assert (left + rest)[1..] == left[1..] + rest;
    }
  }

  lemma {:induction false} StripRightOf(rest: Bytes, right: Bytes)
    requires Blank(right)
    ensures StripRight(rest + right) == StripRight(rest)
  {
    if right == [] {
      assert rest + right == rest;
    } else {
      StripRightOf(rest, right[..|right| - 1]);
      assert (rest + right)[..|rest + right| - 1] == rest + right[..|right| - 1];
    }
  }

  lemma StripPadded(left: Bytes, core: Bytes, right: Bytes)
    requires Blank(left) && Blank(right) && core != [] && !IsSpace(core[0]) && !IsSpace(core[|core| - 1])
    ensures Strip(left + core + right) == core
  {
    assert left + core + right == left + (core + right);
    StripLeftOf(left, core + right);
    assert (core + right)[0] == core[0];
    StripRightOf(core, right);
  }

  lemma ParseStripped(b: Bytes, sign: Bytes, d: Bytes, n: nat)
    requires Strip(b) == sign + d && (sign == [] || sign == [43] || sign == [45])
    requires d != [] && IsDigit(d[0]) && Digits(d) == Some(n) && CountDigits(d) <= 4300
    ensures ParseInt(b).Some? && ParseInt(b).value == if sign == [45] then -(n as int) else n as int
  {
    hide Digits, CountDigits, Strip;
    assert (sign + d)[0] == if sign == [] then d[0] else sign[0];
    assert sign + d == if sign == [] then d else [sign[0]] + d;
    assert sign != [] ==> (sign + d)[1..] == d;
  }

  /** Blanks around it and a sign in front of it do not hide a number. */
  lemma ParseIntPadded(left: Bytes, sign: Bytes, n: nat, right: Bytes)
    requires Blank(left) && Blank(right) && |Decimal(n)| <= 4300
    requires sign == [] || sign == Ascii("+") || sign == Ascii("-")
    ensures var parsed := ParseInt(left + sign + Decimal(n) + right);
            parsed.Some? && parsed.value == if sign == Ascii("-") then -(n as int) else n as int
  {
    assert Ascii("+") == [43] && Ascii("-") == [45];
    var d := Decimal(n);
    DigitsOfDecimal(n);
    CountOfDigits(d);
    assert IsDigit(d[0]) && IsDigit(d[|d| - 1]);
    hide Digits, CountDigits, Decimal, Strip, ParseInt, Ascii;
    assert left + sign + d + right == left + (sign + d) + right;
    assert (sign + d)[0] == if sign == [] then d[0] else sign[0];
    StripPadded(left, sign + d, right);
    ParseStripped(left + sign + d + right, sign, d, n);
  }

  lemma {:induction false} DigitsShape(b: Bytes)
    ensures Digits(b).Some? ==>
              && b != [] && IsDigit(b[|b| - 1])
              && forall i :: 0 <= i < |b| ==> IsDigit(b[i]) || b[i] == UNDERSCORE
  {
    if |b| > 1 { DigitsShape(if b[|b| - 2] == UNDERSCORE then b[..|b| - 2] else b[..|b| - 1]); }
  }

  lemma {:induction false} StripLeftKeeps(b: Bytes)
    ensures forall c :: c in b && !IsSpace(c) ==> c in StripLeft(b)
    ensures forall c :: c in StripLeft(b) ==> c in b
  {
    if b != [] {
      StripLeftKeeps(b[1..]);
      assert b == [b[0]] + b[1..];
    }
  }

  lemma {:induction false} StripRightKeeps(b: Bytes)
    ensures forall c :: c in b && !IsSpace(c) ==> c in StripRight(b)
    ensures forall c :: c in StripRight(b) ==> c in b
  {
    if b != [] {
      StripRightKeeps(b[..|b| - 1]);
      assert b == b[..|b| - 1] + [b[|b| - 1]];
    }
  }

  /** What can stand in a number at all. */
  predicate CanBeNumber(b: Bytes) {
    && (forall c :: c in b ==> '0' as int <= c <= '9' as int || c == 32 || 9 <= c <= 13
                               || c == '+' as int || c == '-' as int || c == '_' as int)
    && exists c :: c in b && '0' as int <= c <= '9' as int
  }

  lemma NoNumber(b: Bytes)
    requires !CanBeNumber(b)
    ensures ParseInt(b).None?
  {
    StripLeftKeeps(b);
    StripRightKeeps(StripLeft(b));
    var t := Strip(b);
    var signed := t != [] && (t[0] == DASH || t[0] == PLUS);
    var body := if signed then t[1..] else t;
    assert t == if signed then [t[0]] + body else body;
    DigitsShape(body);
    if Digits(body).Some? {
      assert body[|body| - 1] in t;
      forall c | c in b && !IsSpace(c) ensures IsDigit(c) || c == UNDERSCORE || c == DASH || c == PLUS {
        assert c in t;
        assert c in body || c == t[0];
      }
    }
  }

  /** Between digits, and only there, a single underscore is passed over. */
  lemma Underscores(n: nat, d: nat)
    requires d < 10
    ensures Digits(Decimal(n) + [95, 48 + d]) == Some(10 * n + d)
    ensures Digits(Decimal(n) + [95, 95, 48 + d]).None? && Digits(Decimal(n) + [95]).None? && Digits([95, 48 + d]).None?
  {
    var m := Decimal(n);
    DigitsOfDecimal(n);
    hide Decimal;
    var one := m + [95, 48 + d];
    assert one[..|one| - 2] == m && one[|one| - 1] == 48 + d && one[|one| - 2] == 95;
    var two := m + [95, 95, 48 + d];
    assert two[..|two| - 2] == m + [95] && two[|two| - 2] == 95;
    assert (m + [95])[|m|] == 95;
    assert [95, 48 + d][..0] == [];
  }

  /** `b.split(sep)` for a one-byte separator. */
  function Split(b: Bytes, sep: byte): (r: seq<Bytes>)
    ensures |r| > 0
  {
    if b == [] then [[]]
    else
      var rest := Split(b[1..], sep);
      if b[0] == sep then [[]] + rest else [[b[0]] + rest[0]] + rest[1..]
  }

  lemma {:induction false} SplitField(field: Bytes, sep: byte, rest: Bytes)
    requires sep !in field
    ensures Split(field + [sep] + rest, sep) == [field] + Split(rest, sep)
  {
    var whole := field + [sep] + rest;
    if field == [] {
      assert whole[1..] == rest;
    } else {
      SplitField(field[1..], sep, rest);
      assert whole[1..] == field[1..] + [sep] + rest;
      assert [field[0]] + field[1..] == field;
    }
  }

  predicate StartsWith(b: Bytes, prefix: Bytes) { prefix <= b }

  /** `str.lower` on latin-1 text. */
  function LowerChar(c: byte): byte {
    if 65 <= c <= 90 || (0xC0 <= c <= 0xDE && c != 0xD7) then c + 32 else c
  }

  /** "HTTP_". */
  const HTTP_PREFIX: Bytes := [72, 84, 84, 80, 95]

  /** `key[5:].lower().replace("_", "-")`. */
  function HeaderName(key: Bytes): Bytes
    requires |key| >= 5
  {
    seq(|key| - 5, i requires 0 <= i < |key| - 5 =>
      if key[i + 5] == UNDERSCORE then DASH else LowerChar(key[i + 5]))
  }

  /** The request headers a gateway passes as HTTP_ variables, in dictionary order. */
  function GatewayHeaders(variables: Dict): map<Bytes, Bytes> {
    HeadersFrom(variables.order, variables.items)
  }

  function HeadersFrom(order: seq<Bytes>, items: map<Bytes, Bytes>): map<Bytes, Bytes> {
    if order == [] then map[]
    else
      var key := order[|order| - 1];
      var before := HeadersFrom(order[..|order| - 1], items);
      if StartsWith(key, HTTP_PREFIX) && key in items then before[HeaderName(key) := items[key]] else before
  }
}
