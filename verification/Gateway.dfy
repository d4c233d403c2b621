/** What the CGI variables of a gateway request mean: the request headers and the URI
    they carry, spelled out over the list of variables. */
module Gateway {
  import opened Bytes
  import opened Python
  import opened Wrappers

  // ---------------------------------------------------------------------
  // Names
  // ---------------------------------------------------------------------

  /** A character of a variable's name behind "HTTP_", in the header's name. */
  function HeaderChar(c: byte): byte {
    if c == '_' as int then '-' as int
    else if 'A' as int <= c <= 'Z' as int then c + 32
    else if 0xC0 <= c <= 0xDE && c != 0xD7 then c + 32
    else c
  }

  /** The variable carries the header of this name. */
  predicate Becomes(variable: Bytes, header: Bytes) {
    && |variable| == 5 + |header| && Ascii("HTTP_") <= variable
    && forall i :: 0 <= i < |header| ==> header[i] == HeaderChar(variable[5 + i])
  }

  predicate IsHeaderName(h: Bytes) {
    forall i :: 0 <= i < |h| ==>
      'a' as int <= h[i] <= 'z' as int || '0' as int <= h[i] <= '9' as int || h[i] == '-' as int
  }

  /** How a gateway names the variable of a header: upper case, with underscores. */
  function VariableChar(c: byte): byte {
    if c == '-' as int then '_' as int else if 'a' as int <= c <= 'z' as int then c - 32 else c
  }

  function Variable(h: Bytes): Bytes {
    Ascii("HTTP_") + seq(|h|, i requires 0 <= i < |h| => VariableChar(h[i]))
  }

  /** The fixture gives every header back the name it had before the gateway. */
  lemma NameRoundTrip(h: Bytes)
    requires IsHeaderName(h)
    ensures StartsWith(Variable(h), HTTP_PREFIX) && HeaderName(Variable(h)) == h && Becomes(Variable(h), h)
  {
    assert Ascii("HTTP_") == HTTP_PREFIX;
    assert forall i :: 0 <= i < |h| ==> Variable(h)[5 + i] == VariableChar(h[i]);
  }

  /** The fixture's own reading of names is this one. */
  lemma NameMeans(variable: Bytes, h: Bytes)
    ensures Becomes(variable, h) <==> StartsWith(variable, HTTP_PREFIX) && HeaderName(variable) == h
  {
    assert Ascii("HTTP_") == HTTP_PREFIX;
  }

  // ---------------------------------------------------------------------
  // Variables
  // ---------------------------------------------------------------------

  /** Pair f is the first of its name. */
  predicate Introduces(pairs: seq<Pair>, f: int) {
    0 <= f < |pairs| && forall j :: 0 <= j < f ==> pairs[j].0 != pairs[f].0
  }

  /** The variable of pair f is the last to be introduced of those that carry h. */
  ghost predicate Decides(pairs: seq<Pair>, h: Bytes, f: int) {
    && Introduces(pairs, f) && Becomes(pairs[f].0, h)
    && forall g :: f < g < |pairs| && Introduces(pairs, g) ==> !Becomes(pairs[g].0, h)
  }

  /** The value of a header: the last one of the variable that decides. */
  ghost predicate Carries(pairs: seq<Pair>, h: Bytes, value: Bytes) {
    exists f, i :: Decides(pairs, h, f) && LastUnder(pairs, i, pairs[f].0) && value == pairs[i].1
  }

  /** The headers a list of variables carries. */
  ghost predicate MeansHeaders(pairs: seq<Pair>, headers: map<Bytes, Bytes>) {
    forall h ::
      && (h in headers <==> exists i :: 0 <= i < |pairs| && Becomes(pairs[i].0, h))
      && (h in headers ==> Carries(pairs, h, headers[h]))
  }

  /** The value of a variable, or what stands for it when it is missing. */
  ghost predicate MeansValue(pairs: seq<Pair>, name: Bytes, missing: Bytes, value: Bytes) {
    if exists i :: 0 <= i < |pairs| && pairs[i].0 == name then
      exists i :: LastUnder(pairs, i, name) && value == pairs[i].1
    else value == missing
  }

  lemma ValueMeans(pairs: seq<Pair>, name: Bytes, missing: Bytes, value: Bytes)
    requires MeansValue(pairs, name, missing, value)
    ensures Assigned(pairs).Get(name, missing) == value
  {
    AssignedIsLastWins(pairs, name);
    NamedIfAssigned(pairs, name);
    if name in Assigned(pairs).items {
      var i :| LastUnder(pairs, i, name) && Assigned(pairs).items[name] == pairs[i].1;
      var j :| LastUnder(pairs, j, name) && value == pairs[j].1;
      assert i == j;
    }
  }

  lemma {:induction false} NamedIfAssigned(pairs: seq<Pair>, name: Bytes)
    ensures name in Assigned(pairs).items <==> exists i :: 0 <= i < |pairs| && pairs[i].0 == name
  {
    AssignedIsLastWins(pairs, name);
  }

  /** The positions at which the variables are introduced, in order. */
  function Introduced(pairs: seq<Pair>): seq<nat> {
    if pairs == [] then []
    else
      var n := |pairs| - 1;
      Introduced(pairs[..n]) + if Introduces(pairs, n) then [n] else []
  }

  lemma NewlyIntroduced(pairs: seq<Pair>)
    requires pairs != []
    ensures var n := |pairs| - 1;
            Introduces(pairs, n) <==> pairs[n].0 !in Assigned(pairs[..n]).items
  {
    var n := |pairs| - 1;
    NamedIfAssigned(pairs[..n], pairs[n].0);
    hide Assigned;
    assert forall j :: 0 <= j < n ==> pairs[..n][j] == pairs[j];
  }

  /** A dictionary keeps its keys in the order in which they were introduced. */
  lemma {:induction false} OrderIsIntroduction(pairs: seq<Pair>)
    ensures var (order, at) := (Assigned(pairs).order, Introduced(pairs));
            && |order| == |at|
            && (forall k :: 0 <= k < |at| ==> Introduces(pairs, at[k]) && order[k] == pairs[at[k]].0)
            && (forall j, k :: 0 <= j < k < |at| ==> at[j] < at[k])
            && (forall f :: Introduces(pairs, f) ==> exists k :: 0 <= k < |at| && at[k] == f)
  {
    if pairs != [] {
      var n := |pairs| - 1;
      var before := pairs[..n];
      OrderIsIntroduction(before);
      NewlyIntroduced(pairs);
      forall f ensures f < n ==> (Introduces(pairs, f) <==> Introduces(before, f)) {}
      var (at, now) := (Introduced(before), Introduced(pairs));
      assert Assigned(pairs).order
          == if Introduces(pairs, n) then Assigned(before).order + [pairs[n].0] else Assigned(before).order;
      hide Assigned;
      forall f | Introduces(pairs, f) ensures exists k :: 0 <= k < |now| && now[k] == f {
        if f < n {
          var k :| 0 <= k < |at| && at[k] == f;
          assert now[k] == f;
        } else {
          assert now[|at|] == f;
        }
      }
    }
  }

  /** The last key in the order that carries a header gives its value. */
  lemma {:induction false} LastKeyDecides(order: seq<Bytes>, items: map<Bytes, Bytes>, h: Bytes)
    requires forall k :: 0 <= k < |order| ==> order[k] in items
    ensures var headers := HeadersFrom(order, items);
            && (h in headers <==> exists k :: 0 <= k < |order| && Becomes(order[k], h))
            && (h in headers ==> exists k :: 0 <= k < |order| && Becomes(order[k], h) && headers[h] == items[order[k]]
                                             && forall j :: k < j < |order| ==> !Becomes(order[j], h))
  {
    hide Becomes, HeaderName;
    if order != [] {
      var n := |order| - 1;
      LastKeyDecides(order[..n], items, h);
      NameMeans(order[n], h);
    }
  }

  /** The fixture's headers are the ones the variables carry. */
  lemma GatewayMeans(pairs: seq<Pair>)
    ensures MeansHeaders(pairs, GatewayHeaders(Assigned(pairs)))
  {
    forall h ensures var headers := GatewayHeaders(Assigned(pairs));
                     && (h in headers <==> exists i :: 0 <= i < |pairs| && Becomes(pairs[i].0, h))
                     && (h in headers ==> Carries(pairs, h, headers[h])) {
      HeaderMeans(pairs, h);
    }
  }

  lemma {:induction false} FirstOfName(pairs: seq<Pair>, i: nat) returns (f: nat)
    requires i < |pairs|
    ensures f <= i && Introduces(pairs, f) && pairs[f].0 == pairs[i].0
  {
    if j :| 0 <= j < i && pairs[j].0 == pairs[i].0 {
      f := FirstOfName(pairs, j);
    } else {
      f := i;
    }
  }

  lemma KeyDecides(pairs: seq<Pair>, h: Bytes, k: nat)
    requires var order := Assigned(pairs).order;
             k < |order| && Becomes(order[k], h) && forall j :: k < j < |order| ==> !Becomes(order[j], h)
    ensures var (order, items) := (Assigned(pairs).order, Assigned(pairs).items);
            order[k] in items && Carries(pairs, h, items[order[k]])
  {
    var (order, items, at) := (Assigned(pairs).order, Assigned(pairs).items, Introduced(pairs));
    AssignedOrder(pairs);
    OrderIsIntroduction(pairs);
    hide Becomes, Introduced, Assigned;
    assert order[k] in order;
    var f := at[k];
    forall g | f < g < |pairs| && Introduces(pairs, g) ensures !Becomes(pairs[g].0, h) {
      var j :| 0 <= j < |at| && at[j] == g;
      assert j > k;
    }
    assert Decides(pairs, h, f);
    AssignedIsLastWins(pairs, order[k]);
    var i :| LastUnder(pairs, i, order[k]) && items[order[k]] == pairs[i].1;
  }

  lemma KeyIffVariable(pairs: seq<Pair>, h: Bytes)
    ensures var order := Assigned(pairs).order;
            (exists k :: 0 <= k < |order| && Becomes(order[k], h))
            <==> exists i :: 0 <= i < |pairs| && Becomes(pairs[i].0, h)
  {
    var (order, at) := (Assigned(pairs).order, Introduced(pairs));
    OrderIsIntroduction(pairs);
    hide Becomes, Introduced, Assigned;
    if i :| 0 <= i < |pairs| && Becomes(pairs[i].0, h) {
      var f := FirstOfName(pairs, i);
      var k :| 0 <= k < |at| && at[k] == f;
      assert Becomes(order[k], h);
    }
    if k :| 0 <= k < |order| && Becomes(order[k], h) {
      assert Becomes(pairs[at[k]].0, h);
    }
  }

  lemma HeaderMeans(pairs: seq<Pair>, h: Bytes)
    ensures var headers := GatewayHeaders(Assigned(pairs));
            && (h in headers <==> exists i :: 0 <= i < |pairs| && Becomes(pairs[i].0, h))
            && (h in headers ==> Carries(pairs, h, headers[h]))
  {
    var (order, items) := (Assigned(pairs).order, Assigned(pairs).items);
    AssignedOrder(pairs);
    hide Becomes, Assigned, HeadersFrom, Carries;
    assert forall k :: 0 <= k < |order| ==> order[k] in order;
    LastKeyDecides(order, items, h);
    KeyIffVariable(pairs, h);
    if h in HeadersFrom(order, items) {
      var k :| 0 <= k < |order| && Becomes(order[k], h) && HeadersFrom(order, items)[h] == items[order[k]]
               && forall j :: k < j < |order| ==> !Becomes(order[j], h);
      KeyDecides(pairs, h, k);
    }
  }

  lemma CarriesOne(pairs: seq<Pair>, h: Bytes, v: Bytes, w: Bytes)
    requires Carries(pairs, h, v) && Carries(pairs, h, w)
    ensures v == w
  {
    var f, i :| Decides(pairs, h, f) && LastUnder(pairs, i, pairs[f].0) && v == pairs[i].1;
    var g, j :| Decides(pairs, h, g) && LastUnder(pairs, j, pairs[g].0) && w == pairs[j].1;
    assert f == g;
    assert i == j;
  }

  /** And only they. */
  lemma HeadersMeanOne(pairs: seq<Pair>, headers: map<Bytes, Bytes>)
    requires MeansHeaders(pairs, headers)
    ensures GatewayHeaders(Assigned(pairs)) == headers
  {
    GatewayMeans(pairs);
    var own := GatewayHeaders(Assigned(pairs));
    hide Carries, Becomes, GatewayHeaders, Assigned;
    forall h | h in headers ensures h in own && own[h] == headers[h] {
      assert h in own;
      CarriesOne(pairs, h, own[h], headers[h]);
    }
    forall h | h in own ensures h in headers {}
  }
}
