/** The response modes of the backend fixture. Which mode a request selects and
    the fixed bytes of each mode are parameters; the flags and the echo are not. */
module Responses {
  import opened Bytes
  import opened Wrappers

  datatype Mode =
    | Normal | ChunkedTrailers | Continue100 | Hints103 | Interim | EarlyClose | MalformedHeaders
    | TruncatedHeaders | MalformedChunk | TruncatedChunk | RedirectCookie | Upgrade | Partial

  /** `select_mode` and the fixed bytes of a mode, with HTTP or CGI headers. */
  datatype Backend = Backend(select: (Bytes, map<Bytes, Bytes>) -> Mode, page: (Mode, bool) -> Bytes)

  /** What the fixture's tests promise of the fixed bytes. */
  ghost predicate SmallPages(b: Backend) {
    forall mode, http :: 0 < |b.page(mode, http)| < 1024
  }

  datatype ResponsePlan = ResponsePlan(data: Bytes, partial: bool, closeEarly: bool, upgrade: bool)

  const MAX_REQUEST := 1024 * 1024

  predicate ClosesEarly(mode: Mode) {
    mode.EarlyClose? || mode.TruncatedHeaders? || mode.TruncatedChunk?
  }

  /** `response_plan`. */
  function Plan(b: Backend, mode: Mode, http: bool, echo: Bytes): ResponsePlan {
    match mode
    case Partial => ResponsePlan(b.page(Normal, http), true, false, false)
    case Upgrade =>
      ResponsePlan(b.page(Upgrade, http) + echo[..Min(|echo|, MAX_REQUEST)], false, false, true)
    case _ => ResponsePlan(b.page(mode, http), false, ClosesEarly(mode), false)
  }

  /** The bytes are the mode's page, and behind that of an upgrade the first megabyte of
      the echo; a short-writing reply is the normal page. Three modes close early. */
  lemma PlanMeans(b: Backend, mode: Mode, http: bool, echo: Bytes)
    ensures var (plan, page) := (Plan(b, mode, http, echo), b.page(if mode == Partial then Normal else mode, http));
            && (mode != Upgrade ==> plan.data == page)
            && (mode == Upgrade ==> page <= plan.data <= page + echo && |plan.data| == |page| + Min(|echo|, 1048576))
            && (mode == Upgrade && |echo| <= 1048576 ==> plan.data == page + echo)
            && (plan.closeEarly <==> mode in {EarlyClose, TruncatedHeaders, TruncatedChunk})
            && (ClosesEarly(mode) <==> mode in {EarlyClose, TruncatedHeaders, TruncatedChunk})
            && (plan.partial <==> mode == Partial) && (plan.upgrade <==> mode == Upgrade)
  {
    if |echo| <= 1048576 { assert echo[..|echo|] == echo; }
  }
}
