/**
 * `ngx_http_repeater_header_filter`: the hook nginx runs before it emits a
 * response's headers. For a main request of a location with a mirror
 * target, it parses the target, serializes the request and sends it as one
 * datagram; in every case but an error it then hands the request to the
 * next header filter and returns what that filter returns.
 */
module Filter {
  import opened Common
  import opened CStrings
  import opened Headers
  import opened Serializer
  import opened Target
  import opened Resolver
  import opened Config

  const NGX_ERROR: int := -1

  /** The parts of `ngx_http_request_t` the filter reads. */
  datatype Request = Request(isMain: bool, requestLine: string, headers: seq<seq<Header>>)

  /** What the filter does with a request. */
  datatype Decision =
    | PassThrough  // straight to the next filter: nothing allocated, nothing sent
    | Fail         // NGX_ERROR, and the next filter is not called
    | Mirror       // one datagram sent, then the next filter

  /**
   * The filter's tests, in its order: a subrequest passes through; a
   * missing location configuration is an error; an empty target passes
   * through; a failed allocation of the host copy or of the buffer is an
   * error.
   */
  function Gate(isMain: bool, confFound: bool, repeaterLen: nat, hostAllocOk: bool, bufAllocOk: bool): (d: Decision)
    ensures d == PassThrough <==> !isMain || (confFound && repeaterLen < 1)
    ensures d == Fail <==> isMain && (!confFound || (repeaterLen >= 1 && !(hostAllocOk && bufAllocOk)))
    ensures d == Mirror <==> isMain && confFound && repeaterLen >= 1 && hostAllocOk && bufAllocOk
  {
    if !isMain then PassThrough
    else if !confFound then Fail
    else if repeaterLen < 1 || !isMain then PassThrough
    else if !hostAllocOk then Fail
    else if !bufAllocOk then Fail
    else Mirror
  }

  /** A pass-through does not depend on how allocations would have turned out. */
  lemma PassThroughIgnoresAllocations(isMain: bool, confFound: bool, repeaterLen: nat,
                                    h1: bool, b1: bool, h2: bool, b2: bool)
    requires Gate(isMain, confFound, repeaterLen, h1, b1) == PassThrough
    ensures Gate(isMain, confFound, repeaterLen, h2, b2) == PassThrough
  {
  }

  function RepeaterLen(conf: Option<LocConf>): nat {
    if conf.Some? && conf.value.repeater.Some? then |conf.value.repeater.value| else 0
  }

  /** The arguments of the one `send_request` call. */
  datatype SendCall = SendCall(host: string, port: int, payload: string, len: nat)

  /**
   * What one run of the filter did: its return value, whether it called
   * the next header filter, whether it asked the pool for memory, and the
   * datagram it handed to `send_request`, if any.
   */
  datatype Outcome = Outcome(rc: int, nextCalled: bool, usedPool: bool, sent: Option<SendCall>)

  predicate RequestWellFormed(r: Request) {
    ListWellFormed(r.headers) && NulFree(r.requestLine, r.headers)
  }

  predicate ConfWellFormed(conf: Option<LocConf>) {
    conf.Some? && conf.value.repeater.Some? ==> NoNul(conf.value.repeater.value)
  }

  /**
   * The header filter. `conf` is what `ngx_http_get_module_loc_conf`
   * returned (None for NULL), `hostAllocOk` and `bufAllocOk` whether the
   * two checked `ngx_pcalloc` calls succeed, `transport` what the socket
   * calls of `send_request` do, `nextRc` what the next header filter returns.
   */
  method HeaderFilter(r: Request, conf: Option<LocConf>, hostAllocOk: bool, bufAllocOk: bool,
                      transport: Transport, nextRc: int) returns (out: Outcome)
    requires RequestWellFormed(r) && ConfWellFormed(conf)
    ensures var d := Gate(r.isMain, conf.Some?, RepeaterLen(conf), hostAllocOk, bufAllocOk);
            out.rc == (if d == Fail then NGX_ERROR else nextRc) &&
            out.nextCalled == (d != Fail) &&
            (out.usedPool <==> r.isMain && conf.Some? && RepeaterLen(conf) >= 1) &&
            (out.sent.Some? <==> d == Mirror)
    ensures out.sent.Some? ==>
              var target := conf.value.repeater.value;
              out.sent.value == SendCall(HostPart(target), TargetPort(target),
                                         AsWrittenPayload(r.requestLine, r.headers),
                                         DeclaredLength(r.requestLine, Flatten(r.headers)))
  {
    if !r.isMain {
      return Outcome(nextRc, true, false, None);
    }
    if conf.None? {
      return Outcome(NGX_ERROR, false, false, None);
    }
    if RepeaterLen(conf) < 1 || !r.isMain {
      return Outcome(nextRc, true, false, None);
    }
    if !hostAllocOk {
      return Outcome(NGX_ERROR, false, true, None);
    }
    var target := conf.value.repeater.value;
    var host, port := ParseTarget(target);

    var length, p := LengthPass(r.requestLine, r.headers);
    if !bufAllocOk {
      return Outcome(NGX_ERROR, false, true, None);
    }
    // The fill pass continues from segment `p`, where the length pass stopped.
    var payload := FillAsWritten(r.requestLine, r.headers, length, p);

    var call := SendCall(CString(host[..]), port, payload, length);
    // The result of send_request is not looked at.
    var sentBytes := SendRequest(Some(call.host), Some(call.payload), length, transport);
    return Outcome(nextRc, true, true, Some(call));
  }

  /**
   * A datagram is always handed over with a non-empty length, so the
   * argument guard of `send_request` never stops a mirrored request.
   */
  lemma MirroredLengthPassesGuard(r: Request, call: SendCall, transport: Transport)
    requires call.len == DeclaredLength(r.requestLine, Flatten(r.headers))
    ensures call.len >= |r.requestLine| + 4
    ensures SendRequest(Some(call.host), Some(call.payload), call.len, transport) ==
            (match transport case Sent(n) => n case _ => 0)
  {
  }
}
