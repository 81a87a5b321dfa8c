/**
 * The address side of `send_request`: the `get_addr` fallback chain and
 * the argument guard in front of the socket calls. The results of
 * `inet_addr`, `gethostbyname`, `socket`, `bind` and `sendto` are inputs.
 */
module Resolver {
  import opened Common

  /** What `inet_addr` returns for a string that is not a dotted address. */
  const INADDR_NONE: uint32 := 0xFFFF_FFFF

  /** `int a = inet_addr(host)`: the 32-bit value read as a two's-complement `int`. */
  function AsInt(x: uint32): (a: int)
    ensures -0x8000_0000 <= a < 0x8000_0000
    ensures a == -1 <==> x == INADDR_NONE
    ensures a == 0 <==> x == 0
  {
    if x < 0x8000_0000 then x else x - 0x1_0000_0000
  }

  /** Returning an `int` from a function declared `uint32_t`: the value modulo 2^32. */
  function AsUint32(a: int): uint32 {
    a % 0x1_0000_0000
  }

  /**
   * `get_addr`: the numeric parse of the host when it is not INADDR_NONE
   * (the extra `!a` test lets 0.0.0.0 through, as any value but -1 is), else
   * the first address of the name lookup, else the loopback address.
   * `numeric` is `inet_addr(host)`, `lookup` the address list of
   * `gethostbyname(host)` (None for a NULL result), `loopback` is
   * `inet_addr("127.0.0.1")`.
   */
  function GetAddr(numeric: uint32, lookup: Option<seq<uint32>>, loopback: uint32): (r: uint32)
    requires lookup.Some? ==> |lookup.value| > 0
    ensures numeric != INADDR_NONE ==> r == numeric
    ensures numeric == INADDR_NONE && lookup.Some? ==> r == lookup.value[0]
    ensures numeric == INADDR_NONE && lookup.None? ==> r == loopback
  {
    var a := AsInt(numeric);
    if a == 0 || a != -1 then AsUint32(a)
    else match lookup
      case Some(addrs) => addrs[0]
      case None => loopback
  }

  /** Resolution never fails: every answer is one of the three candidates, tried in order. */
  lemma GetAddrAlwaysAnswers(numeric: uint32, lookup: Option<seq<uint32>>, loopback: uint32)
    requires lookup.Some? ==> |lookup.value| > 0
    ensures var r := GetAddr(numeric, lookup, loopback);
            r == numeric || (lookup.Some? && r == lookup.value[0]) || r == loopback
    ensures numeric == 0 ==> GetAddr(numeric, lookup, loopback) == 0
  {
  }

  /** What the socket calls of `send_request` come to. */
  datatype Transport = SocketFailed | BindFailed | Sent(bytes: int)

  /**
   * `send_request`: 0 without touching a socket when the host or buffer is
   * NULL or the length is 0; 0 when `socket` or `bind` fails; otherwise
   * what `sendto` returned.
   */
  function SendRequest(host: Option<string>, buf: Option<seq<char>>, len: nat, transport: Transport): (r: int)
    ensures host.None? || buf.None? || len == 0 ==> r == 0
    ensures r != 0 ==> host.Some? && buf.Some? && len > 0 && transport == Sent(r)
    ensures host.Some? && buf.Some? && len > 0 ==> r == (if transport.Sent? then transport.bytes else 0)
  {
    if host.None? || buf.None? || len == 0 then 0
    else match transport
      case SocketFailed => 0
      case BindFailed => 0
      case Sent(bytes) => bytes
  }
}
