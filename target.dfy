/**
 * The mirror target: the `repeater` directive's `host[:port]` string,
 * split into the host name and the port the datagram goes to.
 */
module Target {
  import opened Common
  import opened CStrings

  /** The port used when the target names none. */
  const DEFAULT_PORT: int := 10000

  // ---------------------------------------------------------------------
  // `atoi`, on a string that starts with decimal digits (or none).

  predicate IsDigit(c: char) {
    '0' <= c <= '9'
  }

  predicate AllDigits(s: string) {
    forall k :: 0 <= k < |s| ==> IsDigit(s[k])
  }

  /** The digits a string starts with: where `atoi` stops reading. */
  function LeadingDigits(s: string): (d: string)
    ensures AllDigits(d) && d <= s
    ensures |d| < |s| ==> !IsDigit(s[|d|])
  {
    if s == [] || !IsDigit(s[0]) then [] else [s[0]] + LeadingDigits(s[1..])
  }

  function DecimalValue(d: string): nat
    requires AllDigits(d)
  {
    if d == [] then 0 else 10 * DecimalValue(d[..|d| - 1]) + (d[|d| - 1] as int - '0' as int)
  }

  /**
   * `atoi` of a string with no leading blank or sign and no overflow: the
   * value of the digits it starts with, 0 when it starts with none.
   */
  function Atoi(s: string): (n: nat)
    ensures s == [] || !IsDigit(s[0]) ==> n == 0
  {
    DecimalValue(LeadingDigits(s))
  }

  /** The decimal rendering of a port number. */
  function Decimal(n: nat): (d: string)
    ensures AllDigits(d) && |d| >= 1
  {
    var c := ('0' as int + n % 10) as char;
    if n < 10 then [c] else Decimal(n / 10) + [c]
  }

  lemma {:induction false} DecimalValueOfDecimal(n: nat)
    ensures DecimalValue(Decimal(n)) == n
  {
    var c := ('0' as int + n % 10) as char;
    if n >= 10 {
      DecimalValueOfDecimal(n / 10);
      assert (Decimal(n / 10) + [c])[..|Decimal(n)| - 1] == Decimal(n / 10);
    }
  }

  lemma {:induction false} LeadingDigitsOfDigits(d: string, rest: string)
    requires AllDigits(d)
    requires rest == [] || !IsDigit(rest[0])
    ensures LeadingDigits(d + rest) == d
  {
    if d == [] {
      assert d + rest == rest;
    } else {
      LeadingDigitsOfDigits(d[1..], rest);
      assert (d + rest)[1..] == d[1..] + rest;
    }
  }

  /** `atoi` reads back a rendered port, whatever follows that is not a digit. */
  lemma AtoiOfDecimal(n: nat, rest: string)
    requires rest == [] || !IsDigit(rest[0])
    ensures Atoi(Decimal(n) + rest) == n
  {
    LeadingDigitsOfDigits(Decimal(n), rest);
    DecimalValueOfDecimal(n);
  }

  // ---------------------------------------------------------------------
  // Splitting the target.

  /** The host name: the target up to its first ':'. */
  function HostPart(s: string): string {
    match FirstIndex(s, ':')
    case None => s
    case Some(k) => s[..k]
  }

  /** The port: `atoi` of what follows the first ':', or the default. */
  function TargetPort(s: string): int {
    match FirstIndex(s, ':')
    case None => DEFAULT_PORT
    case Some(k) => Atoi(s[k + 1..])
  }

  /**
   * Copy the target into a zeroed buffer one byte longer, find the first
   * ':' with `strchr`, cut the host name there by writing a NUL over it,
   * and `atoi` the rest for the port. The returned buffer holds the host
   * name as a C string.
   */
  method ParseTarget(repeater: string) returns (host: array<char>, port: int)
    requires NoNul(repeater)
    ensures host.Length == |repeater| + 1
    ensures CString(host[..]) == HostPart(repeater)
    ensures port == TargetPort(repeater)
  {
    port := DEFAULT_PORT;
    host := CopyToZeroed(repeater);
    var pos := StrChr(host, repeater, ':');
    if pos.Some? {
      var k := pos.value;
      assert HostPart(repeater) == repeater[..k] && TargetPort(repeater) == Atoi(repeater[k + 1..]);
      Cut(host, repeater, k);
      port := Atoi(CString(host[k + 1..]));
    } else {
      assert HostPart(repeater) == repeater && TargetPort(repeater) == DEFAULT_PORT;
      HoldsContents(host[..], repeater);
    }
  }

  /**
   * Rendering a host name and port as `host:port` and parsing it gives them
   * back; a host name alone gets the default port.
   */
  lemma TargetRoundTrip(name: string, n: nat)
    requires ':' !in name
    ensures HostPart(name + ":" + Decimal(n)) == name
    ensures TargetPort(name + ":" + Decimal(n)) == n
    ensures HostPart(name) == name && TargetPort(name) == DEFAULT_PORT
  {
    var s := name + ":" + Decimal(n);
    assert s[|name|] == ':' && s[..|name|] == name;
    assert FirstIndex(s, ':') == Some(|name|);
    assert s[|name| + 1..] == Decimal(n) + [];
    AtoiOfDecimal(n, []);
  }

  lemma DecimalExample()
    ensures Decimal(9999) == "9999"
  {
    assert Decimal(9) == "9";
    assert Decimal(99) == "99";
    assert Decimal(999) == "999";
  }

  /** A target with a port, and one without. */
  lemma TargetExamples()
    ensures HostPart("10.0.0.5:9999") == "10.0.0.5" && TargetPort("10.0.0.5:9999") == 9999
    ensures HostPart("10.0.0.5") == "10.0.0.5" && TargetPort("10.0.0.5") == 10000
  {
    var name := "10.0.0.5";
    assert ':' !in name by {
      assert forall k :: 0 <= k < 8 ==> name[k] != ':';
    }
    TargetRoundTrip(name, 9999);
    assert name + ":" + Decimal(9999) == "10.0.0.5:9999" by {
      DecimalExample();
      assert name + ":" + "9999" == "10.0.0.5:9999";
    }
  }

  /** Only the first ':' splits; an empty port is port 0. */
  lemma TargetEdgeCases()
    ensures HostPart("a:1:2") == "a" && TargetPort("a:1:2") == 1
    ensures HostPart("a:") == "a" && TargetPort("a:") == 0
  {
    assert FirstIndex("a:1:2", ':') == Some(1);
    assert "a:1:2"[2..] == Decimal(1) + ":2";
    AtoiOfDecimal(1, ":2");
    assert FirstIndex("a:", ':') == Some(1);
    assert "a:"[2..] == [];
  }
}
