/**
 * NUL-terminated C strings over a byte buffer. Each `char` of the model
 * stands for one C `char` (one byte); the NUL byte is '\0'.
 */
module CStrings {
  import opened Common

  const NUL: char := '\0'

  /** A byte string with no NUL in it: what `strcat` and `strchr` copy whole. */
  predicate NoNul(s: string) {
    forall k :: 0 <= k < |s| ==> s[k] != NUL
  }

  /** The C string a buffer starts with: its bytes up to the first NUL. */
  function CString(a: seq<char>): (s: string)
    ensures NoNul(s) && s <= a
    ensures |s| < |a| ==> a[|s|] == NUL
  {
    if a == [] || a[0] == NUL then [] else [a[0]] + CString(a[1..])
  }

  /** `n` zero bytes, as `ngx_pcalloc` hands them out. */
  function Zeros(n: nat): (z: string)
    ensures |z| == n && forall k :: 0 <= k < n ==> z[k] == NUL
  {
    if n == 0 then [] else Zeros(n - 1) + [NUL]
  }

  /**
   * The buffer `a` holds the C string `s` and nothing after it: `s`, then
   * zero bytes to the end. A zeroed buffer holds "".
   */
  predicate Holds(a: seq<char>, s: string) {
    |s| < |a| &&
    (forall k :: 0 <= k < |s| ==> a[k] == s[k] && s[k] != NUL) &&
    (forall k :: |s| <= k < |a| ==> a[k] == NUL)
  }

  /** A C string ends exactly at the first NUL. */
  lemma {:induction false} CStringAt(a: seq<char>, n: nat)
    requires n < |a| && a[n] == NUL
    requires forall k :: 0 <= k < n ==> a[k] != NUL
    ensures CString(a) == a[..n]
  {
    if n > 0 {
      CStringAt(a[1..], n - 1);
      assert a[..n] == [a[0]] + a[1..][..n - 1];
    }
  }

  /** A buffer that holds `s` reads back as `s`, followed by zeros only. */
  lemma HoldsContents(a: seq<char>, s: string)
    requires Holds(a, s)
    ensures CString(a) == s
    ensures a == s + Zeros(|a| - |s|)
  {
    CStringAt(a, |s|);
    assert a[..|s|] == s;
    assert a == a[..|s|] + a[|s|..];
    assert a[|s|..] == Zeros(|a| - |s|);
  }

  /**
   * `strcat(buf, s)`: find the terminating NUL of the string already in
   * `buf`, copy `s` there, and terminate it. `text` is the string `buf`
   * holds on entry; the caller keeps room for `s` and its terminator.
   */
  method StrCat(buf: array<char>, ghost text: string, s: string)
    requires Holds(buf[..], text) && NoNul(s)
    requires |text| + |s| < buf.Length
    modifies buf
    ensures Holds(buf[..], text + s)
  {
    var i := 0;
    while buf[i] != NUL
      invariant 0 <= i <= |text|
      decreases |text| - i
    {
      i := i + 1;
    }
    assert i == |text|;
    var j := 0;
    while j < |s|
      invariant 0 <= j <= |s|
      invariant Holds(buf[..], text + s[..j])
    {
      buf[i + j] := s[j];
      j := j + 1;
      assert (text + s[..j])[i + j - 1] == s[j - 1];
    }
    buf[i + j] := NUL;
    assert s[..j] == s;
  }

  /** The byte `strncmp` reads at index `i`: past the end of `s` it sees NUL. */
  function At(s: string, i: nat): char {
    if i < |s| then s[i] else NUL
  }

  /** `strncmp(a + i, b + i, n - i) == 0`, read byte by byte. */
  function StrnEqualFrom(a: string, b: string, i: nat, n: nat): (r: bool)
    ensures a == b ==> r
    ensures r && i < n ==> At(a, i) == At(b, i)
    decreases n - i
  {
    if i >= n then true
    else if At(a, i) != At(b, i) then false
    else if At(a, i) == NUL then true
    else StrnEqualFrom(a, b, i + 1, n)
  }

  /**
   * `strncmp(a, b, n) == 0`: a string compares equal to itself, any two
   * compare equal over zero bytes, and equal ones agree on their first byte.
   * These clauses do not pin the comparison down: its meaning for the bound
   * the filter uses, `n == |a|`, is `StrnEqualOwnLengthIsPrefix`.
   */
  function StrnEqual(a: string, b: string, n: nat): (r: bool)
    ensures n == 0 ==> r
    ensures a == b ==> r
    ensures r && n > 0 ==> At(a, 0) == At(b, 0)
  {
    StrnEqualFrom(a, b, 0, n)
  }

  /** `a` and `b` agree from index `i` to the end of `a`. */
  predicate AgreeFrom(a: string, b: string, i: nat) {
    i >= |a| || (|a| <= |b| && a[i..] == b[i..|a|])
  }

  /** Agreement from `i` on is agreement at `i` and from `i + 1` on. */
  lemma AgreeFromStep(a: string, b: string, i: nat)
    requires i < |a|
    ensures AgreeFrom(a, b, i) <==> i < |b| && a[i] == b[i] && AgreeFrom(a, b, i + 1)
  {
    if |a| <= |b| {
      assert a[i..] == [a[i]] + a[i + 1..];
      assert b[i..|a|] == [b[i]] + b[i + 1..|a|];
      if a[i..] == b[i..|a|] {
        assert a[i..][0] == b[i..|a|][0];
        assert a[i..][1..] == a[i + 1..];
        assert b[i..|a|][1..] == b[i + 1..|a|];
      }
    }
  }

  lemma {:induction false} StrnEqualFromOwnLength(a: string, b: string, i: nat)
    requires NoNul(a) && NoNul(b) && i <= |a|
    ensures StrnEqualFrom(a, b, i, |a|) == AgreeFrom(a, b, i)
    decreases |a| - i
  {
    if i < |a| {
      StrnEqualFromOwnLength(a, b, i + 1);
      AgreeFromStep(a, b, i);
      assert At(a, i) == a[i] != NUL;
      if i < |b| && a[i] == b[i] {
        assert At(b, i) == a[i];
        assert StrnEqualFrom(a, b, i, |a|) == StrnEqualFrom(a, b, i + 1, |a|);
      } else {
        assert At(b, i) != a[i];
        assert !StrnEqualFrom(a, b, i, |a|);
      }
    }
  }

  /**
   * Bounded by the length of its first argument, and with no NUL in either
   * string, `strncmp(a, b, |a|) == 0` holds exactly when `a` is a prefix of `b`.
   */
  lemma StrnEqualOwnLengthIsPrefix(a: string, b: string)
    requires NoNul(a) && NoNul(b)
    ensures StrnEqual(a, b, |a|) <==> a <= b
  {
    StrnEqualFromOwnLength(a, b, 0);
    assert a[0..] == a;
    if |a| <= |b| {
      assert b[0..|a|] == b[..|a|];
    }
  }

  /** Index of the first `c` in `s`, if any. */
  function FirstIndex(s: string, c: char): (r: Option<nat>)
    ensures r.Some? ==> r.value < |s| && s[r.value] == c && c !in s[..r.value]
    ensures r.None? ==> c !in s
  {
    if s == [] then None
    else if s[0] == c then Some(0)
    else match FirstIndex(s[1..], c)
      case None => None
      case Some(k) => assert s[..k + 1] == [s[0]] + s[1..][..k]; Some(k + 1)
  }

  /**
   * `ngx_pcalloc` of `|s| + 1` bytes followed by `memcpy` of `s`: a fresh
   * zeroed buffer holding `s` as a C string.
   */
  method CopyToZeroed(s: string) returns (buf: array<char>)
    requires NoNul(s)
    ensures fresh(buf)
    ensures buf.Length == |s| + 1 && Holds(buf[..], s)
  {
    buf := new char[|s| + 1](_ => NUL);
    var k := 0;
    while k < |s|
      invariant 0 <= k <= |s|
      invariant forall j :: 0 <= j < k ==> buf[j] == s[j]
      invariant forall j :: k <= j < buf.Length ==> buf[j] == NUL
    {
      buf[k] := s[k];
      k := k + 1;
    }
  }

  /** `strchr(buf, c)` for a non-NUL `c`: the index of its first occurrence, or none. */
  method StrChr(buf: array<char>, ghost s: string, c: char) returns (pos: Option<nat>)
    requires Holds(buf[..], s) && c != NUL
    ensures pos == FirstIndex(s, c)
  {
    var i := 0;
    while buf[i] != NUL && buf[i] != c
      invariant 0 <= i <= |s|
      invariant c !in s[..i]
      decreases |s| - i
    {
      assert s[..i + 1] == s[..i] + [s[i]];
      i := i + 1;
    }
    if buf[i] == c {
      pos := Some(i);
    } else {
      assert s[..i] == s;
      pos := None;
    }
  }

  /**
   * Writing NUL over index `k` of a buffer that holds `s` cuts it in two C
   * strings: `s[..k]` at the start and `s[k + 1..]` right after the cut.
   */
  lemma CutAt(a: seq<char>, s: string, k: nat)
    requires Holds(a, s) && k < |s|
    ensures CString(a[k := NUL]) == s[..k]
    ensures CString(a[k := NUL][k + 1..]) == s[k + 1..]
  {
    var b := a[k := NUL];
    CStringAt(b, k);
    assert b[..k] == s[..k];
    CStringAt(b[k + 1..], |s| - k - 1);
    assert b[k + 1..][..|s| - k - 1] == s[k + 1..];
  }

  /**
   * `*pos = '\0'` at index `k` of a buffer that holds `s`: afterwards the
   * buffer starts with the C string `s[..k]`, and `s[k + 1..]` follows the cut.
   */
  method Cut(buf: array<char>, ghost s: string, k: nat)
    requires Holds(buf[..], s) && k < |s|
    modifies buf
    ensures CString(buf[..]) == s[..k]
    ensures CString(buf[k + 1..]) == s[k + 1..]
    ensures buf[..] == old(buf[..])[k := NUL]
  {
    CutAt(buf[..], s, k);
    ghost var before := buf[..];
    buf[k] := NUL;
    assert buf[..] == before[k := NUL];
    assert buf[k + 1..] == before[k := NUL][k + 1..];
  }
}
