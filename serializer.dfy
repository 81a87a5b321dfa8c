/**
 * The request serializer of the repeater's header filter: a length pass
 * that sizes the mirror buffer, and a fill pass that `strcat`s the request
 * line and the retained headers into it. The result has the message layout
 * of section 2.1 of RFC 9112: start-line CRLF, field lines each followed by
 * CRLF, then CRLF.
 */
module Serializer {
  import opened CStrings
  import opened Headers

  const CRLF: string := "\r\n"
  const SEP: string := ": "

  /**
   * nginx's header list is a chain of segments; it always has its first
   * segment, and every later segment holds at least one entry (the loops
   * read `header[0]` of a new segment unchecked).
   */
  predicate ListWellFormed(parts: seq<seq<Header>>) {
    |parts| >= 1 && forall k :: 1 <= k < |parts| ==> |parts[k]| > 0
  }

  /** No NUL byte in the request line or in any key or value (`strcat` would stop there). */
  predicate NulFree(line: string, parts: seq<seq<Header>>) {
    NoNul(line) &&
    forall k, j :: 0 <= k < |parts| && 0 <= j < |parts[k]| ==>
      NoNul(parts[k][j].key) && NoNul(parts[k][j].value)
  }

  /** The entries of a chain of segments, in list order. */
  function Flatten(parts: seq<seq<Header>>): seq<Header> {
    if parts == [] then [] else Flatten(parts[..|parts| - 1]) + parts[|parts| - 1]
  }

  // ---------------------------------------------------------------------
  // The length pass: what it adds up.

  /** What the length pass adds for one entry: `key ": " value CRLF`, or nothing. */
  function Cost(h: Header): nat {
    if Excluded(h) then 0 else |h.key| + |SEP| + |h.value| + |CRLF|
  }

  function FieldsLength(hs: seq<Header>): nat {
    if hs == [] then 0 else FieldsLength(hs[..|hs| - 1]) + Cost(hs[|hs| - 1])
  }

  /** The declared `length`: request line, CRLF, the retained headers, CRLF. */
  function DeclaredLength(line: string, hs: seq<Header>): nat {
    |line| + |CRLF| + FieldsLength(hs) + |CRLF|
  }

  // ---------------------------------------------------------------------
  // The fill pass: what it writes.

  function FieldLine(h: Header): string {
    h.key + SEP + h.value + CRLF
  }

  /** The field lines of the retained entries, in list order. */
  function Fields(hs: seq<Header>): string {
    if hs == [] then []
    else Fields(hs[..|hs| - 1]) + (if Excluded(hs[|hs| - 1]) then [] else FieldLine(hs[|hs| - 1]))
  }

  /** The wire form of a request line and a header sequence. */
  function Message(line: string, hs: seq<Header>): string {
    line + CRLF + Fields(hs) + CRLF
  }

  // ---------------------------------------------------------------------
  // An independent reading of the same layout: filter, then join.

  /** The entries neither pass skips, in list order. */
  function Retained(hs: seq<Header>): (rs: seq<Header>)
    ensures forall h :: h in rs <==> h in hs && !Excluded(h)
  {
    if hs == [] then []
    else Retained(hs[..|hs| - 1]) + (if Excluded(hs[|hs| - 1]) then [] else [hs[|hs| - 1]])
  }

  /** A single entry is kept on its own, or dropped. */
  lemma RetainedOne(h: Header)
    ensures Retained([h]) == if Excluded(h) then [] else [h]
  {
    assert [h][..0] == [];
  }

  /**
   * Filtering a concatenation filters each part and keeps them in order:
   * every kept entry appears as often as in the list, in list order.
   */
  lemma {:induction false} RetainedAppend(a: seq<Header>, b: seq<Header>)
    ensures Retained(a + b) == Retained(a) + Retained(b)
  {
    if b == [] {
      assert a + b == a;
    } else {
      var init, h := b[..|b| - 1], b[|b| - 1];
      var kept := if Excluded(h) then [] else [h];
      assert (a + b)[..|a + b| - 1] == a + init;
      assert (a + b)[|a + b| - 1] == h;
      assert Retained(a + b) == Retained(a + init) + kept;
      assert Retained(b) == Retained(init) + kept;
      RetainedAppend(a, init);
    }
  }

  /** How often each entry is kept: as often as it occurs, unless the rule drops it. */
  lemma {:induction false} RetainedCount(hs: seq<Header>, h: Header)
    ensures multiset(Retained(hs))[h] == if Excluded(h) then 0 else multiset(hs)[h]
  {
    if hs != [] {
      var init, last := hs[..|hs| - 1], hs[|hs| - 1];
      RetainedCount(init, h);
      assert hs == init + [last];
    }
  }

  function JoinLines(rs: seq<Header>): string {
    if rs == [] then [] else FieldLine(rs[0]) + JoinLines(rs[1..])
  }

  lemma {:induction false} JoinLinesAppend(a: seq<Header>, b: seq<Header>)
    ensures JoinLines(a + b) == JoinLines(a) + JoinLines(b)
  {
    if a != [] {
      JoinLinesAppend(a[1..], b);
      assert (a + b)[1..] == a[1..] + b;
    } else {
      assert a + b == b;
    }
  }

  /**
   * The fill pass writes the field line of every retained entry, and of no
   * other, in list order; an entry with an empty value still gives `key: CRLF`.
   */
  lemma {:induction false} FieldsAreRetainedLines(hs: seq<Header>)
    ensures Fields(hs) == JoinLines(Retained(hs))
  {
    if hs != [] {
      var init, h := hs[..|hs| - 1], hs[|hs| - 1];
      FieldsAreRetainedLines(init);
      JoinLinesAppend(Retained(init), if Excluded(h) then [] else [h]);
      assert JoinLines([h]) == FieldLine(h) + JoinLines([]);
    }
  }

  // ---------------------------------------------------------------------
  // Lock-step of the two passes.

  lemma FieldsLengthSnoc(hs: seq<Header>, h: Header)
    ensures FieldsLength(hs + [h]) == FieldsLength(hs) + Cost(h)
  {
    assert (hs + [h])[..|hs|] == hs;
  }

  lemma FieldsSnoc(hs: seq<Header>, h: Header)
    ensures Fields(hs + [h]) == Fields(hs) + (if Excluded(h) then [] else FieldLine(h))
  {
    assert (hs + [h])[..|hs|] == hs;
  }

  /** What the fill pass has written once it has visited `hs`: all but the final CRLF. */
  function Unfinished(line: string, hs: seq<Header>): string {
    line + CRLF + Fields(hs)
  }

  lemma UnfinishedSnoc(line: string, hs: seq<Header>, h: Header)
    ensures Unfinished(line, hs + [h]) ==
            Unfinished(line, hs) + (if Excluded(h) then [] else FieldLine(h))
  {
    FieldsSnoc(hs, h);
  }

  /** Each retained entry makes the text exactly as long as the length pass counts it. */
  lemma {:induction false} FieldsLengthIsLength(hs: seq<Header>)
    ensures |Fields(hs)| == FieldsLength(hs)
  {
    if hs != [] {
      FieldsLengthIsLength(hs[..|hs| - 1]);
    }
  }

  /** For the same header sequence, the declared length is the written length. */
  lemma DeclaredLengthIsMessageLength(line: string, hs: seq<Header>)
    ensures |Message(line, hs)| == DeclaredLength(line, hs)
  {
    FieldsLengthIsLength(hs);
  }

  /** With no headers, the buffer is the request line and two CRLFs. */
  lemma NoHeaders(line: string)
    ensures DeclaredLength(line, []) == |line| + 4
    ensures Message(line, []) == line + "\r\n\r\n"
  {
  }

  lemma {:induction false} FlattenAppend(a: seq<seq<Header>>, b: seq<seq<Header>>)
    ensures Flatten(a + b) == Flatten(a) + Flatten(b)
  {
    if b != [] {
      FlattenAppend(a, b[..|b| - 1]);
      assert (a + b)[..|a + b| - 1] == a + b[..|b| - 1];
    } else {
      assert a + b == a;
    }
  }

  lemma {:induction false} FieldsLengthAppend(a: seq<Header>, b: seq<Header>)
    ensures FieldsLength(a + b) == FieldsLength(a) + FieldsLength(b)
  {
    if b != [] {
      FieldsLengthAppend(a, b[..|b| - 1]);
      assert (a + b)[..|a + b| - 1] == a + b[..|b| - 1];
    } else {
      assert a + b == a;
    }
  }

  /** Extending a run of segments by the next one appends its entries. */
  lemma FlattenExtend(parts: seq<seq<Header>>, lo: nat, hi: nat)
    requires lo <= hi < |parts|
    ensures Flatten(parts[lo..hi + 1]) == Flatten(parts[lo..hi]) + parts[hi]
  {
    assert parts[lo..hi + 1][..hi - lo] == parts[lo..hi];
  }

  /**
   * What a pass that started at segment `p0` has visited when it stands at
   * entry `i` of segment `p`, counted in the declared length of the segments
   * from `p0` on, is bounded by it.
   */
  lemma VisitedWithinBudget(parts: seq<seq<Header>>, p0: nat, p: nat, i: nat)
    requires p0 <= p < |parts| && i <= |parts[p]|
    ensures FieldsLength(Flatten(parts[p0..p]) + parts[p][..i]) <= FieldsLength(Flatten(parts[p0..]))
  {
    assert parts[p0..] == parts[p0..p] + [parts[p]] + parts[p + 1..];
    FlattenAppend(parts[p0..p] + [parts[p]], parts[p + 1..]);
    FlattenAppend(parts[p0..p], [parts[p]]);
    assert Flatten([parts[p]]) == Flatten([]) + parts[p];
    assert parts[p] == parts[p][..i] + parts[p][i..];
    var visited := Flatten(parts[p0..p]) + parts[p][..i];
    assert Flatten(parts[p0..]) == visited + (parts[p][i..] + Flatten(parts[p + 1..]));
    FieldsLengthAppend(visited, parts[p][i..] + Flatten(parts[p + 1..]));
  }

  // ---------------------------------------------------------------------
  // Where a pass stands: at entry `i` of segment `p`, having started at `p0`.

  /** The entries a pass that started at segment `p0` has visited. */
  function Visited(parts: seq<seq<Header>>, p0: nat, p: nat, i: nat): seq<Header>
    requires p0 <= p < |parts| && i <= |parts[p]|
  {
    Flatten(parts[p0..p]) + parts[p][..i]
  }

  lemma VisitedStart(parts: seq<seq<Header>>, p0: nat)
    requires p0 < |parts|
    ensures Visited(parts, p0, p0, 0) == []
  {
    assert parts[p0..p0] == [] && parts[p0][..0] == [];
  }

  lemma VisitedStep(parts: seq<seq<Header>>, p0: nat, p: nat, i: nat)
    requires p0 <= p < |parts| && i < |parts[p]|
    ensures Visited(parts, p0, p, i + 1) == Visited(parts, p0, p, i) + [parts[p][i]]
  {
    assert parts[p][..i + 1] == parts[p][..i] + [parts[p][i]];
  }

  /** Following `next` to the following segment and resetting the index loses nothing. */
  lemma VisitedHop(parts: seq<seq<Header>>, p0: nat, p: nat)
    requires p0 <= p < |parts| - 1
    ensures Visited(parts, p0, p + 1, 0) == Visited(parts, p0, p, |parts[p]|)
  {
    FlattenExtend(parts, p0, p);
    assert parts[p][..|parts[p]|] == parts[p];
    assert parts[p + 1][..0] == [];
  }

  /** At the end of the last segment, a pass has visited every entry from `p0` on. */
  lemma VisitedEnd(parts: seq<seq<Header>>, p0: nat, p: nat, i: nat)
    requires p0 <= p == |parts| - 1 && i == |parts[p]|
    ensures Visited(parts, p0, p, i) == Flatten(parts[p0..])
  {
    FlattenExtend(parts, p0, p);
    assert parts[p][..i] == parts[p];
    assert parts[p0..p + 1] == parts[p0..];
  }

  // ---------------------------------------------------------------------
  // The two passes.

  /**
   * The length pass of `ngx_http_repeater_header_filter`: walks every
   * segment of the list, resetting the entry index when it follows `next`,
   * and adds up the declared length. It leaves `p` on the last segment,
   * which is where the fill pass starts.
   */
  method LengthPass(line: string, parts: seq<seq<Header>>) returns (length: nat, p: nat)
    requires ListWellFormed(parts)
    ensures length == DeclaredLength(line, Flatten(parts))
    ensures p == |parts| - 1
  {
    length := |line| + |CRLF|;
    p := 0;
    var i := 0;
    VisitedStart(parts, 0);
    while true
      invariant p < |parts| && i <= |parts[p]|
      invariant length == |line| + |CRLF| + FieldsLength(Visited(parts, 0, p, i))
      decreases |parts| - p, |parts[p]| - i
    {
      if i >= |parts[p]| {
        if p == |parts| - 1 {
          break;
        }
        VisitedHop(parts, 0, p);
        p := p + 1;
        i := 0;
      }
      var h := parts[p][i];
      VisitedStep(parts, 0, p, i);
      FieldsLengthSnoc(Visited(parts, 0, p, i), h);
      if !Excluded(h) {
        length := length + |h.key| + |SEP| + |h.value|;
        length := length + |CRLF|;
      }
      i := i + 1;
    }
    VisitedEnd(parts, 0, p, i);
    assert parts[0..] == parts;
    length := length + |CRLF|;
  }

  /** Appends one field line, `key ": " value CRLF`, with four `strcat` calls. */
  method AppendField(buf: array<char>, ghost text: string, h: Header)
    requires Holds(buf[..], text) && NoNul(h.key) && NoNul(h.value)
    requires |text| + |FieldLine(h)| < buf.Length
    modifies buf
    ensures Holds(buf[..], text + FieldLine(h))
  {
    StrCat(buf, text, h.key);
    StrCat(buf, text + h.key, SEP);
    StrCat(buf, text + h.key + SEP, h.value);
    StrCat(buf, text + h.key + SEP + h.value, CRLF);
    assert text + h.key + SEP + h.value + CRLF == text + FieldLine(h);
  }

  /**
   * One entry of the fill pass: skip it, or append its field line, so that
   * the buffer holds what the pass has written up to and including it.
   */
  method FillEntry(buf: array<char>, line: string, parts: seq<seq<Header>>,
                   p0: nat, p: nat, i: nat, ghost text: string)
    requires NulFree(line, parts) && p0 <= p < |parts| && i < |parts[p]|
    requires text == Unfinished(line, Visited(parts, p0, p, i))
    requires Holds(buf[..], text)
    requires DeclaredLength(line, Flatten(parts[p0..])) < buf.Length
    modifies buf
    ensures Holds(buf[..], Unfinished(line, Visited(parts, p0, p, i + 1)))
  {
    var h := parts[p][i];
    ghost var before := Visited(parts, p0, p, i);
    VisitedStep(parts, p0, p, i);
    UnfinishedSnoc(line, before, h);
    if !Excluded(h) {
      VisitedWithinBudget(parts, p0, p, i + 1);
      FieldsLengthIsLength(before + [h]);
      FieldsLengthIsLength(Flatten(parts[p0..]));
      AppendField(buf, text, h);
    }
  }

  /**
   * One turn of the fill loop: at the end of a segment that is not the
   * last, follow `next` and reset the index; then handle the entry there.
   */
  method FillStep(buf: array<char>, line: string, parts: seq<seq<Header>>, p0: nat, p: nat, i: nat)
    returns (q: nat, j: nat)
    requires ListWellFormed(parts) && NulFree(line, parts)
    requires p0 <= p < |parts| && i <= |parts[p]| && (i < |parts[p]| || p < |parts| - 1)
    requires Holds(buf[..], Unfinished(line, Visited(parts, p0, p, i)))
    requires DeclaredLength(line, Flatten(parts[p0..])) < buf.Length
    modifies buf
    ensures (q == p && j == i + 1 <= |parts[p]|) || (q == p + 1 < |parts| && j == 1 <= |parts[q]|)
    ensures Holds(buf[..], Unfinished(line, Visited(parts, p0, q, j)))
  {
    q, j := p, i;
    if i >= |parts[p]| {
      VisitedHop(parts, p0, p);
      q, j := p + 1, 0;
    }
    FillEntry(buf, line, parts, p0, q, j, Unfinished(line, Visited(parts, p0, q, j)));
    j := j + 1;
  }

  /** Before any entry, the fill pass has written the request line and CRLF. */
  lemma UnfinishedStart(line: string)
    ensures Unfinished(line, []) == line + CRLF
  {
  }

  /** The final CRLF completes the message. */
  lemma UnfinishedFinish(line: string, hs: seq<Header>)
    ensures Unfinished(line, hs) + CRLF == Message(line, hs)
  {
  }

  /**
   * The loop of the fill pass: walks the list from segment `p0` on, with
   * the same skip test and the same segment hop as the length pass, and
   * appends `key ": " value CRLF` for each retained entry.
   */
  method FillFields(buf: array<char>, line: string, parts: seq<seq<Header>>, p0: nat)
    requires ListWellFormed(parts) && NulFree(line, parts) && p0 < |parts|
    requires Holds(buf[..], Unfinished(line, []))
    requires DeclaredLength(line, Flatten(parts[p0..])) < buf.Length
    modifies buf
    ensures Holds(buf[..], Unfinished(line, Flatten(parts[p0..])))
  {
    var p: nat := p0;
    var i: nat := 0;
    VisitedStart(parts, p0);
    while true
      invariant p0 <= p < |parts| && i <= |parts[p]|
      invariant Holds(buf[..], Unfinished(line, Visited(parts, p0, p, i)))
      decreases |parts| - p, |parts[p]| - i
    {
      if i >= |parts[p]| && p == |parts| - 1 {
        break;
      }
      p, i := FillStep(buf, line, parts, p0, p, i);
    }
    VisitedEnd(parts, p0, p, i);
  }

  /**
   * The fill pass: into a zeroed buffer, `strcat` the request line and
   * CRLF, then the field lines of the entries from segment `p0` on, and
   * finish with CRLF.
   */
  method FillPass(buf: array<char>, line: string, parts: seq<seq<Header>>, p0: nat)
    requires ListWellFormed(parts) && NulFree(line, parts) && p0 < |parts|
    requires Holds(buf[..], "")
    requires DeclaredLength(line, Flatten(parts[p0..])) < buf.Length
    modifies buf
    ensures Holds(buf[..], Message(line, Flatten(parts[p0..])))
  {
    ghost var all := Flatten(parts[p0..]);
    FieldsLengthIsLength(all);
    StrCat(buf, "", line);
    assert "" + line == line;
    StrCat(buf, line, CRLF);
    UnfinishedStart(line);
    FillFields(buf, line, parts, p0);
    UnfinishedFinish(line, all);
    StrCat(buf, Unfinished(line, all), CRLF);
  }

  // ---------------------------------------------------------------------
  // What the filter hands to `send_request`.

  /** `Flatten` splits off the last segment, and the run from the last segment on is that segment alone. */
  lemma SplitLast(parts: seq<seq<Header>>)
    requires |parts| >= 1
    ensures Flatten(parts) == Flatten(parts[..|parts| - 1]) + parts[|parts| - 1]
    ensures Flatten(parts[|parts| - 1..]) == parts[|parts| - 1]
  {
    var last := |parts| - 1;
    assert parts[last..] == [parts[last]];
    assert [parts[last]][..0] == [];
  }

  /**
   * As written, the fill pass starts from the segment where the length pass
   * stopped, the last one: it writes the request line, the field lines of
   * the last segment only, and CRLF. The declared length exceeds that by
   * exactly what the earlier segments contribute.
   */
  lemma {:induction false} AsWrittenShortfall(line: string, parts: seq<seq<Header>>)
    requires |parts| >= 1
    ensures |Message(line, parts[|parts| - 1])| + FieldsLength(Flatten(parts[..|parts| - 1]))
            == DeclaredLength(line, Flatten(parts))
  {
    SplitLast(parts);
    FieldsLengthAppend(Flatten(parts[..|parts| - 1]), parts[|parts| - 1]);
    DeclaredLengthIsMessageLength(line, parts[|parts| - 1]);
  }

  /**
   * The `length` bytes `send_request` reads from the buffer: what the fill
   * pass wrote, then the zeros `ngx_pcalloc` left after it. The payload is
   * always the declared length, whatever was written into it.
   */
  function AsWrittenPayload(line: string, parts: seq<seq<Header>>): (payload: string)
    requires |parts| >= 1
    ensures |payload| == DeclaredLength(line, Flatten(parts))
    ensures Message(line, parts[|parts| - 1]) <= payload
    ensures forall k :: |Message(line, parts[|parts| - 1])| <= k < |payload| ==> payload[k] == NUL
  {
    AsWrittenShortfall(line, parts);
    var written := Message(line, parts[|parts| - 1]);
    written + Zeros(DeclaredLength(line, Flatten(parts)) - |written|)
  }

  /**
   * With one segment, the written content is exactly `length` bytes and is
   * the wire form of every retained header: declared and written agree.
   */
  lemma SingleSegmentExact(line: string, parts: seq<seq<Header>>)
    requires |parts| == 1
    ensures AsWrittenPayload(line, parts) == Message(line, Flatten(parts))
    ensures |Message(line, Flatten(parts))| == DeclaredLength(line, Flatten(parts))
  {
    SplitLast(parts);
    assert Flatten(parts[..0]) == [];
    assert Flatten(parts) == parts[0];
    DeclaredLengthIsMessageLength(line, parts[0]);
    assert Zeros(0) == [];
  }

  /**
   * With several segments, the payload is the last segment's message padded
   * with NUL bytes up to `length`: the entries of the earlier segments are
   * missing, and the padding is exactly as long as their field lines.
   */
  lemma MultiSegmentPadding(line: string, parts: seq<seq<Header>>)
    requires |parts| >= 1
    ensures var written := Message(line, parts[|parts| - 1]);
            var missing := FieldsLength(Flatten(parts[..|parts| - 1]));
            |written| <= DeclaredLength(line, Flatten(parts)) &&
            AsWrittenPayload(line, parts) == written + Zeros(missing)
  {
    AsWrittenShortfall(line, parts);
  }

  /** All but the last byte of a buffer that holds `w`: `w`, then zeros. */
  lemma PaddedPrefix(a: seq<char>, w: string)
    requires Holds(a, w)
    ensures a[..|a| - 1] == w + Zeros(|a| - 1 - |w|)
  {
    HoldsContents(a, w);
    var n := |a| - 1 - |w|;
    assert w + Zeros(n + 1) == (w + Zeros(n)) + [NUL];
  }

  /**
   * A buffer of `length + 1` bytes that holds what the as-written fill pass
   * writes (the message of the last segment), read for `length` bytes.
   */
  lemma AsWrittenBuffer(a: seq<char>, line: string, parts: seq<seq<Header>>)
    requires |parts| >= 1
    requires |a| == DeclaredLength(line, Flatten(parts)) + 1
    requires Holds(a, Message(line, parts[|parts| - 1]))
    ensures a[..|a| - 1] == AsWrittenPayload(line, parts)
  {
    AsWrittenShortfall(line, parts);
    PaddedPrefix(a, Message(line, parts[|parts| - 1]));
  }

  /**
   * The rest of the filter after the length pass, as written: a zeroed
   * buffer of `length + 1` bytes, a fill pass that starts at segment `p`,
   * where the length pass stopped, and the `length` bytes handed on.
   */
  method FillAsWritten(line: string, parts: seq<seq<Header>>, length: nat, p: nat) returns (payload: string)
    requires ListWellFormed(parts) && NulFree(line, parts)
    requires length == DeclaredLength(line, Flatten(parts)) && p == |parts| - 1
    ensures payload == AsWrittenPayload(line, parts)
  {
    var buf := new char[length + 1](_ => NUL);
    AsWrittenShortfall(line, parts);
    SplitLast(parts);
    DeclaredLengthIsMessageLength(line, parts[p]);
    FillPass(buf, line, parts, p);
    assert Flatten(parts[p..]) == parts[p];
    AsWrittenBuffer(buf[..], line, parts);
    assert buf[..length] == buf[..][..length];
    payload := buf[..length];
  }

  /** A single retained entry: one field line, counted at its full cost. */
  lemma OneField(h: Header)
    requires !Excluded(h)
    ensures Fields([h]) == FieldLine(h)
    ensures FieldsLength([h]) == |h.key| + 2 + |h.value| + 2
  {
    assert [h][..0] == [];
  }

  /** `User-Agent` is no prefix of "Host": the rule keeps it. */
  lemma UserAgentKept(u: Header)
    requires u.key == "User-Agent"
    ensures !Excluded(u)
  {
    ExcludedIffHostPrefix(u);
    assert u.key[0] != HOST[0];
  }

  /** The message of "GET / HTTP/1.1" with the single field line `User-Agent: x`. */
  lemma UserAgentMessage()
    ensures Message("GET / HTTP/1.1", [Header("User-Agent", "x")])
            == "GET / HTTP/1.1\r\nUser-Agent: x\r\n\r\n"
  {
    var u := Header("User-Agent", "x");
    UserAgentKept(u);
    OneField(u);
  }

  /** A request whose Host header is dropped. */
  lemma WorkedExample()
    ensures Message("GET / HTTP/1.1", [Header("User-Agent", "x"), Header("Host", "example.com")])
            == "GET / HTTP/1.1\r\nUser-Agent: x\r\n\r\n"
  {
    var u, host := Header("User-Agent", "x"), Header("Host", "example.com");
    HostRuleExamples();
    var hs := [u, host];
    assert hs[..1] == [u];
    assert Fields(hs) == Fields([u]);
    UserAgentMessage();
  }

  /** The two one-entry segments of the example below count 13 and 15 bytes. */
  lemma TwoSegmentLength(a: Header, u: Header)
    requires a == Header("Accept", "*/*") && u == Header("User-Agent", "x")
    ensures FieldsLength(Flatten([[a]])) == 13
    ensures DeclaredLength("GET / HTTP/1.1", Flatten([[a], [u]])) == 46
  {
    ExcludedIffHostPrefix(a);
    assert a.key[0] != HOST[0];
    ExcludedIffHostPrefix(u);
    assert u.key[0] != HOST[0];
    OneField(a);
    OneField(u);
    SplitLast([[a], [u]]);
    assert [[a], [u]][..1] == [[a]];
    assert Flatten([[a]]) == [a] by {
      assert [[a]][..0] == [];
    }
    FieldsLengthAppend([a], [u]);
  }

  /**
   * Two segments of one header each: the length pass counts both, the fill
   * pass writes only the second, and NUL bytes stand where the Accept field
   * line (13 bytes) should be.
   */
  lemma TwoSegmentShortfall()
    ensures var line := "GET / HTTP/1.1";
            var parts := [[Header("Accept", "*/*")], [Header("User-Agent", "x")]];
            DeclaredLength(line, Flatten(parts)) == 46 &&
            AsWrittenPayload(line, parts) == "GET / HTTP/1.1\r\nUser-Agent: x\r\n\r\n" + Zeros(13)
  {
    var line := "GET / HTTP/1.1";
    var a, u := Header("Accept", "*/*"), Header("User-Agent", "x");
    var parts := [[a], [u]];
    TwoSegmentLength(a, u);
    MultiSegmentPadding(line, parts);
    assert parts[..1] == [[a]] && parts[1] == [u];
    UserAgentMessage();
  }

  /**
   * The evidently intended serializer: the fill pass restarts at the first
   * segment (as the length pass does), so every segment is written and the
   * buffer holds exactly `length` bytes of the request's wire form.
   */
  method SerializeCorrected(line: string, parts: seq<seq<Header>>) returns (buf: array<char>, length: nat)
    requires ListWellFormed(parts) && NulFree(line, parts)
    ensures length == DeclaredLength(line, Flatten(parts))
    ensures buf.Length == length + 1 && buf[length] == NUL
    ensures buf[..length] == Message(line, Flatten(parts))
  {
    var last;
    length, last := LengthPass(line, parts);
    buf := new char[length + 1](_ => NUL);
    assert parts[0..] == parts;
    FillPass(buf, line, parts, 0);
    DeclaredLengthIsMessageLength(line, Flatten(parts));
    HoldsContents(buf[..], Message(line, Flatten(parts)));
    assert buf[..length] == buf[..][..length];
  }
}
