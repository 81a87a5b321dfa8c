# mod_repeater request mirroring, modelled in Dafny

This project models the request-mirroring core of the nginx module
`ngx_http_repeater_filter_module`. That module is a header filter. For every
main request of a location whose `repeater host[:port]` directive is set,
it rebuilds the request line and the request headers, leaving out `Host`,
and sends the text to the target as one UDP datagram. It then passes the
request on to the next header filter.

The model has one Dafny module per component:

- `CStrings`: NUL-terminated strings in a byte buffer. It has `strcat`
  (a scan for the terminating NUL, then a copy), `strchr`, `strncmp`, and
  the zeroed copy made by `ngx_pcalloc` + `memcpy`. Each `char` stands for
  one C byte.
- `Headers`: a header entry and the rule that drops it from the copy.
- `Serializer`: the two passes of the header filter. The length pass is a
  loop that adds up the declared `length`. The fill pass is a loop that
  `strcat`s into an `array<char>` of `length + 1` zero bytes. Both hop from
  one list segment to the next and reset the entry index as they go. Their
  results are tied to the functions `DeclaredLength` and `Message`.
  `Message` has the layout of section 2.1 of RFC 9112: the start line and
  CRLF, one field line and CRLF per kept header, then CRLF.
- `Target`: splits the target string. The string is copied into a zeroed
  buffer and cut at its first `:` by a NUL. The port is `atoi` of the rest,
  or 10000 when there is no `:`.
- `Resolver`: the fallback chain of `get_addr` and the argument guard of
  `send_request`. The results of the C library calls are inputs.
- `Config`: how a location's configuration inherits from the level around it.
- `Filter`: the filter's decision and the whole header filter as one method.

Points where the code's behaviour is easy to misread:

- A header is left out when `strncmp(key, "Host", key.len) == 0`. With no
  NUL in the key, that means the key is a byte-exact prefix of "Host". So
  "", "H", "Ho", "Hos" and "Host" are dropped, whatever the value. "host"
  and "Hostname" are kept. Section 5.1 of RFC 9110 makes field names
  case-insensitive, but the model keeps the code's rule.
- The fill pass does not go back to the first list segment. It only
  writes the last segment's headers, so with more than one segment the
  declared length is larger than what was written (see Findings).
- `get_addr` uses the numeric parse whenever it is not INADDR_NONE. This
  includes 0.0.0.0, because `!a || a != -1` reduces to `a != -1`. It is
  not restricted to non-zero values.

## Model

| member | source | states |
|---|---|---|
| `CStrings.StrCat` | ngx_http_repeater_filter_module.c:180-185 | appending to a zeroed buffer that holds a C string leaves it holding the concatenation, followed only by zeros |
| `CStrings.StrnEqual` | ngx_http_repeater_filter_module.c:141 | `strncmp(a, b, n) == 0`, read byte by byte up to `n` bytes or the first NUL: true over zero bytes and for equal strings, and a true result means the first bytes agree; these clauses are not its full meaning, which `StrnEqualOwnLengthIsPrefix` gives for the own-length bound used here |
| `CStrings.StrnEqualOwnLengthIsPrefix` | ngx_http_repeater_filter_module.c:141 | for NUL-free strings, `strncmp(a, b, strlen(a)) == 0` holds exactly when `a` is a prefix of `b` |
| `CStrings.CopyToZeroed` | ngx_http_repeater_filter_module.c:115-117 | the copy of the target is a fresh buffer one byte longer that holds the target as a C string |
| `CStrings.StrChr` | ngx_http_repeater_filter_module.c:119 | `strchr` returns the index of the first occurrence of the character, or none when it does not occur |
| `CStrings.Cut` | ngx_http_repeater_filter_module.c:120-122 | after the NUL is written over the `:`, the buffer starts with the host name and the port text follows the cut; that one byte is the only one changed |
| `CStrings.CutAt` | ngx_http_repeater_filter_module.c:121-123 | writing NUL over the `:` leaves the text before it as the first C string and the text after it as the C string that follows |
| `Headers.Excluded` | ngx_http_repeater_filter_module.c:140-142 | the skip test both passes apply (lines 140-142 and 168-170): key and value both empty, or `strncmp(key, "Host", key.len) == 0`; an empty key is dropped whatever its value, and so is the key "Host" |
| `Headers.ExcludedIffHostPrefix` | ngx_http_repeater_filter_module.c:140-142 | both skip tests together drop an entry exactly when its key is a prefix of "Host" (the empty key included) |
| `Headers.HostRuleExamples` | ngx_http_repeater_filter_module.c:141-142 | "Host", "Ho" and the empty key are dropped; "host", "Hostname" and an entry with an empty value are kept |
| `Serializer.Retained` | ngx_http_repeater_filter_module.c:140-142 | an entry is among the kept ones exactly when it is in the list and the skip rule does not drop it (membership only; order and count are stated by the two rows below) |
| `Serializer.RetainedAppend` | ngx_http_repeater_filter_module.c:131-146 | filtering a concatenation is the concatenation of the filtered parts, so the kept entries keep list order, duplicates included |
| `Serializer.RetainedCount` | ngx_http_repeater_filter_module.c:140-142 | every entry the rule keeps occurs in the result as often as in the list; a dropped one never occurs |
| `Serializer.RetainedOne` | ngx_http_repeater_filter_module.c:140-142 | a single entry is kept on its own or dropped, as the skip rule decides |
| `Serializer.FieldsAreRetainedLines` | ngx_http_repeater_filter_module.c:168-183 | the fill pass writes one `key: value` CRLF line per kept entry and no other, in list order |
| `Serializer.FieldsLengthIsLength` | ngx_http_repeater_filter_module.c:144-145 | what the length pass counts for a run of entries is exactly the length of the text the fill pass writes for them |
| `Serializer.DeclaredLengthIsMessageLength` | ngx_http_repeater_filter_module.c:126-148 | for the same entries, the declared length equals the length of the written message |
| `Serializer.NoHeaders` | ngx_http_repeater_filter_module.c:126-148 | with no headers the length is the request line's plus 4, and the text is the request line followed by two CRLFs |
| `Serializer.LengthPass` | ngx_http_repeater_filter_module.c:126-148 | the length pass walks every segment and returns the declared length of the whole list; it ends on the last segment |
| `Serializer.FillPass` | ngx_http_repeater_filter_module.c:156-185 | a fill pass that starts at a given segment leaves the buffer holding the message for the entries from that segment on, then zeros |
| `Serializer.FillFields` | ngx_http_repeater_filter_module.c:159-184 | the loop of the fill pass leaves the buffer holding the request line, CRLF and the field lines of every kept entry from segment `p0` on |
| `Serializer.FillStep` | ngx_http_repeater_filter_module.c:161-183 | one turn of the fill loop: at a segment's end it follows `next` and resets the index, then it handles one entry; the text written grows by exactly that entry's field line, or by nothing when the entry is skipped |
| `Serializer.FillEntry` | ngx_http_repeater_filter_module.c:168-183 | a skipped entry writes nothing; a kept one appends its field line, and it fits in the buffer the length pass sized |
| `Serializer.AppendField` | ngx_http_repeater_filter_module.c:180-183 | the four `strcat` calls for one entry append exactly its field line |
| `Serializer.AsWrittenShortfall` | ngx_http_repeater_filter_module.c:159-167 | the text actually written plus the field lines of every segment but the last adds up to the declared length |
| `Serializer.AsWrittenPayload` | ngx_http_repeater_filter_module.c:150-189 | the `length` bytes handed to `send_request`: always exactly the declared length, starting with what the fill pass wrote and NUL after it |
| `Serializer.SingleSegmentExact` | ngx_http_repeater_filter_module.c:126-185 | with one segment, the payload is exactly the wire form of every kept header, and its length is the declared length |
| `Serializer.MultiSegmentPadding` | ngx_http_repeater_filter_module.c:150-167 | with several segments, the payload is the last segment's message followed by as many NUL bytes as the earlier segments' field lines would take |
| `Serializer.AsWrittenBuffer` | ngx_http_repeater_filter_module.c:150-189 | the first `length` bytes of the buffer the filter fills are the as-written payload |
| `Serializer.FillAsWritten` | ngx_http_repeater_filter_module.c:150-189 | the as-written fill from the segment where the length pass stopped, read for `length` bytes, is exactly the as-written payload |
| `Serializer.WorkedExample` | ngx_http_repeater_filter_module.c:126-185 | "GET / HTTP/1.1" with User-Agent x and Host example.com serializes to "GET / HTTP/1.1\r\nUser-Agent: x\r\n\r\n" |
| `Serializer.TwoSegmentShortfall` | ngx_http_repeater_filter_module.c:159-167 | two segments of one header each: the declared length is 46, and the payload holds only the second header, then 13 NUL bytes |
| `Serializer.SerializeCorrected` | ngx_http_repeater_filter_module.c:126-185 | a fill pass that restarts at the first segment writes exactly `length` bytes: the full wire form of the request |
| `Target.ParseTarget` | ngx_http_repeater_filter_module.c:115-124 | the host buffer holds the target up to its first `:`; the port is `atoi` of what follows it, or 10000 without a `:` |
| `Target.Atoi` | ngx_http_repeater_filter_module.c:123 | `atoi` as the value of the decimal digits the text starts with, 0 when it starts with no digit; leading blanks, a sign and `int` overflow are not covered |
| `Target.AtoiOfDecimal` | ngx_http_repeater_filter_module.c:123 | `atoi` reads back a decimal port followed by anything that is not a digit |
| `Target.TargetRoundTrip` | ngx_http_repeater_filter_module.c:119-123 | a colon-free host name joined to a decimal port by `:` splits back into that host and port; a host alone gets port 10000 |
| `Target.TargetExamples` | ngx_http_repeater_filter_module.c:19-124 | "10.0.0.5:9999" gives host "10.0.0.5" and port 9999; "10.0.0.5" gives port 10000 |
| `Target.TargetEdgeCases` | ngx_http_repeater_filter_module.c:119-123 | "a:1:2" gives host "a" and port 1 (only the first `:` splits); "a:" gives port 0 |
| `Resolver.AsInt` | ngx_http_repeater_filter_module.c:239-240 | reading the address as a signed `int` gives -1 exactly for INADDR_NONE and 0 exactly for 0 |
| `Resolver.GetAddr` | ngx_http_repeater_filter_module.c:233-250 | the numeric parse unless it is INADDR_NONE (0 included), else the first looked-up address, else the loopback address |
| `Resolver.GetAddrAlwaysAnswers` | ngx_http_repeater_filter_module.c:239-249 | resolution never fails: the answer is one of the three candidates, and 0.0.0.0 is kept |
| `Resolver.SendRequest` | ngx_http_repeater_filter_module.c:252-283 | 0 for a NULL host or buffer or a zero length; otherwise 0 when `socket` or `bind` fails and exactly what `sendto` returned when it is reached |
| `Config.MergeLocConf` | ngx_http_repeater_filter_module.c:222-231 | the merged `repeater` and `debug` are always set: the child's value, else the parent's, else "" and 0 |
| `Config.EffectiveIsNearest` | ngx_http_repeater_filter_module.c:227-228 | below the outermost level, a location runs with the value of the innermost level that sets each directive, or the default |
| `Config.MergeIdempotent` | ngx_http_repeater_filter_module.c:227-228 | merging a merged configuration again with the same parent changes nothing |
| `Filter.Gate` | ngx_http_repeater_filter_module.c:107-151 | pass-through exactly for a subrequest or an empty target; error exactly for a main request with no configuration or a failed host or buffer allocation; otherwise mirror |
| `Filter.PassThroughIgnoresAllocations` | ngx_http_repeater_filter_module.c:107-113 | the pass-through decision does not depend on how the allocations would turn out |
| `Filter.HeaderFilter` | ngx_http_repeater_filter_module.c:96-192 | returns the next filter's result unless the gate says error; uses the pool only for a main request with a target; sends exactly one datagram when it mirrors, made of the parsed host and port, the as-written payload and the declared length; the `send_request` result never changes the return value |
| `Filter.MirroredLengthPassesGuard` | ngx_http_repeater_filter_module.c:189-191 | the mirrored length is at least the request line's plus 4, so the guard of `send_request` never stops a mirrored request |

## Left out

- Socket creation, `bind`, `sendto` and `close` (lines 259-283) are network I/O. `Resolver.Transport` stands for their outcome. The socket that leaks when `bind` fails is not modelled.
- Resolver.GetAddr: requires a non-NULL lookup result to list at least one address. For a `hostent` with an empty `h_addr_list`, lines 245-246 would dereference NULL; the C library does not return such a result.
- Resolver.GetAddr: `inet_addr` and `gethostbyname` are C library calls. Their results (and `inet_addr("127.0.0.1")`) are inputs, taken as the 32-bit `s_addr` values they return. So byte order is not modelled, and neither is the call of `get_addr` inside `send_request`.
- Target.Atoi: reads only a leading run of decimal digits. The C library's leading blanks, sign and `int` overflow are not modelled, and neither is `htons` truncating the port to 16 bits.
- Serializer.LengthPass: `length` is an unbounded `nat`, so a `size_t` overflow is not modelled.
- Registering the filters (lines 199-208) and the body filter (lines 194-197) are nginx plumbing. The body filter only calls the next one.
- The module, command and context tables (lines 46-90) are left out, and so is `ngx_http_repeater_create_loc_conf` (lines 210-220). An unset `repeater` is encoded as `None` and an unset `debug` as `NGX_CONF_UNSET`, the values `create_loc_conf` leaves.
- The unused context struct (lines 21-30) and the undeclared `dump_request` and `get_str_error` (lines 43-44) are left out.
- `ngx_pcalloc` is modelled as "fails, or returns zeroed memory". Only the two checked calls (`host`, `buf`) can fail in the model.
- The `req`, `key` and `val` copies (lines 153-154, 172-176) always succeed in the model. If they failed, `strcat` would get NULL, which is undefined behaviour. Each copy is modelled by appending the string itself, which is the same for NUL-free text.
- NUL bytes inside the request line, a key, a value or the target would make `strcat`/`strchr` stop early. Preconditions (`NulFree`, `ConfWellFormed`) exclude them.
- A list segment after the first with no entries would make both loops read `header[0]` unchecked. `ListWellFormed` requires every later segment to be non-empty, as nginx's lists are.
- `strncmp` is modelled only as "returns 0 or not"; the sign of its result is never used.
- The `debug` flag is merged but nothing in the filter reads it.
- Filter.HeaderFilter: `send_request` is reached through `Resolver.SendRequest` on its arguments. The `host` argument is the C string in the parsed host buffer.

## Findings

| source | as written | input that shows it | evidently intended | confidence | as-written member | corrected member |
|---|---|---|---|---|---|---|
| ngx_http_repeater_filter_module.c:159-167 | the fill loop does not reset `part`/`header` to the first segment (lines 128-129 do this for the length loop), so it writes only the last segment's headers; `send_request` still gets `length` bytes, whose tail is zeros | request line "GET / HTTP/1.1" with two segments, [Accept: */*] and [User-Agent: x]: `length` is 46 but only "GET / HTTP/1.1\r\nUser-Agent: x\r\n\r\n" (33 bytes) is written, followed by 13 NUL bytes | the fill pass walks the same entries as the length pass, so that exactly `length` bytes of the full wire form are sent | high for requests whose headers span more than one list segment; not executed | `Filter.HeaderFilter` with `Serializer.TwoSegmentShortfall` | `Serializer.SerializeCorrected` |

`Filter.HeaderFilter` keeps the as-written fill pass, because it models what the module actually sends. `Serializer.SerializeCorrected` is the same length pass with a fill pass that starts at segment 0. It is proved to produce exactly `DeclaredLength` bytes of `Message` for every list.
