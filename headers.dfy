/**
 * Request header entries and the rule by which the repeater leaves one out
 * of the mirrored copy.
 */
module Headers {
  import opened CStrings

  /** One entry of nginx's `headers_in.headers` list: a key and a value. */
  datatype Header = Header(key: string, value: string)

  const HOST: string := "Host"

  /**
   * Both passes over the header list skip an entry when its key and value
   * are both empty, or when `strncmp(key, "Host", key.len) == 0`. So an
   * empty key is dropped whatever its value, and so is the key "Host".
   */
  function Excluded(h: Header): (dropped: bool)
    ensures h.key == [] ==> dropped
    ensures h.key == HOST ==> dropped
  {
    (|h.key| < 1 && |h.value| < 1) || StrnEqual(h.key, HOST, |h.key|)
  }

  /**
   * The comparison is byte-exact and bounded by the key's own length, so a
   * header is left out exactly when its key is a prefix of "Host": the
   * empty key, "H", "Ho", "Hos" and "Host" (whatever the value), and no
   * other key. The empty-key-and-value test adds nothing to this.
   */
  lemma ExcludedIffHostPrefix(h: Header)
    requires NoNul(h.key)
    ensures Excluded(h) <==> h.key <= HOST
  {
    assert NoNul(HOST);
    StrnEqualOwnLengthIsPrefix(h.key, HOST);
  }

  /** Keys the rule drops and keys it keeps, as the case-sensitive match decides. */
  lemma HostRuleExamples()
    ensures Excluded(Header("Host", "example.com"))
    ensures Excluded(Header("Ho", "x"))
    ensures Excluded(Header("", "x"))
    ensures !Excluded(Header("host", "example.com"))
    ensures !Excluded(Header("Hostname", "x"))
    ensures !Excluded(Header("User-Agent", ""))
  {
    ExcludedIffHostPrefix(Header("Host", "example.com"));
    ExcludedIffHostPrefix(Header("Ho", "x"));
    ExcludedIffHostPrefix(Header("", "x"));
    ExcludedIffHostPrefix(Header("host", "example.com"));
    ExcludedIffHostPrefix(Header("Hostname", "x"));
    ExcludedIffHostPrefix(Header("User-Agent", ""));
  }
}
