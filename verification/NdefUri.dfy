/** URI records: the prefix table, the longest match, and the decoder that undoes the abbreviation. */
module NdefUri {
  import opened Bytes
  import opened NdefRecords

  /** NFC Forum RTD URI 1.0, table 3. */
  const PREFIXES: seq<string> := [
    "", "http://www.", "https://www.", "http://", "https://", "tel:", "mailto:", "ftp://anonymous:anonymous@",
    "ftp://ftp.", "ftps://", "sftp://", "smb://", "nfs://", "ftp://", "dav://", "news:", "telnet://", "imap:",
    "rtsp://", "urn:", "pop:", "sip:", "sips:", "tftp:", "btspp://", "btl2cap://", "btgoep://", "tcpobex://",
    "irdaobex://", "file://", "urn:epc:id:", "urn:epc:tag:", "urn:epc:pat:", "urn:epc:raw:", "urn:epc:", "urn:nfc:"]

  const PREFIX_COUNT := 36
  const OUT_MAX := 256
  const SUFFIX_MAX := 254
  const PUNCTUATION := "-._~:/?#[]@!$&'()*+,;=%"
  const PERCENT: u8 := 0x25
  const TNF_WELL_KNOWN: u8 := 1
  const URI_TYPE: seq<u8> := [0x55]

  function Prefix(code: nat): (p: seq<u8>)
    requires code < PREFIX_COUNT
  {
    seq(|PREFIXES[code]|, i requires 0 <= i < |PREFIXES[code]| => PREFIXES[code][i] as int % 0x100)
  }

  predicate HexDigit(b: u8) {
    ('0' as int <= b <= '9' as int) || ('a' as int <= b <= 'f' as int) || ('A' as int <= b <= 'F' as int)
  }

  predicate UrlSafe(b: u8) {
    || ('a' as int <= b <= 'z' as int) || ('A' as int <= b <= 'Z' as int) || ('0' as int <= b <= '9' as int)
    || (b as char) in PUNCTUATION
  }

  /** Byte `i` may stand in a URI: RFC 3986 section 2.1 wants two hex digits behind a percent sign. */
  predicate Allowed(s: seq<u8>, i: nat)
    requires i < |s|
  {
    && s[i] != 0 && UrlSafe(s[i])
    && (s[i] == PERCENT ==> i + 2 < |s| && HexDigit(s[i + 1]) && HexDigit(s[i + 2]))
  }

  /** The safe bytes are the printable ones but for the space and eight others: what RFC 3986 reserves or leaves unreserved. */
  lemma UrlSafeExactlyWhen(b: u8)
    ensures UrlSafe(b) <==> 0x21 <= b <= 0x7E && b !in {0x22, 0x3C, 0x3E, 0x5C, 0x5E, 0x60, 0x7B, 0x7C, 0x7D}
    ensures HexDigit(b) <==> 0x30 <= b <= 0x39 || 0x41 <= b <= 0x46 || 0x61 <= b <= 0x66
  {
    PunctuationIs(b as char);
  }

  /** A percent sign is allowed in front of two hex digits only. */
  lemma PercentNeedsTwoDigits(s: seq<u8>, i: nat)
    requires i < |s|
    ensures Allowed(s, i)
            <==> UrlSafe(s[i]) && (s[i] == 0x25 ==> i + 2 < |s| && HexDigit(s[i + 1]) && HexDigit(s[i + 2]))
  {
    UrlSafeExactlyWhen(s[i]);
    hide UrlSafe, HexDigit;
  }

  lemma PunctuationIs(c: char)
    ensures c in PUNCTUATION
            <==> c == '!' || c == '#' || c == '$' || c == '%' || c == '&' || c == '\'' || c == '(' || c == ')' || c == '*'
                 || c == '+' || c == ',' || c == '-' || c == '.' || c == '/' || c == ':' || c == ';' || c == '=' || c == '?'
                 || c == '@' || c == '[' || c == ']' || c == '_' || c == '~'
  {
    if c in PUNCTUATION {
      var i :| 0 <= i < |PUNCTUATION| && PUNCTUATION[i] == c;
    }
    assert PUNCTUATION[0] == '-' && PUNCTUATION[1] == '.' && PUNCTUATION[2] == '_' && PUNCTUATION[3] == '~';
    assert PUNCTUATION[4] == ':' && PUNCTUATION[5] == '/' && PUNCTUATION[6] == '?' && PUNCTUATION[7] == '#';
    assert PUNCTUATION[8] == '[' && PUNCTUATION[9] == ']' && PUNCTUATION[10] == '@' && PUNCTUATION[11] == '!';
    assert PUNCTUATION[12] == '$' && PUNCTUATION[13] == '&' && PUNCTUATION[14] == '\'' && PUNCTUATION[15] == '(';
    assert PUNCTUATION[16] == ')' && PUNCTUATION[17] == '*' && PUNCTUATION[18] == '+' && PUNCTUATION[19] == ',';
    assert PUNCTUATION[20] == ';' && PUNCTUATION[21] == '=' && PUNCTUATION[22] == '%';
  }

  // ---- Decoding ----

  /** The URI of a payload, if it is one and fits a buffer of `cap` bytes with its terminator. */
  function Decode(payload: seq<u8>, cap: nat): Option<seq<u8>> {
    if cap < 2 || payload == [] || payload[0] >= PREFIX_COUNT then None
    else
      var uri := Prefix(payload[0]) + payload[1..];
      if |uri| >= cap || uri == [] || exists i :: 0 < i < |payload| && !Allowed(payload, i) then None else Some(uri)
  }

  method DecodeUriPayload(payload: seq<u8>, out: array<u8>) returns (ok: bool)
    modifies out
    ensures ok == Decode(payload, out.Length).Some?
    ensures ok ==> var uri := Decode(payload, out.Length).value; out[..|uri|] == uri && out[|uri|] == 0
    ensures !ok && out.Length >= 2 && payload != [] ==> out[0] == 0
  {
    hide Allowed, Prefix;
    if out.Length < 2 || |payload| < 1 {
      return false;
    }
    out[0] := 0;
    if payload[0] >= PREFIX_COUNT {
      return false;
    }
    var prefix := Prefix(payload[0]);
    if |prefix| >= out.Length {
      return false;
    }
    var pos := Put(out, 0, prefix);
    var i := 1;
    while i < |payload|
      invariant 1 <= i <= |payload| && pos == |prefix| + i - 1 < out.Length
      invariant out[..pos] == prefix + payload[1..i]
      invariant forall k :: 0 < k < i ==> Allowed(payload, k)
    {
      if !Allowed(payload, i) || pos + 1 >= out.Length {
        out[0] := 0;
        return false;
      }
      out[pos] := payload[i];
      pos := pos + 1;
      i := i + 1;
    }
    assert payload[1..i] == payload[1..];
    out[pos] := 0;
    return pos != 0;
  }

  // ---- Building ----

  predicate Matches(uri: seq<u8>, code: nat)
    requires code < PREFIX_COUNT
  {
    Prefix(code) <= uri
  }

  /** The code chosen after the table entries below `n` have been tried. */
  function Best(uri: seq<u8>, n: nat): (code: nat)
    requires 1 <= n <= PREFIX_COUNT
    ensures code < n
  {
    if n == 1 then 0
    else
      var best := Best(uri, n - 1);
      if Matches(uri, n - 1) && |Prefix(n - 1)| > |Prefix(best)| then n - 1 else best
  }

  /** The chosen code is that of the longest matching prefix; it is 0 exactly when no non-empty prefix matches. */
  lemma {:induction false} BestIsLongest(uri: seq<u8>, n: nat)
    requires 1 <= n <= PREFIX_COUNT
    ensures Matches(uri, Best(uri, n))
    ensures forall code :: 0 <= code < n && Matches(uri, code) ==> |Prefix(code)| <= |Prefix(Best(uri, n))|
    ensures Best(uri, n) == 0 <==> forall code :: 0 < code < n ==> !Matches(uri, code) || Prefix(code) == []
  {
    hide Prefix, Matches;
    NoPrefix(uri);
    if n > 1 {
      BestIsLongest(uri, n - 1);
    }
  }

  lemma NoPrefix(uri: seq<u8>)
    ensures Prefix(0) == [] && Matches(uri, 0)
  {
    assert |Prefix(0)| == 0;
  }

  function Suffix(uri: seq<u8>): seq<u8> {
    BestIsLongest(uri, PREFIX_COUNT);
    uri[|Prefix(Best(uri, PREFIX_COUNT))|..]
  }

  function UriPayload(uri: seq<u8>): seq<u8> { [Best(uri, PREFIX_COUNT)] + Suffix(uri) }

  /** What a URI must be for a record of it to be built. */
  predicate Encodable(uri: seq<u8>) {
    && uri != [] && |uri| < OUT_MAX && |Suffix(uri)| <= SUFFIX_MAX
    && forall i :: 0 <= i < |Suffix(uri)| ==> Allowed(Suffix(uri), i)
  }

  /** A URI of allowed bytes can be encoded if it has at most 254 of them, or 255 of which some are abbreviated. */
  lemma AllowedUriIsEncodableExactlyWhen(uri: seq<u8>)
    requires forall i :: 0 <= i < |uri| ==> Allowed(uri, i)
    ensures Encodable(uri) <==> 1 <= |uri| <= 254 || (|uri| == 255 && Best(uri, 36) != 0)
  {
    hide Allowed, Best, Prefix, Suffix;
    PrefixThenSuffix(uri);
    var prefix, suffix := Prefix(Best(uri, PREFIX_COUNT)), Suffix(uri);
    PrefixIsEmptyExactlyForZero(Best(uri, PREFIX_COUNT));
    assert suffix == uri[|prefix|..];
    forall i | 0 <= i < |suffix| ensures Allowed(suffix, i) {
      assert Allowed(uri, |prefix| + i);
      AllowedInTheRest(uri, |prefix|, i);
    }
  }

  lemma AllowedInTheRest(uri: seq<u8>, n: nat, i: nat)
    requires n + i < |uri| && Allowed(uri, n + i)
    ensures Allowed(uri[n..], i)
  {
    hide UrlSafe, HexDigit;
  }

  lemma PrefixIsEmptyExactlyForZero(code: nat)
    requires code < PREFIX_COUNT
    ensures |Prefix(code)| == 0 <==> code == 0
  {
  }

  method BuildNdefUriRecord(uri: seq<u8>) returns (record: seq<u8>)
    ensures record == if Encodable(uri) then Encoded(Record(TNF_WELL_KNOWN, URI_TYPE, UriPayload(uri))) else []
  {
    var code: nat := 0;
    var suffix := uri;
    assert Prefix(0) == [] && uri[0..] == uri;
    var i := 1;
    hide Prefix;
    while i < PREFIX_COUNT
      invariant 1 <= i <= PREFIX_COUNT && code == Best(uri, i)
      invariant |Prefix(code)| <= |uri| && suffix == uri[|Prefix(code)|..]
    {
      if Matches(uri, i) && |Prefix(i)| > |Prefix(code)| {
        code := i;
        suffix := uri[|Prefix(i)|..];
      }
      i := i + 1;
    }
    assert suffix == Suffix(uri);
    PayloadDecodes(uri);
    hide Encodable, Decode, Best;
    if |suffix| > SUFFIX_MAX {
      assert !Encodable(uri) by { LongSuffix(uri); }
      return [];
    }
    var payload: seq<u8> := [code] + suffix;
    var probe := new u8[OUT_MAX](_ => 0);
    var ok := DecodeUriPayload(payload, probe);
    if !ok {
      return [];
    }
    record := AppendShortRecord([], TNF_WELL_KNOWN, URI_TYPE, payload).value;
  }

  lemma LongSuffix(uri: seq<u8>)
    requires |Suffix(uri)| > SUFFIX_MAX
    ensures !Encodable(uri)
  {
  }

  /** Decoding the payload of a URI gives the URI back, exactly when the URI is one that a record is built for. */
  lemma PayloadDecodes(uri: seq<u8>)
    ensures |Suffix(uri)| <= SUFFIX_MAX ==>
              Decode(UriPayload(uri), OUT_MAX) == if Encodable(uri) then Some(uri) else None
  {
    hide Best, Prefix, Allowed;
    BestIsLongest(uri, PREFIX_COUNT);
    PrefixThenSuffix(uri);
    var payload, suffix := UriPayload(uri), Suffix(uri);
    assert payload[1..] == suffix;
    forall i | 0 <= i < |suffix| ensures Allowed(payload, i + 1) == Allowed(suffix, i) {
      AllowedBehind(payload[0], suffix, i);
    }
    if exists i :: 0 < i < |payload| && !Allowed(payload, i) {
      var i :| 0 < i < |payload| && !Allowed(payload, i);
      assert !Allowed(suffix, i - 1);
    }
  }

  lemma PrefixThenSuffix(uri: seq<u8>)
    ensures Prefix(Best(uri, PREFIX_COUNT)) + Suffix(uri) == uri
  {
    hide Best, Prefix;
    BestIsLongest(uri, PREFIX_COUNT);
    var prefix := Prefix(Best(uri, PREFIX_COUNT));
    assert uri == uri[..|prefix|] + uri[|prefix|..];
  }

  lemma AllowedBehind(code: u8, suffix: seq<u8>, i: nat)
    requires i < |suffix|
    ensures Allowed([code] + suffix, i + 1) == Allowed(suffix, i)
  {
    hide UrlSafe, HexDigit;
  }

  /** A message built of one URI record is parsed to that record, and its payload decodes to the URI. */
  lemma UriMessageRoundTrip(uri: seq<u8>)
    requires Encodable(uri)
    ensures var r := Record(TNF_WELL_KNOWN, URI_TYPE, UriPayload(uri));
            && r.Short() && Parse(Joined([Encoded(r)], true)) == [r]
            && Decode(r.payload, OUT_MAX) == Some(uri)
  {
    hide Parse, Joined, Decode, Best, Prefix, Allowed, Encoded;
    var r := Record(TNF_WELL_KNOWN, URI_TYPE, UriPayload(uri));
    PayloadDecodes(uri);
    assert AllShort([r]) && Encodings([r]) == [Encoded(r)];
    ParseUndoesBuild([r]);
  }
}
