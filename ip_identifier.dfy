/**
 * IP identifiers: the type is fixed to "ip" and the value is the platform's
 * textual form of a parsed address. The platform's parser and formatter are
 * collaborators of this model, passed in as `parseIp` (text to address, or
 * nothing when the text does not resolve) and `formatIp` (address to text);
 * `A` is the platform's address type.
 */
module IpIdentifiers {
  import opened Errors
  import opened Identifiers

  /** An identifier whose type is "ip". */
  type IpIdentifier = id: Identifier | id.typ == TYPE_IP witness Identifier(TYPE_IP, "")

  /** Builds an IP identifier from an address: the value is the formatter's text for it. */
  function IpFromAddress<A>(formatIp: A -> string, ip: A): (r: IpIdentifier)
    ensures r.typ == TYPE_IP && r.value == formatIp(ip)
  {
    NewIdentifier(Some(TYPE_IP), Some(formatIp(ip))).value
  }

  /**
   * Builds an IP identifier from text: the text is parsed, and the parsed
   * address is handed to `IpFromAddress`; unparseable text is a host
   * resolution failure.
   */
  function IpFromText<A>(parseIp: string -> Option<A>, formatIp: A -> string, text: string): (r: Result<IpIdentifier>)
    ensures parseIp(text).None? ==> r == Err(HostResolution(text))
    ensures parseIp(text).Some? ==> r == Ok(IpFromAddress(formatIp, parseIp(text).value))
  {
    match parseIp(text)
    case None => Err(HostResolution(text))
    case Some(ip) => Ok(IpFromAddress(formatIp, ip))
  }

  /**
   * Builds an IP identifier from a document. The value field is read and
   * parsed first; only then is the type field read and required to be "ip",
   * a different type being reported as a protocol mismatch.
   */
  function IpFromDocument<A>(parseIp: string -> Option<A>, formatIp: A -> string, doc: Document): (r: Result<IpIdentifier>)
    ensures KEY_VALUE !in doc ==> r == Err(ProtocolEncoding(KEY_VALUE))
    ensures KEY_VALUE in doc && parseIp(doc[KEY_VALUE]).None? ==> r == Err(HostResolution(doc[KEY_VALUE]))
    ensures KEY_VALUE in doc && parseIp(doc[KEY_VALUE]).Some? ==>
      && (KEY_TYPE !in doc ==> r == Err(ProtocolEncoding(KEY_TYPE)))
      && (KEY_TYPE in doc && doc[KEY_TYPE] != TYPE_IP ==> r == Err(ProtocolMismatch(doc[KEY_TYPE])))
      && (KEY_TYPE in doc && doc[KEY_TYPE] == TYPE_IP ==> r == IpFromText(parseIp, formatIp, doc[KEY_VALUE]))
  {
    var v :- ReadString(doc, KEY_VALUE);
    var id :- IpFromText(parseIp, formatIp, v);
    var t :- ReadString(doc, KEY_TYPE);
    if t != TYPE_IP then Err(ProtocolMismatch(t)) else Ok(id)
  }

  /**
   * Parses the stored value back into an address. A value that does not
   * parse is a protocol encoding failure, never a host resolution failure.
   */
  function GetIp<A>(parseIp: string -> Option<A>, id: IpIdentifier): (r: Result<A>)
    ensures r.Ok? <==> parseIp(id.value).Some?
    ensures r.Ok? ==> r.value == parseIp(id.value).value
    ensures r.Err? ==> r.error == ProtocolEncoding("bad ip identifier value")
  {
    match parseIp(id.value)
    case None => Err(ProtocolEncoding("bad ip identifier value"))
    case Some(ip) => Ok(ip)
  }

  /** A document succeeds only when it declares "ip" and its value parses. */
  lemma IpDocumentAccepted<A>(parseIp: string -> Option<A>, formatIp: A -> string, doc: Document)
    requires IpFromDocument(parseIp, formatIp, doc).Ok?
    ensures KEY_TYPE in doc && doc[KEY_TYPE] == TYPE_IP && KEY_VALUE in doc
    ensures parseIp(doc[KEY_VALUE]).Some?
    ensures IpFromDocument(parseIp, formatIp, doc) == IpFromText(parseIp, formatIp, doc[KEY_VALUE])
  {
  }

  /**
   * When the formatter's text parses back to an address with the same text,
   * `GetIp` succeeds on an identifier built from that address, and the
   * address it gives back formats to the stored value and rebuilds the same
   * identifier; building from the stored text gives the same identifier too.
   */
  lemma IpGetIpRoundTrip<A>(parseIp: string -> Option<A>, formatIp: A -> string, ip: A, back: A)
    requires parseIp(formatIp(ip)) == Some(back) && formatIp(back) == formatIp(ip)
    ensures GetIp(parseIp, IpFromAddress(formatIp, ip)) == Ok(back)
    ensures formatIp(GetIp(parseIp, IpFromAddress(formatIp, ip)).value) == IpFromAddress(formatIp, ip).value
    ensures IpFromAddress(formatIp, back) == IpFromAddress(formatIp, ip)
    ensures IpFromText(parseIp, formatIp, IpFromAddress(formatIp, ip).value) == Ok(IpFromAddress(formatIp, ip))
  {
  }

  /**
   * Exporting an IP identifier and reading the document back gives the same
   * identifier, under the same parse-after-format condition.
   */
  lemma IpDocumentRoundTrip<A>(parseIp: string -> Option<A>, formatIp: A -> string, ip: A, back: A)
    requires parseIp(formatIp(ip)) == Some(back) && formatIp(back) == formatIp(ip)
    ensures IpFromDocument(parseIp, formatIp, ToMap(IpFromAddress(formatIp, ip))) == Ok(IpFromAddress(formatIp, ip))
  {
  }

  /** Two addresses give equal identifiers exactly when they format to the same text. */
  lemma IpEqualIffSameText<A>(formatIp: A -> string, a: A, b: A)
    ensures Equals(IpFromAddress(formatIp, a), AnIdentifier(IpFromAddress(formatIp, b)))
        <==> formatIp(a) == formatIp(b)
  {
  }

  /**
   * Identifiers built from two parseable texts are equal exactly when the
   * parsed addresses format alike; in particular the same text gives equal
   * identifiers.
   */
  lemma IpTextsEqualIffSameAddressText<A>(parseIp: string -> Option<A>, formatIp: A -> string, s: string, t: string)
    requires parseIp(s).Some? && parseIp(t).Some?
    ensures IpFromText(parseIp, formatIp, s).Ok? && IpFromText(parseIp, formatIp, t).Ok?
    ensures Equals(IpFromText(parseIp, formatIp, s).value, AnIdentifier(IpFromText(parseIp, formatIp, t).value))
        <==> formatIp(parseIp(s).value) == formatIp(parseIp(t).value)
  {
  }

  /** "127.0.0.1" read as text: its type, value, string form and map. */
  lemma IpLoopbackGetters<A>(parseIp: string -> Option<A>, formatIp: A -> string, loopback: A)
    requires parseIp("127.0.0.1") == Some(loopback) && formatIp(loopback) == "127.0.0.1"
    ensures IpFromText(parseIp, formatIp, "127.0.0.1").Ok?
    ensures var id := IpFromText(parseIp, formatIp, "127.0.0.1").value;
      && GetType(id) == "ip" && GetValue(id) == "127.0.0.1"
      && ToString(id) == "ip=127.0.0.1"
      && |ToMap(id)| == 2 && ToMap(id)["type"] == "ip" && ToMap(id)["value"] == "127.0.0.1"
  {
  }

  /** The stored value is the formatter's text, not the text that was given. */
  lemma IpStoresFormattedText<A>(parseIp: string -> Option<A>, formatIp: A -> string, ip: A)
    requires parseIp("2001:db8:85a3::8a2e:370:7334") == Some(ip)
    requires formatIp(ip) == "2001:db8:85a3:0:0:8a2e:370:7334"
    ensures IpFromText(parseIp, formatIp, "2001:db8:85a3::8a2e:370:7334")
         == Ok(Identifier(TYPE_IP, "2001:db8:85a3:0:0:8a2e:370:7334"))
  {
  }

  /**
   * A document declaring "dns" is refused: with a type mismatch when its
   * value resolves to an address, and as a host resolution failure before
   * the type is looked at when it does not.
   */
  lemma IpRejectsDnsDocument<A>(parseIp: string -> Option<A>, formatIp: A -> string)
    ensures IpFromDocument(parseIp, formatIp, map[KEY_TYPE := TYPE_DNS, KEY_VALUE := "example.com"]).Err?
    ensures parseIp("example.com").Some? ==>
      IpFromDocument(parseIp, formatIp, map[KEY_TYPE := TYPE_DNS, KEY_VALUE := "example.com"]) == Err(ProtocolMismatch("dns"))
    ensures parseIp("example.com").None? ==>
      IpFromDocument(parseIp, formatIp, map[KEY_TYPE := TYPE_DNS, KEY_VALUE := "example.com"]) == Err(HostResolution("example.com"))
  {
  }
}
