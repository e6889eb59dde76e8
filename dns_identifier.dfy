/**
 * DNS identifiers: the type is fixed to "dns" and the value is the
 * ASCII-compatible (IDNA) encoding of the domain name. The encoder is a
 * collaborator of this model and is passed in as `toAce`; it may fail, and
 * its failure is passed on unchanged.
 */
module DnsIdentifiers {
  import opened Errors
  import opened Identifiers

  /** An identifier whose type is "dns". */
  type DnsIdentifier = id: Identifier | id.typ == TYPE_DNS witness Identifier(TYPE_DNS, "")

  /**
   * Builds a DNS identifier from a domain name: the stored value is the
   * encoder's output, never the raw input; an encoder failure is the result.
   */
  function DnsFromDomain(toAce: string -> Result<string>, domain: string): (r: Result<DnsIdentifier>)
    ensures r.Ok? <==> toAce(domain).Ok?
    ensures r.Ok? ==> r.value.typ == TYPE_DNS && r.value.value == toAce(domain).value
    ensures r.Err? ==> r.error == toAce(domain).error
  {
    var ace :- toAce(domain);
    var id := NewIdentifier(Some(TYPE_DNS), Some(ace)).value;
    Ok(id)
  }

  /**
   * Builds a DNS identifier from a document. The value field is read and
   * encoded first; only then is the type field read and required to be
   * "dns", a different type being reported as a protocol mismatch.
   */
  function DnsFromDocument(toAce: string -> Result<string>, doc: Document): (r: Result<DnsIdentifier>)
    ensures KEY_VALUE !in doc ==> r == Err(ProtocolEncoding(KEY_VALUE))
    ensures KEY_VALUE in doc && DnsFromDomain(toAce, doc[KEY_VALUE]).Err? ==>
      r == DnsFromDomain(toAce, doc[KEY_VALUE])
    ensures KEY_VALUE in doc && DnsFromDomain(toAce, doc[KEY_VALUE]).Ok? ==>
      && (KEY_TYPE !in doc ==> r == Err(ProtocolEncoding(KEY_TYPE)))
      && (KEY_TYPE in doc && doc[KEY_TYPE] != TYPE_DNS ==> r == Err(ProtocolMismatch(doc[KEY_TYPE])))
      && (KEY_TYPE in doc && doc[KEY_TYPE] == TYPE_DNS ==> r == DnsFromDomain(toAce, doc[KEY_VALUE]))
  {
    var v :- ReadString(doc, KEY_VALUE);
    var id :- DnsFromDomain(toAce, v);
    var t :- ReadString(doc, KEY_TYPE);
    if t != TYPE_DNS then Err(ProtocolMismatch(t)) else Ok(id)
  }

  /** The domain accessor is the value accessor under another name. */
  function GetDomain(id: DnsIdentifier): (r: string)
    ensures r == GetValue(id)
  {
    id.value
  }

  /** A document succeeds only when it declares "dns" and its value encodes. */
  lemma DnsDocumentAccepted(toAce: string -> Result<string>, doc: Document)
    requires DnsFromDocument(toAce, doc).Ok?
    ensures KEY_TYPE in doc && doc[KEY_TYPE] == TYPE_DNS && KEY_VALUE in doc
    ensures DnsFromDocument(toAce, doc) == DnsFromDomain(toAce, doc[KEY_VALUE])
  {
  }

  /** A value the encoder refuses is reported even when the type is also wrong. */
  lemma DnsValueCheckedBeforeType(toAce: string -> Result<string>, doc: Document)
    requires KEY_VALUE in doc && toAce(doc[KEY_VALUE]).Err?
    ensures DnsFromDocument(toAce, doc) == Err(toAce(doc[KEY_VALUE]).error)
  {
  }

  /** A domain the encoder leaves as it is (plain ASCII) is stored verbatim. */
  lemma DnsKeepsEncodedDomain(toAce: string -> Result<string>, domain: string)
    requires toAce(domain) == Ok(domain)
    ensures DnsFromDomain(toAce, domain) == Ok(Identifier(TYPE_DNS, domain))
    ensures GetDomain(DnsFromDomain(toAce, domain).value) == domain
  {
  }

  /**
   * Exporting a DNS identifier and reading the document back gives the same
   * identifier, provided the encoder leaves the stored value unchanged.
   */
  lemma DnsDocumentRoundTrip(toAce: string -> Result<string>, id: DnsIdentifier)
    requires toAce(id.value) == Ok(id.value)
    ensures DnsFromDocument(toAce, ToMap(id)) == Ok(id)
  {
  }

  /** The "example.com" document reads back as that domain, with its string form and map. */
  lemma DnsExampleDocument(toAce: string -> Result<string>)
    requires toAce("example.com") == Ok("example.com")
    ensures DnsFromDocument(toAce, map[KEY_TYPE := TYPE_DNS, KEY_VALUE := "example.com"]).Ok?
    ensures var id := DnsFromDocument(toAce, map[KEY_TYPE := TYPE_DNS, KEY_VALUE := "example.com"]).value;
      && GetType(id) == "dns" && GetValue(id) == "example.com"
      && ToString(id) == "dns=example.com"
      && ToMap(id) == map["type" := "dns", "value" := "example.com"]
  {
  }

  /** A document declaring "ip" is refused; it is a type mismatch once the value has encoded. */
  lemma DnsRejectsIpDocument(toAce: string -> Result<string>)
    ensures DnsFromDocument(toAce, map[KEY_TYPE := TYPE_IP, KEY_VALUE := "127.0.0.1"]).Err?
    ensures toAce("127.0.0.1").Ok? ==>
      DnsFromDocument(toAce, map[KEY_TYPE := TYPE_IP, KEY_VALUE := "127.0.0.1"]) == Err(ProtocolMismatch("ip"))
  {
  }

  /**
   * Equality ignores the subclass: a DNS identifier equals a generic one with
   * the same pair. This holds by construction, because a `DnsIdentifier` is an
   * `Identifier` whose type is "dns"; the lemma records that choice of
   * representation.
   */
  lemma DnsEqualsGenericIdentifier(toAce: string -> Result<string>, domain: string)
    requires toAce(domain).Ok?
    ensures NewIdentifier(Some("dns"), Some(toAce(domain).value)).Ok?
    ensures Equals(DnsFromDomain(toAce, domain).value,
                   AnIdentifier(NewIdentifier(Some("dns"), Some(toAce(domain).value)).value))
  {
  }
}
