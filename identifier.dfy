/**
 * The generic ACME identifier: an immutable (type, value) pair exchanged
 * with a certificate authority. Types the client does not know are kept
 * verbatim; no normalisation happens at this level.
 */
module Identifiers {
  import opened Errors

  /** Type tag of DNS identifiers (section 9.7.7 of RFC 8555). */
  const TYPE_DNS: string := "dns"
  /** Type tag of IP identifiers (section 3 of RFC 8738). */
  const TYPE_IP: string := "ip"
  /** Document key holding the type tag. */
  const KEY_TYPE: string := "type"
  /** Document key holding the value. */
  const KEY_VALUE: string := "value"

  /** An identifier; both fields are fixed once it is built. */
  datatype Identifier = Identifier(typ: string, value: string)

  /** A structured document as read from or written to the wire: string fields by name. */
  type Document = map<string, string>

  /** What an identifier may be compared with: a Java `equals` argument. */
  datatype Comparand = NullRef | AnIdentifier(id: Identifier) | NotAnIdentifier

  /**
   * The generic constructor. A missing (null) argument is refused, the type
   * being checked before the value; present arguments are stored unchanged.
   */
  function NewIdentifier(typ: Option<string>, value: Option<string>): (r: Result<Identifier>)
    ensures r.Ok? <==> typ.Some? && value.Some?
    ensures r.Ok? ==> r.value.typ == typ.value && r.value.value == value.value
    ensures typ.None? ==> r == Err(InvalidArgument(KEY_TYPE))
    ensures typ.Some? && value.None? ==> r == Err(InvalidArgument(KEY_VALUE))
  {
    match (typ, value)
    case (None, _) => Err(InvalidArgument(KEY_TYPE))
    case (Some(_), None) => Err(InvalidArgument(KEY_VALUE))
    case (Some(t), Some(v)) => Ok(Identifier(t, v))
  }

  function GetType(id: Identifier): (r: string) {
    id.typ
  }

  function GetValue(id: Identifier): (r: string) {
    id.value
  }

  /** The accessors give back exactly what the constructor was handed. */
  lemma AccessorsReturnArguments(t: string, v: string)
    ensures NewIdentifier(Some(t), Some(v)).Ok?
    ensures GetType(NewIdentifier(Some(t), Some(v)).value) == t
    ensures GetValue(NewIdentifier(Some(t), Some(v)).value) == v
  {
  }

  /** The wire export: exactly the two entries "type" and "value". */
  function ToMap(id: Identifier): (m: map<string, string>)
    ensures m.Keys == {KEY_TYPE, KEY_VALUE} && |m| == 2
    ensures m[KEY_TYPE] == id.typ && m[KEY_VALUE] == id.value
  {
    map[KEY_TYPE := id.typ, KEY_VALUE := id.value]
  }

  /**
   * The diagnostic string form: the type, an equals sign, the value. The
   * type occupies the first characters, the sign the next one, the value
   * the rest.
   */
  function ToString(id: Identifier): (r: string)
    ensures |r| == |id.typ| + 1 + |id.value|
    ensures r[..|id.typ|] == id.typ && r[|id.typ|] == '='
    ensures r[|id.typ| + 1..] == id.value
  {
    id.typ + "=" + id.value
  }

  /**
   * The string form loses nothing for types without '=' (such as "dns" and
   * "ip"): two such identifiers with the same string form are the same.
   */
  lemma ToStringInjective(a: Identifier, b: Identifier)
    requires '=' !in a.typ && '=' !in b.typ
    requires ToString(a) == ToString(b)
    ensures a == b
  {
  }

  /**
   * The string form is for diagnostics only: once a type may contain '=',
   * two different identifiers can print alike.
   */
  lemma ToStringNotParseable()
    ensures exists a: Identifier, b: Identifier :: a != b && ToString(a) == ToString(b)
  {
    var a := Identifier("x=y", "z");
    var b := Identifier("x", "y=z");
    assert ToString(a) == ToString(b);
  }

  /**
   * Java `equals`: never equal to null or to a non-identifier, and equal to
   * an identifier exactly when type and value match, whatever the
   * subclass; this is structural equality of the pair.
   */
  function Equals(a: Identifier, other: Comparand): (r: bool)
    ensures r <==> other == AnIdentifier(a)
  {
    match other
    case AnIdentifier(i) => a.typ == i.typ && a.value == i.value
    case _ => false
  }

  /** `equals` is an equivalence on identifiers and rejects null and non-identifiers. */
  lemma EqualsIsEquivalence()
    ensures forall a: Identifier :: Equals(a, AnIdentifier(a))
    ensures forall a: Identifier, b: Identifier :: Equals(a, AnIdentifier(b)) ==> Equals(b, AnIdentifier(a))
    ensures forall a: Identifier, b: Identifier, c: Identifier ::
      Equals(a, AnIdentifier(b)) && Equals(b, AnIdentifier(c)) ==> Equals(a, AnIdentifier(c))
    ensures forall a: Identifier :: !Equals(a, NullRef) && !Equals(a, NotAnIdentifier)
  {
  }

  /** Java `hashCode`: the 32-bit exclusive-or of the two strings' hashes under a string hash `h`. */
  function HashCode(h: string -> bv32, id: Identifier): (r: bv32) {
    h(id.typ) ^ h(id.value)
  }

  /** Equal identifiers hash alike, whatever string hash is used. */
  lemma EqualsImpliesEqualHash(h: string -> bv32, a: Identifier, b: Identifier)
    requires Equals(a, AnIdentifier(b))
    ensures HashCode(h, a) == HashCode(h, b)
  {
  }

  /** Reads a string field of a document; an absent field is a protocol encoding failure. */
  function ReadString(doc: Document, key: string): (r: Result<string>) {
    if key in doc then Ok(doc[key]) else Err(ProtocolEncoding(key))
  }
}
