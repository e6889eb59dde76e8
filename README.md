# acme4j identifiers in Dafny

A model of the identifier value types of the acme4j ACME client. An
identifier is a `(type, value)` pair that the client exchanges with a
certificate authority: `"dns"` identifiers (section 9.7.7 of RFC 8555) carry
an ASCII-encoded domain name, `"ip"` identifiers (section 3 of RFC 8738)
carry the platform's textual form of an address, and any other type a CA
defines is kept verbatim.

- `errors.dfy` (`Errors`): `Option`, `Result` and the error taxonomy
  `AcmeError` (`InvalidArgument`, `ProtocolMismatch(found)`,
  `HostResolution`, `ProtocolEncoding`) that stands for the Java exceptions.
- `identifier.dfy` (`Identifiers`): the `Identifier` datatype, the four
  constants, the generic constructor, accessors, map export, string form,
  `equals` and `hashCode`.
- `dns_identifier.dfy` (`DnsIdentifiers`): `DnsIdentifier`, the subset of
  identifiers typed `"dns"`, with its text and document constructors and
  `GetDomain`.
- `ip_identifier.dfy` (`IpIdentifiers`): `IpIdentifier`, the subset typed
  `"ip"`, with its address, text and document constructors and `GetIp`.

The Java classes are immutable, with no loops and no mutable state, so
everything is a pure function. Exceptions become `Err` results. A Java
subclass becomes a subset type of `Identifier`, so equality is datatype
equality and ignores the subclass, as Java's `equals` does. The
collaborators that are not part of this model are passed in as function
parameters:

- `toAce: string -> Result<string>` is the IDNA encoder `AcmeUtils.toAce`.
  It may fail, and its failure is passed on unchanged.
- `parseIp: string -> Option<A>` and `formatIp: A -> string` are
  `InetAddress.getByName` and `getHostAddress`. `A` is the address type.
- `h: string -> bv32` is the string hash used by `hashCode`.

Properties that depend on how these collaborators behave take that behaviour
as a precondition. A JSON document is a `map<string, string>`. A missing
field is reported as `ProtocolEncoding(key)`.

Two facts about the collaborators shape the model:
- `InetAddress.getByName` may resolve a host name as well as parse an
  address literal (IpIdentifier.java lines 33 and 61). So `parseIp` may
  succeed on any text, not only on address literals.
- The text constructor of `DnsIdentifier` calls `toAce` with no try/catch
  around it (DnsIdentifier.java line 19). So the model passes on whatever
  `toAce` reports.

## Model

| member | source | states |
|---|---|---|
| `Identifiers.NewIdentifier` | acme4j-client/src/main/java/org/shredzone/acme4j/Identifier.java:73-76 | fails with `InvalidArgument("type")` if the type is missing, else with `InvalidArgument("value")` if the value is missing; otherwise stores both unchanged |
| `Identifiers.AccessorsReturnArguments` | acme4j-client/src/main/java/org/shredzone/acme4j/Identifier.java:81-90 | `GetType` and `GetValue` return exactly the constructor's arguments |
| `Identifiers.ToMap` | acme4j-client/src/main/java/org/shredzone/acme4j/Identifier.java:95-97 | the map has exactly two keys, `"type"` mapped to the type and `"value"` mapped to the value |
| `Identifiers.ToString` | acme4j-client/src/main/java/org/shredzone/acme4j/Identifier.java:100-102 | the string is the type, then `'='`, then the value, each at its fixed position |
| `Identifiers.ToStringInjective` | acme4j-client/src/main/java/org/shredzone/acme4j/Identifier.java:100-102 | for types without `'='` (such as `"dns"` and `"ip"`), equal string forms mean equal identifiers |
| `Identifiers.ToStringNotParseable` | acme4j-client/src/main/java/org/shredzone/acme4j/Identifier.java:100-102 | when a type may contain `'='`, two different identifiers can have the same string form, so the form is for diagnostics only |
| `Identifiers.Equals` | acme4j-client/src/main/java/org/shredzone/acme4j/Identifier.java:105-112 | `equals` holds exactly when the comparand is an identifier with the same type and value; it is false for null and for non-identifiers |
| `Identifiers.EqualsIsEquivalence` | acme4j-client/src/main/java/org/shredzone/acme4j/Identifier.java:105-112 | `equals` is reflexive, symmetric and transitive, and never holds for null or a non-identifier |
| `Identifiers.EqualsImpliesEqualHash` | acme4j-client/src/main/java/org/shredzone/acme4j/Identifier.java:115-117 | equal identifiers have equal `h(type) xor h(value)` for every string hash `h` |
| `DnsIdentifiers.DnsFromDomain` | acme4j-client/src/main/java/org/shredzone/acme4j/DnsIdentifier.java:18-20 | succeeds exactly when the encoder does; the type is `"dns"` and the value is the encoder's output; an encoder failure is passed on unchanged |
| `DnsIdentifiers.DnsFromDocument` | acme4j-client/src/main/java/org/shredzone/acme4j/DnsIdentifier.java:28-35 | a missing value fails first, then an encoder failure, then a missing type; a type other than `"dns"` fails with `ProtocolMismatch(type)`; otherwise the result equals `DnsFromDomain(value)` |
| `DnsIdentifiers.GetDomain` | acme4j-client/src/main/java/org/shredzone/acme4j/DnsIdentifier.java:42-44 | the domain is the same string as `GetValue` |
| `DnsIdentifiers.DnsDocumentAccepted` | acme4j-client/src/main/java/org/shredzone/acme4j/DnsIdentifier.java:28-35 | a document is accepted only if it declares `"dns"` and has a value, and the result is then `DnsFromDomain(value)` |
| `DnsIdentifiers.DnsValueCheckedBeforeType` | acme4j-client/src/main/java/org/shredzone/acme4j/DnsIdentifier.java:29-32 | if the encoder rejects the document's value, that error is reported whatever the type field says |
| `DnsIdentifiers.DnsKeepsEncodedDomain` | acme4j-client/src/test/java/org/shredzone/acme4j/IdentifierTest.java:64-67 | a domain that the encoder leaves unchanged is stored verbatim, and `GetDomain` returns it |
| `DnsIdentifiers.DnsDocumentRoundTrip` | acme4j-client/src/main/java/org/shredzone/acme4j/DnsIdentifier.java:28-35 | reading back the `ToMap` export of a DNS identifier gives the same identifier, if the encoder leaves its value unchanged |
| `DnsIdentifiers.DnsExampleDocument` | acme4j-client/src/test/java/org/shredzone/acme4j/IdentifierTest.java:49-59 | the document `{type: dns, value: example.com}` yields type `"dns"`, value `"example.com"`, string `"dns=example.com"` and the same two-entry map |
| `DnsIdentifiers.DnsRejectsIpDocument` | acme4j-client/src/test/java/org/shredzone/acme4j/IdentifierTest.java:75-81 | a document declaring `"ip"` always fails, and fails with `ProtocolMismatch("ip")` when its value encodes |
| `DnsIdentifiers.DnsEqualsGenericIdentifier` | acme4j-client/src/main/java/org/shredzone/acme4j/Identifier.java:105-112 | a DNS identifier equals a generic identifier that has the same type and value, so the subclass is ignored |
| `IpIdentifiers.IpFromAddress` | acme4j-client/src/main/java/org/shredzone/acme4j/IpIdentifier.java:19-21 | the type is `"ip"` and the value is the formatter's text for the address |
| `IpIdentifiers.IpFromText` | acme4j-client/src/main/java/org/shredzone/acme4j/IpIdentifier.java:32-34 | text that does not parse fails with `HostResolution(text)`; otherwise the result is `IpFromAddress` of the parsed address |
| `IpIdentifiers.IpFromDocument` | acme4j-client/src/main/java/org/shredzone/acme4j/IpIdentifier.java:43-50 | a missing value fails first, then an unparseable value (`HostResolution`), then a missing type; a type other than `"ip"` fails with `ProtocolMismatch(type)`; otherwise the result equals `IpFromText(value)` |
| `IpIdentifiers.GetIp` | acme4j-client/src/main/java/org/shredzone/acme4j/IpIdentifier.java:59-65 | succeeds exactly when the stored value parses, returning the parsed address; otherwise fails with `ProtocolEncoding` and never with `HostResolution` |
| `IpIdentifiers.IpDocumentAccepted` | acme4j-client/src/main/java/org/shredzone/acme4j/IpIdentifier.java:43-50 | a document is accepted only if it declares `"ip"` and its value parses, and the result is then `IpFromText(value)` |
| `IpIdentifiers.IpGetIpRoundTrip` | acme4j-client/src/test/java/org/shredzone/acme4j/IdentifierTest.java:84-98 | if the formatter's text parses back to an address with the same text, then `GetIp` succeeds and that address formats to the stored value; rebuilding from the address or from the stored text gives the same identifier |
| `IpIdentifiers.IpDocumentRoundTrip` | acme4j-client/src/main/java/org/shredzone/acme4j/IpIdentifier.java:43-50 | under the same condition, reading back the `ToMap` export of an IP identifier gives the same identifier |
| `IpIdentifiers.IpEqualIffSameText` | acme4j-client/src/main/java/org/shredzone/acme4j/Identifier.java:105-112 | identifiers built from two addresses are equal exactly when the addresses format to the same text |
| `IpIdentifiers.IpTextsEqualIffSameAddressText` | acme4j-client/src/test/java/org/shredzone/acme4j/IdentifierTest.java:109-127 | identifiers built from two parseable texts are equal exactly when the parsed addresses format alike |
| `IpIdentifiers.IpLoopbackGetters` | acme4j-client/src/test/java/org/shredzone/acme4j/IdentifierTest.java:39-47 | if `"127.0.0.1"` parses and formats back to itself, the identifier has type `"ip"`, value `"127.0.0.1"`, string `"ip=127.0.0.1"` and a two-entry map |
| `IpIdentifiers.IpStoresFormattedText` | acme4j-client/src/test/java/org/shredzone/acme4j/IdentifierTest.java:90-92 | the stored value is the formatter's text (`2001:db8:85a3:0:0:8a2e:370:7334`), not the input text (`2001:db8:85a3::8a2e:370:7334`) |
| `IpIdentifiers.IpRejectsDnsDocument` | acme4j-client/src/test/java/org/shredzone/acme4j/IdentifierTest.java:101-107 | a document declaring `"dns"` with value `"example.com"` always fails: with `ProtocolMismatch("dns")` if the value resolves, otherwise with `HostResolution` before the type is read |

## Left out

- IDNA/punycode encoding (`AcmeUtils.toAce`) is not part of this model. It is the parameter `toAce`, and no punycode facts are proved (for example `"ëxämþlë.com"` becoming `"xn--xml-qla7ae5k.com"`). Idempotence of the encoder is a precondition of `DnsDocumentRoundTrip`, not a theorem.
- `InetAddress.getByName` and `getHostAddress` are not part of this model. They are the parameters `parseIp` and `formatIp`. Host-name resolution is network I/O and is not modelled. No particular text format is assumed (not RFC 5952 compression).
- The JSON reader and builder are not part of this model. A document is a map from strings to strings, so a field that is present but not a string is not represented. `ToMap` returns an unordered map, so the insertion order (`type` before `value`) is not captured.
- `Identifiers.HashCode` models Java's `String.hashCode` as an abstract string hash `h` into `bv32`. The 31-based polynomial over UTF-16 units is not spelled out, because the only promise is that equal identifiers hash alike.
- `null` is modelled only for the generic constructor's two arguments. The typed constructors' parameters are non-null strings and addresses, so three null cases are not modelled:
  - `IpIdentifier((String) null)` passes null to `InetAddress.getByName`, which returns the loopback address.
  - `IpIdentifier((InetAddress) null)` throws a `NullPointerException`.
  - `DnsIdentifier((String) null)` hands null to `toAce`, whose behaviour is not part of this model.
- A Dafny `string` is a sequence of Unicode scalar values, while a Java `String` is a sequence of UTF-16 units. So unpaired surrogates cannot be represented, and the positions in `ToString`'s contract count code points rather than `length()` units.
- `Serializable` and `serialVersionUID` are left out because they are not behaviour.
- `DnsIdentifier` and `IpIdentifier` are the identifiers whose type is `"dns"` or `"ip"`. The model does not tell apart two Java objects of different classes with the same pair. `equals` does not tell them apart either.
