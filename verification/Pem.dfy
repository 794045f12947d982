/** PEM framing (RFC 7468, sections 3 and 5.1) and the loops that read certificate chains.

    Base64 and X.509 are a record of functions; `Lawful` states the inverse laws they obey.
    Everything about the framing itself is concrete: BEGIN line, body, END line, and the
    white space between blocks.
 */
module Pem {
  import opened Wrappers
  import opened Strings

  /** An X.509 certificate: its DER encoding and the fields the program looks at. */
  datatype Certificate = Certificate(raw: Bytes, isCA: bool, notBefore: int, notAfter: int)

  datatype Codec = Codec(
    armor: Bytes -> string,            // base64 text, without the final line break
    unarmor: string -> Option<Bytes>,
    x509: Bytes -> Option<Certificate>)

  ghost predicate Lawful(x: Codec) {
    && (forall d :: x.unarmor(x.armor(d)) == Some(d) && '-' !in x.armor(d))
    && (forall d :: x.x509(d).Some? ==> x.x509(d).value.raw == d)
  }

  /** A certificate that parsing can produce. */
  predicate Genuine(x: Codec, c: Certificate) {
    x.x509(c.raw) == Some(c)
  }

  ghost predicate AllGenuine(x: Codec, cs: seq<Certificate>) {
    forall i | 0 <= i < |cs| :: Genuine(x, cs[i])
  }

  const BEGIN := "-----BEGIN "
  const END := "-----END "
  const DASHES := "-----"

  // --------------------------------------------------------------------- decoding

  predicate Blank(c: char) {
    c == ' ' || c == '\t'
  }

  function TrimBlanks(s: string): (r: string)
    ensures |r| <= |s|
    decreases |s|
  {
    if s != "" && Blank(s[|s| - 1]) then TrimBlanks(s[..|s| - 1]) else s
  }

  function DropCR(s: string): (r: string)
    ensures |r| <= |s|
  {
    if s != "" && s[|s| - 1] == '\r' then s[..|s| - 1] else s
  }

  /** The first line without its line break and trailing blanks. */
  function LineOf(data: string): (r: string)
    ensures |r| <= |data|
  {
    var i := IndexOf(data, "\n");
    if i < 0 then TrimBlanks(data) else TrimBlanks(DropCR(data[..i]))
  }

  function AfterLine(data: string): (r: string)
    ensures |r| <= |data|
  {
    var i := IndexOf(data, "\n");
    if i < 0 then "" else data[i + 1..]
  }

  datatype Decoded = Decoded(der: Bytes, rest: string)

  /** What follows the BEGIN line: body, END line of the same type, end of that line. */
  function BodyAt(x: Codec, typ: string, rest: string): (r: Option<Decoded>)
    ensures r.Some? ==> |r.value.rest| <= |rest|
  {
    var e := if END <= rest then 0 else IndexOf(rest, "\n" + END);
    if e < 0 then None
    else
      var skip := if END <= rest then |END| else e + 1 + |END|;
      var tail := rest[skip..];
      if !(typ + DASHES <= tail) then None
      else
        var close := tail[|typ| + |DASHES|..];
        if LineOf(close) != "" then None
        else match x.unarmor(rest[..e])
          case None => None
          case Some(der) => Some(Decoded(der, AfterLine(close)))
  }

  /** A complete block that starts at the first character. */
  function BlockAt(x: Codec, data: string): (r: Option<Decoded>)
    ensures r.Some? ==> |r.value.rest| < |data|
  {
    if !(BEGIN <= data) then None
    else
      var line := LineOf(data[|BEGIN|..]);
      if !HasSuffix(line, DASHES) then None
      else BodyAt(x, line[..|line| - |DASHES|], AfterLine(data[|BEGIN|..]))
  }

  /** pem.Decode: the first complete block that starts at the beginning of a line. */
  function Decode(x: Codec, data: string): (r: Option<Decoded>)
    ensures r.Some? ==> |r.value.rest| < |data|
    decreases |data|
  {
    if data == "" then None
    else
      var here := BlockAt(x, data);
      if here.Some? then here
      else if IndexOf(data, "\n") < 0 then None
      else Decode(x, AfterLine(data))
  }

  datatype ParseError = NotPem | NotACertificate

  type Parsed = Result<seq<Certificate>, ParseError>

  function Prepend(c: Certificate, r: Parsed): Parsed {
    match r
    case Ok(cs) => Ok([c] + cs)
    case Err(e) => Err(e)
  }

  function ParseFrom(x: Codec, rest: string): Parsed
    decreases |rest|
  {
    if rest == "" then Ok([])
    else match Decode(x, rest)
      case None => Err(NotPem)
      case Some(d) =>
        match x.x509(d.der)
        case None => Err(NotACertificate)
        case Some(c) => Prepend(c, ParseFrom(x, TrimSpace(d.rest)))
  }

  function ParseAll(x: Codec, text: string): Parsed {
    ParseFrom(x, TrimSpace(text))
  }

  function Glue(cs: seq<Certificate>, r: Parsed): Parsed {
    match r
    case Ok(ds) => Ok(cs + ds)
    case Err(e) => Err(e)
  }

  /** The reading loop: `rest` gets strictly shorter until it is empty or unreadable. */
  method ReadChain(x: Codec, text: string) returns (r: Parsed)
    ensures r == ParseAll(x, text)
  {
    hide Decode, TrimSpace;
    var rest := TrimSpace(text);
    var chain: seq<Certificate> := [];
    assert ParseAll(x, text).Ok? ==> chain + ParseAll(x, text).value == ParseAll(x, text).value;
    while |rest| > 0
      invariant ParseAll(x, text) == Glue(chain, ParseFrom(x, rest))
      decreases |rest|
    {
      var block := Decode(x, rest);
      if block.None? {
        return Err(NotPem);
      }
      rest := TrimSpace(block.value.rest);
      var cert := x.x509(block.value.der);
      if cert.None? {
        return Err(NotACertificate);
      }
      ghost var more := ParseFrom(x, rest);
      assert Glue(chain, Prepend(cert.value, more)) == Glue(chain + [cert.value], more) by {
        if more.Ok? {
          assert chain + ([cert.value] + more.value) == (chain + [cert.value]) + more.value;
        }
      }
      chain := chain + [cert.value];
    }
    assert chain + [] == chain;
    return Ok(chain);
  }

  /** Certificates that were read are genuine. */
  lemma {:induction false} ReadIsGenuine(x: Codec, rest: string)
    requires Lawful(x) && ParseFrom(x, rest).Ok?
    ensures AllGenuine(x, ParseFrom(x, rest).value)
    decreases |rest|
  {
    hide Decode, TrimSpace;
    if rest == "" {
    } else {
      var d := Decode(x, rest);
      ReadIsGenuine(x, TrimSpace(d.value.rest));
    }
  }
}
