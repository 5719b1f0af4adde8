/** DER printing (src/dns/dnssec.rs) and parsing (src/dns/pkcs7.rs): RSA keys of DNSKEY records as
  * PKCS#1 public keys, and the parser that undoes it. */
module Der {
  import opened Bytes
  import opened Wrappers

  const SEQUENCE: byte := 0x30
  const INTEGER: byte := 2

  // ---------------------------------------------------------------- printing

  /** `encode_asn1_length`: three octets at most, so lengths past 65535 are cut. */
  function LengthBytes(n: nat): seq<byte> {
    if n < 128 then [n]
    else if n <= 255 then [0x81, n]
    else [0x82, n / 256 % 256, n % 256]
  }

  function DropZeros(v: seq<byte>): seq<byte> { if |v| > 1 && v[0] == 0 then DropZeros(v[1..]) else v }

  /** The content of a positive INTEGER. */
  function IntegerContent(v: seq<byte>): seq<byte> {
    var t := DropZeros(v);
    if t == [] || t[0] >= 128 then [0] + t else t
  }

  /** A tag, a length and the content. */
  function Tlv(tag: byte, content: seq<byte>): seq<byte> { [tag] + LengthBytes(|content|) + content }

  /** The exponent and the modulus in the key field of a DNSKEY record (section 2 of RFC 3110). */
  function KeyParts(key: seq<byte>): Option<(seq<byte>, seq<byte>)> {
    if key == [] || (key[0] == 0 && |key| < 3) then None
    else
      var len: nat := if key[0] == 0 then key[1] as int * 256 + key[2] as int else key[0];
      var offset: nat := if key[0] == 0 then 3 else 1;
      if |key| < offset + len || len == 0 || |key| == offset + len then None
      else Some((key[offset..offset + len], key[offset + len..]))
  }

  function KeyContent(exponent: seq<byte>, modulus: seq<byte>): seq<byte> {
    Tlv(INTEGER, IntegerContent(modulus)) + Tlv(INTEGER, IntegerContent(exponent))
  }

  /** What `rsa_dnskey_to_pkcs1_der` returns. */
  function KeyToDer(key: seq<byte>): Option<seq<byte>> {
    match KeyParts(key)
    case None => None
    case Some((exponent, modulus)) => Some(Tlv(SEQUENCE, KeyContent(exponent, modulus)))
  }

  /** `encode_asn1_integer` */
  method EncodeInteger(v: seq<byte>) returns (out: seq<byte>)
    ensures out == Tlv(INTEGER, IntegerContent(v))
  {
    var trimmed := v;
    while |trimmed| > 1 && trimmed[0] == 0
      invariant DropZeros(trimmed) == DropZeros(v)
      decreases |trimmed|
    {
      trimmed := trimmed[1..];
    }
    var prefix := trimmed == [] || trimmed[0] >= 128;
    var len := |trimmed| + if prefix then 1 else 0;
    out := [INTEGER] + LengthBytes(len);
    if prefix { out := out + [0]; }
    out := out + trimmed;
    assert out == [INTEGER] + LengthBytes(len) + IntegerContent(v);
  }

  /** `rsa_dnskey_to_pkcs1_der` */
  method RsaDnskeyToPkcs1Der(key: seq<byte>) returns (r: Option<seq<byte>>)
    ensures r == KeyToDer(key)
  {
    if key == [] { return None; }
    var len: nat, offset: nat := key[0], 1;
    if key[0] == 0 {
      if |key| < 3 { return None; }
      len, offset := key[1] as int * 256 + key[2] as int, 3;
    }
    if |key| < offset + len { return None; }
    var exponent, modulus := key[offset..offset + len], key[offset + len..];
    if modulus == [] || exponent == [] { return None; }
    var m := EncodeInteger(modulus);
    var e := EncodeInteger(exponent);
    return Some([SEQUENCE] + LengthBytes(|m| + |e|) + (m + e));
  }

  // ---------------------------------------------------------------- parsing

  datatype Element = Element(tag: byte, headerLength: nat, content: seq<byte>, full: seq<byte>)

  datatype Error = UnexpectedEnd | TruncatedHeader | BadLength | TooLong

  datatype Parsed = Ok(element: Element, rest: seq<byte>) | Err(error: Error)

  function Number(octets: seq<byte>): nat {
    if octets == [] then 0 else Number(octets[..|octets| - 1]) * 256 + octets[|octets| - 1] as nat
  }

  /** The length field at the beginning of `input`: the length and the size of the header. */
  function ReadLength(input: seq<byte>): Option<(nat, nat)>
    requires |input| >= 2
  {
    if input[1] < 128 then Some((input[1] as nat, 2))
    else
      var octets := input[1] - 128;
      if octets == 0 || octets > 4 || |input| < 2 + octets then None
      else Some((Number(input[2..2 + octets]), 2 + octets))
  }

  /** What `DerElement::parse` returns. */
  function Parse(input: seq<byte>): Parsed {
    if input == [] then Err(UnexpectedEnd)
    else if |input| < 2 then Err(TruncatedHeader)
    else match ReadLength(input)
      case None => Err(BadLength)
      case Some((len, header)) =>
        if |input| < header + len then Err(TooLong)
        else Ok(Element(input[0], header, input[header..header + len], input[..header + len]), input[header + len..])
  }

  method ParseElement(input: seq<byte>) returns (r: Parsed)
    ensures r == Parse(input)
  {
    if input == [] { return Err(UnexpectedEnd); }
    if |input| < 2 { return Err(TruncatedHeader); }
    var len: nat, header: nat := input[1], 2;
    if input[1] >= 128 {
      var octets: nat := input[1] - 128;
      if octets == 0 || octets > 4 || |input| < 2 + octets { return Err(BadLength); }
      len := 0;
      for i := 0 to octets
        invariant len == Number(input[2..2 + i])
      {
        assert input[2..2 + i + 1][..i] == input[2..2 + i];
        len := len * 256 + input[2 + i];
      }
      header := 2 + octets;
    }
    if |input| < header + len { return Err(TooLong); }
    return Ok(Element(input[0], header, input[header..header + len], input[..header + len]), input[header + len..]);
  }

  datatype Children = Kids(elements: seq<Element>) | Bad(error: Error)

  lemma ParseConsumes(input: seq<byte>)
    ensures Parse(input).Ok? ==> |Parse(input).rest| < |input| && Parse(input).element.full + Parse(input).rest == input
  {
  }

  /** The elements from `rest` on, after those found. */
  function ChildrenFrom(found: seq<Element>, rest: seq<byte>): Children
    decreases |rest|
  {
    if rest == [] then Kids(found)
    else
      ParseConsumes(rest);
      match Parse(rest)
      case Err(e) => Bad(e)
      case Ok(element, more) => ChildrenFrom(found + [element], more)
  }

  /** `children` */
  method ChildrenOf(content: seq<byte>) returns (r: Children)
    ensures r == ChildrenFrom([], content)
  {
    var found, rest := [], content;
    while rest != []
      invariant ChildrenFrom(found, rest) == ChildrenFrom([], content)
      decreases |rest|
    {
      ParseConsumes(rest);
      var p := ParseElement(rest);
      match p {
        case Err(e) => return Bad(e);
        case Ok(element, more) => found, rest := found + [element], more;
      }
    }
    return Kids(found);
  }

  // ---------------------------------------------------------------- children tile the content

  /** The octets of elements, one after the other. */
  function Laid(es: seq<Element>): seq<byte> { if es == [] then [] else es[0].full + Laid(es[1..]) }

  lemma {:induction false} LaidSnoc(es: seq<Element>, e: Element)
    ensures Laid(es + [e]) == Laid(es) + e.full
    decreases |es|
  {
    if es == [] {
      assert ([] + [e])[1..] == [] && e.full + [] == e.full;
    } else {
      assert (es + [e])[1..] == es[1..] + [e];
      LaidSnoc(es[1..], e);
    }
  }

  /** Header and content make the element, and its content is what its length says. */
  predicate WellFormed(e: Element) { Parse(e.full) == Ok(e, []) }

  lemma {:induction false} NumberPrefix(a: seq<byte>, b: seq<byte>, i: nat, j: nat)
    requires i <= j <= |a| && j <= |b| && a[..j] == b[..j]
    ensures Number(a[i..j]) == Number(b[i..j])
  {
    assert a[i..j] == a[..j][i..] && b[i..j] == b[..j][i..];
  }

  /** An element parsed on its own is the element parsed in place. */
  lemma ParsedAlone(input: seq<byte>)
    requires Parse(input).Ok?
    ensures WellFormed(Parse(input).element)
  {
    var e := Parse(input).element;
    var n := |e.full|;
    assert e.full == input[..n] && e.full[0] == input[0] && e.full[1] == input[1];
    if input[1] >= 128 {
      var octets := input[1] - 128;
      NumberPrefix(e.full, input, 2, 2 + octets);
      assert e.full[..n] == input[..n];
    }
    assert ReadLength(e.full) == ReadLength(input);
    assert e.full[e.headerLength..n] == input[e.headerLength..n] && e.full[..n] == e.full && e.full[n..] == [];
  }

  lemma ChildrenStep(found: seq<Element>, rest: seq<byte>)
    requires rest != [] && Parse(rest).Ok?
    ensures ChildrenFrom(found, rest) == ChildrenFrom(found + [Parse(rest).element], Parse(rest).rest)
  {
  }

  lemma {:induction false} ChildrenTileFrom(found: seq<Element>, rest: seq<byte>)
    requires ChildrenFrom(found, rest).Kids? && forall e <- found :: WellFormed(e)
    ensures Laid(ChildrenFrom(found, rest).elements) == Laid(found) + rest
    ensures forall e <- ChildrenFrom(found, rest).elements :: WellFormed(e)
    decreases |rest|
  {
    if rest == [] {
      assert Laid(found) + [] == Laid(found);
    } else {
      ParseConsumes(rest);
      var (e, more) := (Parse(rest).element, Parse(rest).rest);
      ParsedAlone(rest);
      LaidSnoc(found, e);
      ChildrenStep(found, rest);
      ChildrenTileFrom(found + [e], more);
      Reassociate(Laid(found), e.full, more);
    }
  }

  /** Children tile the content: laid end to end they are the content, and each is a whole element. */
  lemma ChildrenTile(content: seq<byte>)
    requires ChildrenFrom([], content).Kids?
    ensures Laid(ChildrenFrom([], content).elements) == content
    ensures forall e <- ChildrenFrom([], content).elements :: WellFormed(e)
  {
    ChildrenTileFrom([], content);
    assert [] + content == content;
  }

  // ---------------------------------------------------------------- what parses

  /** The definite forms of a length (section 8.1.3 of X.690): one octet below 128, or a count of one to four
    * octets that give the number. */
  predicate LengthForm(octets: seq<byte>, n: nat) {
    || (octets == [n] && n < 0x80)
    || (2 <= |octets| <= 5 && octets[0] == 0x80 + (|octets| - 1) && Number(octets[1..]) == n)
  }

  /** The parts of an element, with what follows it. */
  predicate LaidOut(input: seq<byte>, tag: byte, length: seq<byte>, content: seq<byte>, rest: seq<byte>) {
    LengthForm(length, |content|) && input == [tag] + length + content + rest
  }

  lemma ParsesTo(tag: byte, length: seq<byte>, content: seq<byte>, rest: seq<byte>)
    requires LengthForm(length, |content|)
    ensures var full := [tag] + length + content; Parse(full + rest) == Ok(Element(tag, 1 + |length|, content, full), rest)
  {
    var full := [tag] + length + content;
    var input := full + rest;
    var h := 1 + |length|;
    assert input[0] == tag && input[1] == length[0];
    if !(length == [|content|] && |content| < 0x80) {
      assert input[2..h] == length[1..];
    }
    assert ReadLength(input) == Some((|content|, h));
    assert input[h..h + |content|] == content && input[..h + |content|] == full && input[h + |content|..] == rest;
  }

  /** Exactly the octets that begin with a tag, a definite length of at most four further octets and so much content
    * parse. */
  lemma ParsesExactlyDefiniteForms(input: seq<byte>)
    ensures Parse(input).Ok? <==>
            exists tag: byte, length, content, rest :: LaidOut(input, tag, length, content, rest)
  {
    if Parse(input).Ok? {
      var (n, h) := ReadLength(input).value;
      var length := input[1..h];
      if input[1] < 0x80 { assert length == [n]; } else { assert length[1..] == input[2..h]; }
      assert LengthForm(length, |input[h..h + n]|);
      assert LaidOut(input, input[0], length, input[h..h + n], input[h + n..]);
    }
    if tag: byte, length, content, rest :| LaidOut(input, tag, length, content, rest) {
      ParsesTo(tag, length, content, rest);
    }
  }

  // ---------------------------------------------------------------- parsing undoes printing

  function HeaderLength(n: nat): nat { 1 + |LengthBytes(n)| }

  /** Lengths that fit two octets are read back. */
  lemma LengthRead(tag: byte, n: nat, tail: seq<byte>)
    requires n < 0x1_0000
    ensures ReadLength([tag] + LengthBytes(n) + tail) == Some((n, HeaderLength(n)))
  {
    var input := [tag] + LengthBytes(n) + tail;
    if n > 255 {
      assert input[2..4] == [n / 256 % 256, n % 256];
      NumberTwo(n / 256 % 256, n % 256);
    } else if n >= 128 {
      assert input[2..3] == [n];
      NumberOne(n);
    }
  }

  lemma NumberOne(a: byte)
    ensures Number([a]) == a
  {
    assert [a][..0] == [];
  }

  lemma NumberTwo(a: byte, b: byte)
    ensures Number([a, b]) == a as nat * 256 + b as nat
  {
    assert [a, b][..1] == [a];
    NumberOne(a);
  }

  lemma ParseTlv(tag: byte, content: seq<byte>, tail: seq<byte>)
    requires |content| < 0x1_0000
    ensures Parse(Tlv(tag, content) + tail) == Ok(Element(tag, HeaderLength(|content|), content, Tlv(tag, content)), tail)
  {
    var input := Tlv(tag, content) + tail;
    var h := HeaderLength(|content|);
    assert input == [tag] + LengthBytes(|content|) + (content + tail);
    LengthRead(tag, |content|, content + tail);
    assert input[h..h + |content|] == content && input[..h + |content|] == Tlv(tag, content) && input[h + |content|..] == tail;
  }

  lemma {:induction false} DropZerosKeeps(v: seq<byte>)
    ensures Number(DropZeros(v)) == Number(v) && |DropZeros(v)| <= |v|
    ensures v != [] ==> DropZeros(v) != [] && (|DropZeros(v)| > 1 ==> DropZeros(v)[0] != 0)
    decreases |v|
  {
    if |v| > 1 && v[0] == 0 {
      DropZerosKeeps(v[1..]);
      LeadingZero(v[1..]);
      assert [0] + v[1..] == v;
    }
  }

  lemma {:induction false} LeadingZero(v: seq<byte>)
    ensures Number([0] + v) == Number(v)
    decreases |v|
  {
    if v == [] {
      NumberOne(0);
      assert [0] + v == [0];
    } else {
      assert ([0] + v)[..|v|] == [0] + v[..|v| - 1];
      LeadingZero(v[..|v| - 1]);
    }
  }

  /** A DER INTEGER that is not negative and has no octet to spare (section 8.3 of X.690). */
  predicate MinimalNonNegative(c: seq<byte>) { c != [] && c[0] < 128 && (|c| > 1 && c[0] == 0 ==> c[1] >= 128) }

  /** The printed content is a minimal non-negative INTEGER of the same value. */
  lemma IntegerKeepsValue(v: seq<byte>)
    requires v != []
    ensures Number(IntegerContent(v)) == Number(v) && MinimalNonNegative(IntegerContent(v))
    ensures |IntegerContent(v)| <= |v| + 1
  {
    DropZerosKeeps(v);
    LeadingZero(DropZeros(v));
  }

  lemma TwoChildren(a: seq<byte>, b: seq<byte>)
    requires |a| < 0x1_0000 && |b| < 0x1_0000
    ensures ChildrenFrom([], Tlv(INTEGER, a) + Tlv(INTEGER, b)) ==
            Kids([Element(INTEGER, HeaderLength(|a|), a, Tlv(INTEGER, a)), Element(INTEGER, HeaderLength(|b|), b, Tlv(INTEGER, b))])
  {
    var x, y := Tlv(INTEGER, a), Tlv(INTEGER, b);
    var ex, ey := Element(INTEGER, HeaderLength(|a|), a, x), Element(INTEGER, HeaderLength(|b|), b, y);
    ParseTlv(INTEGER, a, y);
    ParseTlv(INTEGER, b, []);
    assert y + [] == y && [] + [ex] == [ex] && [ex] + [ey] == [ex, ey];
    assert ChildrenFrom([ex, ey], []) == Kids([ex, ey]);
    assert ChildrenFrom([ex], y) == ChildrenFrom([ex] + [ey], []);
  }

  /** While its content fits the two-octet length, the printed key parses back to one SEQUENCE with nothing
    * after it, whose children are exactly the modulus and the exponent as minimal non-negative INTEGERs. */
  lemma KeyRoundTrip(key: seq<byte>)
    requires KeyParts(key).Some?
    ensures var (exponent, modulus) := KeyParts(key).value; var content := KeyContent(exponent, modulus);
      |content| < 0x1_0000 ==>
        var p := Parse(KeyToDer(key).value);
        && p.Ok? && p.rest == [] && p.element.tag == SEQUENCE && p.element.content == content
        && var kids := ChildrenFrom([], p.element.content);
        && kids.Kids? && |kids.elements| == 2 && (forall e <- kids.elements :: e.tag == INTEGER && MinimalNonNegative(e.content))
        && Number(kids.elements[0].content) == Number(modulus) && Number(kids.elements[1].content) == Number(exponent)
  {
    var (exponent, modulus) := KeyParts(key).value;
    var content := KeyContent(exponent, modulus);
    if |content| < 0x1_0000 {
      ParseTlv(SEQUENCE, content, []);
      assert Tlv(SEQUENCE, content) + [] == Tlv(SEQUENCE, content);
      IntegerKeepsValue(modulus);
      IntegerKeepsValue(exponent);
      TwoChildren(IntegerContent(modulus), IntegerContent(exponent));
    }
  }

  /** The key parses back whole exactly when its content fits: a longer one is printed with its length cut. */
  lemma KeyParsesWholeExactly(key: seq<byte>)
    requires KeyParts(key).Some?
    ensures var (exponent, modulus) := KeyParts(key).value; var p := Parse(KeyToDer(key).value);
      (p.Ok? && p.rest == []) <==> |KeyContent(exponent, modulus)| < 0x1_0000
  {
    var (exponent, modulus) := KeyParts(key).value;
    var content := KeyContent(exponent, modulus);
    if |content| < 0x1_0000 {
      KeyRoundTrip(key);
    } else {
      LongIsCut(SEQUENCE, content);
    }
  }

  lemma LongIsCut(tag: byte, content: seq<byte>)
    requires |content| >= 0x1_0000
    ensures Parse(Tlv(tag, content)).Ok? ==> Parse(Tlv(tag, content)).rest != []
  {
    var n := |content|;
    var input := Tlv(tag, content);
    assert input[1] == 0x82 && input[2..4] == [n / 256 % 256, n % 256];
    NumberTwo(n / 256 % 256, n % 256);
    assert |input| == 4 + n;
  }

  // ---------------------------------------------------------------- keys as section 2 of RFC 3110 prints them

  /** The length of the exponent in one octet, then exponent and modulus. */
  function ShortKey(e: seq<byte>, n: seq<byte>): seq<byte>
    requires |e| < 0x100
  {
    [|e|] + e + n
  }

  /** The length of the exponent in two octets after a zero. */
  function LongKey(e: seq<byte>, n: seq<byte>): seq<byte>
    requires |e| < 0x1_0000
  {
    [0, |e| / 256, |e| % 256] + e + n
  }

  /** `key` holds the exponent `e` and the modulus `n`, neither of them empty. */
  predicate Prints(key: seq<byte>, e: seq<byte>, n: seq<byte>) {
    e != [] && n != [] && ((|e| < 0x100 && key == ShortKey(e, n)) || (|e| < 0x1_0000 && key == LongKey(e, n)))
  }

  lemma PartsOfPrinted(key: seq<byte>, e: seq<byte>, n: seq<byte>)
    requires Prints(key, e, n)
    ensures KeyParts(key) == Some((e, n))
  {
    if |e| < 0x100 && key == ShortKey(e, n) {
      assert key[1..1 + |e|] == e && key[1 + |e|..] == n;
    } else {
      assert key[3..3 + |e|] == e && key[3 + |e|..] == n;
    }
  }

  lemma PartsArePrinted(key: seq<byte>)
    requires KeyParts(key).Some?
    ensures Prints(key, KeyParts(key).value.0, KeyParts(key).value.1)
  {
    var (e, n) := KeyParts(key).value;
    if key[0] == 0 {
      assert key == [0, key[1], key[2]] + e + n;
    } else {
      assert key == [key[0]] + e + n;
    }
  }

  /** The printer gives up on exactly the keys that no exponent and modulus make. */
  lemma NoneExactlyWhenNotAKey(key: seq<byte>)
    ensures KeyToDer(key) == None <==> !exists e, n :: Prints(key, e, n)
  {
    if KeyParts(key).Some? {
      PartsArePrinted(key);
    } else if e, n :| Prints(key, e, n) {
      PartsOfPrinted(key, e, n);
    }
  }

  /** The elements that parsing the whole printed key finds inside its SEQUENCE, if it is one with nothing after it. */
  function Inside(der: seq<byte>): Children {
    var p := Parse(der);
    if p.Err? then Bad(p.error)
    else if p.element.tag != 0x30 || p.rest != [] then Bad(BadLength)
    else ChildrenFrom([], p.element.content)
  }

  predicate IsInteger(e: Element, value: nat) {
    e.tag == 0x02 && MinimalNonNegative(e.content) && Number(e.content) == value
  }

  /** Of a key made of an exponent and a modulus, with the length of the exponent in either form, the printed
    * key holds the modulus and then the exponent, while its content fits the two-octet length. */
  lemma PrintedKeyHoldsModulusThenExponent(key: seq<byte>, e: seq<byte>, n: seq<byte>)
    requires Prints(key, e, n)
    ensures KeyToDer(key).Some?
    ensures |Tlv(INTEGER, IntegerContent(n))| + |Tlv(INTEGER, IntegerContent(e))| < 0x1_0000 ==>
              var kids := Inside(KeyToDer(key).value);
              && kids.Kids? && |kids.elements| == 2
              && IsInteger(kids.elements[0], Number(n)) && IsInteger(kids.elements[1], Number(e))
  {
    PartsOfPrinted(key, e, n);
    KeyRoundTrip(key);
  }
}
