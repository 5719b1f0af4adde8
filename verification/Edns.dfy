/** EDNS options appended to whole messages (section 6.1 of RFC 6891, RFC 7873, RFC 8914;
  * src/dns/parser.rs): EDE and COOKIE, and reading them back. */
module Edns {
  import opened Bytes
  import opened Wrappers
  import opened WireNames
  import opened Messages

  datatype EdnsOption = EdnsOption(code: nat, data: seq<byte>)

  const EDE := 15
  const COOKIE := 10

  function OptionBytes(o: EdnsOption): seq<byte> { U16(o.code) + (U16(|o.data|) + o.data) }

  function OptionsBytes(os: seq<EdnsOption>): seq<byte> {
    if os == [] then [] else OptionBytes(os[0]) + OptionsBytes(os[1..])
  }

  predicate ValidOption(o: EdnsOption) { o.code < 0x1_0000 && |o.data| < 0x1_0000 }

  predicate ValidOptions(os: seq<EdnsOption>) { forall o <- os :: ValidOption(o) }

  // ---------------------------------------------------------------- on bytes

  function Min(a: nat, b: nat): nat { if a < b then a else b }

  /** The fixed part of a fresh OPT record: root name, type, payload size 4096, no flags. */
  const FRESH_OPT: seq<byte> := [0, 0, 41, 16, 0, 0, 0, 0, 0]

  /** `ede_append_new_opt` */
  function NewOpt(wire: seq<byte>, option: seq<byte>): seq<byte>
    requires |wire| >= HEADER
  {
    wire[..10] + U16(Min(ReadU16(wire, 10) + 1, 65535)) + wire[12..] + FRESH_OPT + U16(|option|) + option
  }

  /** Where RDATA ends in the record whose fixed part is at `p`. */
  function RdataEnd(wire: seq<byte>, p: nat): nat
    requires p + 10 <= |wire|
  {
    p + 10 + ReadU16(wire, p + 8)
  }

  /** RDATA replaced in the record whose fixed part is at `p`. */
  function Replace(wire: seq<byte>, p: nat, rdata: seq<byte>): seq<byte>
    requires p + 10 <= |wire| && RdataEnd(wire, p) <= |wire|
  {
    wire[..p + 8] + U16(|rdata|) + rdata + wire[RdataEnd(wire, p)..]
  }

  /** The option inserted where the RDATA of the record whose fixed part is at `p` ends. */
  function Splice(wire: seq<byte>, p: nat, option: seq<byte>): seq<byte>
    requires p + 10 <= |wire| && RdataEnd(wire, p) <= |wire|
  {
    Replace(wire, p, wire[p + 10..RdataEnd(wire, p)] + option)
  }

  /** The option added to a message whose OPT record is at `found`. */
  function AppendTo(wire: seq<byte>, found: Option<nat>, option: seq<byte>): seq<byte>
    requires |wire| >= HEADER && (found.Some? ==> found.value + 10 <= |wire|)
  {
    match found
    case None => NewOpt(wire, option)
    case Some(p) =>
      if RdataEnd(wire, p) > |wire| || ReadU16(wire, p + 8) + |option| > 65535 then wire else Splice(wire, p, option)
  }

  /** What `append_ede_to_response` and `append_cookie_to_response` leave. */
  function AppendOption(wire: seq<byte>, option: seq<byte>): seq<byte> {
    if |wire| < HEADER then wire else AppendTo(wire, OptOf(wire), option)
  }

  function HasEdns(wire: seq<byte>): bool { |wire| >= HEADER && OptOf(wire).Some? }

  datatype Cookie = Cookie(client: seq<byte>, server: Option<seq<byte>>)

  function ToCookie(data: seq<byte>): Cookie
    requires |data| >= 8
  {
    Cookie(data[..8], if |data| >= 16 then Some(data[8..]) else None)
  }

  /** The first COOKIE option of at least eight octets in `buf[pos..end]`. */
  function ScanCookie(buf: seq<byte>, pos: nat, end: nat): Option<Cookie>
    requires end <= |buf|
    decreases end - pos
  {
    if pos + 4 > end || pos + 4 + ReadU16(buf, pos + 2) > end then None
    else
      var next := pos + 4 + ReadU16(buf, pos + 2);
      if ReadU16(buf, pos) == COOKIE && next - pos - 4 >= 8 then Some(ToCookie(buf[pos + 4..next]))
      else ScanCookie(buf, next, end)
  }

  function FindCookie(buf: seq<byte>, pos: nat, n: nat): Option<Cookie>
    decreases n
  {
    if n == 0 || pos >= |buf| then None
    else match SkipName(buf, pos)
      case None => None
      case Some(p) =>
        if p + 10 > |buf| then None
        else
          var end := RdataEnd(buf, p);
          var found := if ReadU16(buf, p) == OPT && end <= |buf| then ScanCookie(buf, p + 10, end) else None;
          if found.Some? then found else FindCookie(buf, end, n - 1)
  }

  /** What `parse_dns_cookie` returns. */
  function ReadCookie(wire: seq<byte>): Option<Cookie> {
    if |wire| < HEADER || AdditionalAt(wire).None? then None
    else FindCookie(wire, AdditionalAt(wire).value, ReadU16(wire, 10))
  }

  // ---------------------------------------------------------------- the source's methods

  function EdeOption(code: nat, text: seq<byte>): EdnsOption { EdnsOption(EDE, U16(code) + text[..Min(|text|, 256)]) }

  function CookieOption(client: seq<byte>, server: seq<byte>): EdnsOption { EdnsOption(COOKIE, client + server) }

  /** A response being edited in place: `wire: &mut Vec<u8>`. */
  class Response {
    var wire: seq<byte>

    constructor (wire: seq<byte>)
      ensures this.wire == wire
    {
      this.wire := wire;
    }

    /** `ede_append_new_opt` */
    method AppendNewOpt(option: seq<byte>)
      modifies this
      ensures wire == if |old(wire)| < HEADER then old(wire) else NewOpt(old(wire), option)
    {
      if |wire| < HEADER { return; }
      var arcount := ReadU16(wire, 10);
      var more := U16(Min(arcount + 1, 65535));
      wire := wire[10 := more[0]][11 := more[1]];
      assert wire == old(wire)[..10] + more + old(wire)[12..];
      wire := wire + FRESH_OPT;
      wire := wire + U16(|option|);
      wire := wire + option;
    }

    /** The part that `append_ede_to_response` and `append_cookie_to_response` have in common. */
    method Append(option: seq<byte>)
      modifies this
      ensures wire == AppendOption(old(wire), option)
    {
      if |wire| < HEADER { return; }
      var found := FindOptOf(wire);
      if found.None? {
        AppendNewOpt(option);
        return;
      }
      var p := found.value;
      var rdlen := ReadU16(wire, p + 8);
      if p + 10 + rdlen > |wire| || rdlen + |option| > 65535 { return; }
      SpliceOption(p, option);
    }

    /** RDLENGTH rewritten and the option inserted where RDATA ends. */
    method SpliceOption(p: nat, option: seq<byte>)
      requires p + 10 <= |wire| && RdataEnd(wire, p) <= |wire|
      modifies this
      ensures wire == Splice(old(wire), p, option)
    {
      var rdlen := ReadU16(wire, p + 8);
      var end := p + 10 + rdlen;
      var more := U16(rdlen + |option|);
      wire := wire[p + 8 := more[0]][p + 9 := more[1]];
      wire := wire[..end] + option + wire[end..];
      SpliceIs(old(wire), wire, p, option);
    }

    /** `append_ede_to_response` */
    method AppendEde(code: nat, text: seq<byte>)
      requires code < 0x1_0000
      modifies this
      ensures wire == AppendOption(old(wire), OptionBytes(EdeOption(code, text)))
    {
      var cut := if |text| > 256 then text[..256] else text;
      assert cut == text[..Min(|text|, 256)];
      var option := U16(EDE) + U16(2 + |cut|) + U16(code) + cut;
      assert option == OptionBytes(EdeOption(code, text));
      Append(option);
    }

    /** `append_cookie_to_response` */
    method AppendCookie(client: seq<byte>, server: seq<byte>)
      modifies this
      ensures wire == if client == [] || server == [] then old(wire)
                      else AppendOption(old(wire), OptionBytes(CookieOption(client, server)))
    {
      if client == [] || server == [] { return; }
      var option := U16(COOKIE) + U16(|client| + |server|) + client + server;
      assert option == OptionBytes(CookieOption(client, server));
      Append(option);
    }
  }

  lemma SpliceIs(before: seq<byte>, after: seq<byte>, p: nat, option: seq<byte>)
    requires p + 10 <= |before| && RdataEnd(before, p) <= |before|
    requires var end := RdataEnd(before, p); var more := U16(end - p - 10 + |option|);
      var edited := before[p + 8 := more[0]][p + 9 := more[1]]; after == edited[..end] + option + edited[end..]
    ensures after == Splice(before, p, option)
  {
    var end := RdataEnd(before, p);
    var more := U16(end - p - 10 + |option|);
    var edited := before[p + 8 := more[0]][p + 9 := more[1]];
    assert edited[..end] == before[..p + 8] + more + before[p + 10..end];
    assert edited[end..] == before[end..];
  }

  /** `has_edns` */
  method CheckEdns(wire: seq<byte>) returns (r: bool)
    ensures r == HasEdns(wire)
  {
    if |wire| < HEADER { return false; }
    if ReadU16(wire, 10) == 0 { return false; }
    var found := FindOptOf(wire);
    return found.Some?;
  }

  method ScanForCookie(buf: seq<byte>, start: nat, end: nat) returns (r: Option<Cookie>)
    requires end <= |buf|
    ensures r == ScanCookie(buf, start, end)
  {
    var pos := start;
    while pos + 4 <= end
      invariant ScanCookie(buf, pos, end) == ScanCookie(buf, start, end)
    {
      var length := ReadU16(buf, pos + 2);
      var next := pos + 4 + length;
      if next > end { return None; }
      if ReadU16(buf, pos) == COOKIE && length >= 8 {
        var client := buf[pos + 4..pos + 12];
        var server := if length >= 16 then Some(buf[pos + 12..next]) else None;
        assert buf[pos + 4..next][..8] == client && buf[pos + 4..next][8..] == buf[pos + 12..next];
        return Some(Cookie(client, server));
      }
      pos := next;
    }
    return None;
  }

  /** `parse_dns_cookie` */
  method ParseDnsCookie(wire: seq<byte>) returns (r: Option<Cookie>)
    ensures r == ReadCookie(wire)
  {
    if |wire| < HEADER { return None; }
    var start := SkipToAdditional(wire);
    if start.None? { return None; }
    var arcount := ReadU16(wire, 10);
    var pos: nat := start.value;
    for i := 0 to arcount
      invariant FindCookie(wire, pos, arcount - i) == ReadCookie(wire)
    {
      if pos >= |wire| { return None; }
      var p := SkipDnsName(wire, pos);
      if p.None? || p.value + 10 > |wire| { return None; }
      var end := RdataEnd(wire, p.value);
      if ReadU16(wire, p.value) == OPT && end <= |wire| {
        var found := ScanForCookie(wire, p.value + 10, end);
        if found.Some? { return found; }
      }
      pos := end;
    }
    return None;
  }
}
