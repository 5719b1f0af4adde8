/** Which addresses are never limited, and which requests share a bucket (src/security/rate_limit.rs), by the
  * numbers that addresses stand for. */
module Addresses {
  import opened Text
  import opened Wrappers
  import opened RateLimit

  predicate WellFormed(ip: Ip) {
    && ValidIp(ip)
    && match ip
       case V4(o) => forall i | 0 <= i < 4 :: o[i] < 256
       case V6(g) => forall i | 0 <= i < 8 :: g[i] < 0x1_0000
  }

  /** The number of 32 bits. */
  function Number4(o: seq<nat>): nat
    requires |o| == 4
  {
    ((o[0] * 256 + o[1]) * 256 + o[2]) * 256 + o[3]
  }

  /** The number of 128 bits. */
  function Number6(g: seq<nat>): nat
    requires |g| == 8
  {
    Number4By(g[..4]) * 0x1_0000_0000_0000_0000 + Number4By(g[4..])
  }

  /** Four groups of 16 bits. */
  function Number4By(g: seq<nat>): nat
    requires |g| == 4
  {
    ((g[0] * 0x1_0000 + g[1]) * 0x1_0000 + g[2]) * 0x1_0000 + g[3]
  }

  /** 127.0.0.0/8, 10.0.0.0/8, 172.16.0.0/12, 192.168.0.0/16 and 169.254.0.0/16. */
  predicate Private4(n: nat) {
    || 0x7F00_0000 <= n <= 0x7FFF_FFFF || 0x0A00_0000 <= n <= 0x0AFF_FFFF || 0xAC10_0000 <= n <= 0xAC1F_FFFF
    || 0xC0A8_0000 <= n <= 0xC0A8_FFFF || 0xA9FE_0000 <= n <= 0xA9FE_FFFF
  }

  /** ::1, fc00::/7 and fe80::/10. */
  predicate Private6(n: nat) {
    || n == 1
    || 0xFC00_0000_0000_0000_0000_0000_0000_0000 <= n <= 0xFDFF_FFFF_FFFF_FFFF_FFFF_FFFF_FFFF_FFFF
    || 0xFE80_0000_0000_0000_0000_0000_0000_0000 <= n <= 0xFEBF_FFFF_FFFF_FFFF_FFFF_FFFF_FFFF_FFFF
  }

  /** ::ffff:0:0/96 */
  predicate Mapped(n: nat) { 0xFFFF_0000_0000 <= n <= 0xFFFF_FFFF_FFFF }

  /** The number of an address, IPv4 addresses as they are mapped into IPv6. */
  function NumberOf(ip: Ip): nat
    requires ValidIp(ip)
  {
    match ip
    case V4(o) => 0xFFFF_0000_0000 + Number4(o)
    case V6(g) => Number6(g)
  }

  // ---------------------------------------------------------------- addresses and their numbers

  lemma SmallNumber(o: seq<nat>)
    requires |o| == 4 && forall i | 0 <= i < 4 :: o[i] < 256
    ensures Number4(o) < 0x1_0000_0000
    ensures o[0] == Number4(o) / 0x100_0000 && o[1] == Number4(o) / 0x1_0000 % 256
  {
  }

  lemma GroupsNumber(g: seq<nat>)
    requires |g| == 4 && forall i | 0 <= i < 4 :: g[i] < 0x1_0000
    ensures Number4By(g) < 0x1_0000_0000_0000_0000 && g[0] == Number4By(g) / 0x1_0000_0000_0000
    ensures Number4By(g) % 0x1_0000_0000 == g[2] * 0x1_0000 + g[3] &&
            Number4By(g) / 0x1_0000_0000 == g[0] * 0x1_0000 + g[1]
  {
  }

  lemma MappedGroups(g: seq<nat>)
    requires |g| == 8 && forall i | 0 <= i < 8 :: g[i] < 0x1_0000
    ensures Mapped(Number6(g)) <==> g[..5] == [0, 0, 0, 0, 0] && g[5] == 0xFFFF
    ensures Number6(g) == 1 <==> g == [0, 0, 0, 0, 0, 0, 0, 1]
    ensures g[0] == Number6(g) / 0x1_0000_0000_0000_0000_0000_0000_0000
  {
    GroupsNumber(g[..4]);
    GroupsNumber(g[4..]);
  }

  /** Addresses are their numbers, once IPv4-mapped ones stand for IPv4 ones. */
  lemma CanonicalIsNumber(a: Ip, b: Ip)
    requires WellFormed(a) && WellFormed(b)
    ensures Canonical(a) == Canonical(b) <==> NumberOf(a) == NumberOf(b)
  {
    CanonicalKeepsNumber(a);
    CanonicalKeepsNumber(b);
    if NumberOf(a) == NumberOf(b) { SameNumber(Canonical(a), Canonical(b)); }
  }

  /** Not an IPv4-mapped IPv6 address. */
  predicate Plain(ip: Ip)
    requires ValidIp(ip)
  {
    ip.V6? ==> !Mapped(NumberOf(ip))
  }

  lemma CanonicalKeepsNumber(ip: Ip)
    requires WellFormed(ip)
    ensures WellFormed(Canonical(ip)) && NumberOf(Canonical(ip)) == NumberOf(ip) && Plain(Canonical(ip))
  {
    if ip.V6? {
      MappedGroups(ip.groups);
      if Mapped(NumberOf(ip)) { MappedNumber(ip.groups); }
    }
  }

  lemma MappedNumber(g: seq<nat>)
    requires |g| == 8 && (forall i | 0 <= i < 8 :: g[i] < 0x1_0000) && Mapped(Number6(g))
    ensures Number6(g) == 0xFFFF_0000_0000 + Number4([g[6] / 256, g[6] % 256, g[7] / 256, g[7] % 256])
  {
    MappedGroups(g);
    assert g[..5][0] == 0 && g[..5][1] == 0 && g[..5][2] == 0 && g[..5][3] == 0 && g[..5][4] == 0;
    HalfGroups(g[6]);
    HalfGroups(g[7]);
  }

  lemma HalfGroups(x: nat)
    ensures x / 256 * 256 + x % 256 == x
  {
  }

  lemma SameNumber(a: Ip, b: Ip)
    requires WellFormed(a) && WellFormed(b) && Plain(a) && Plain(b) && NumberOf(a) == NumberOf(b)
    ensures a == b
  {
    MappedV4(a);
    MappedV4(b);
    if a.V4? {
      SameOctets(a.octets, b.octets);
    } else {
      SameGroups(a.groups, b.groups);
    }
  }

  lemma MappedV4(ip: Ip)
    requires WellFormed(ip)
    ensures ip.V4? ==> Mapped(NumberOf(ip))
  {
    if ip.V4? { SmallNumber(ip.octets); }
  }

  lemma SameOctets(a: seq<nat>, b: seq<nat>)
    requires |a| == |b| == 4 && (forall i | 0 <= i < 4 :: a[i] < 256 && b[i] < 256) && Number4(a) == Number4(b)
    ensures a == b
  {
    SameParts((a[0] * 256 + a[1]) * 256 + a[2], a[3], (b[0] * 256 + b[1]) * 256 + b[2], b[3], 256);
    SameParts(a[0] * 256 + a[1], a[2], b[0] * 256 + b[1], b[2], 256);
    SameParts(a[0], a[1], b[0], b[1], 256);
  }

  lemma SameGroups(a: seq<nat>, b: seq<nat>)
    requires |a| == |b| == 8 && (forall i | 0 <= i < 8 :: a[i] < 0x1_0000 && b[i] < 0x1_0000) &&
             Number6(a) == Number6(b)
    ensures a == b
  {
    GroupsNumber(a[..4]);
    GroupsNumber(a[4..]);
    GroupsNumber(b[..4]);
    GroupsNumber(b[4..]);
    SameHalf(a[..4], b[..4]);
    SameHalf(a[4..], b[4..]);
    assert a == a[..4] + a[4..] && b == b[..4] + b[4..];
  }

  lemma SameHalf(a: seq<nat>, b: seq<nat>)
    requires |a| == |b| == 4 && (forall i | 0 <= i < 4 :: a[i] < 0x1_0000 && b[i] < 0x1_0000) &&
             Number4By(a) == Number4By(b)
    ensures a == b
  {
    SameParts((a[0] * 0x1_0000 + a[1]) * 0x1_0000 + a[2], a[3], (b[0] * 0x1_0000 + b[1]) * 0x1_0000 + b[2], b[3], 0x1_0000);
    SameParts(a[0] * 0x1_0000 + a[1], a[2], b[0] * 0x1_0000 + b[1], b[2], 0x1_0000);
    SameParts(a[0], a[1], b[0], b[1], 0x1_0000);
  }

  lemma SameParts(x: nat, y: nat, x': nat, y': nat, base: nat)
    requires base in {256, 0x1_0000} && y < base && y' < base && x * base + y == x' * base + y'
    ensures x == x' && y == y'
  {
  }

  // ---------------------------------------------------------------- the two functions

  /** An address is exempt exactly if its number lies in one of the private ranges. */
  lemma ExemptByRanges(ip: Ip)
    requires WellFormed(ip)
    ensures var n := NumberOf(ip); IsExempt(ip) <==> Private6(n) || (Mapped(n) && Private4(n - 0xFFFF_0000_0000))
  {
    CanonicalKeepsNumber(ip);
    match Canonical(ip) {
      case V4(o) => Ranges4(o);
      case V6(g) => Ranges6(g);
    }
  }

  lemma Ranges4(o: seq<nat>)
    requires |o| == 4 && forall i | 0 <= i < 4 :: o[i] < 256
    ensures Private4(Number4(o)) <==>
            || o[0] == 127 || o[0] == 10 || (o[0] == 172 && 16 <= o[1] <= 31) || (o[0] == 192 && o[1] == 168)
            || (o[0] == 169 && o[1] == 254)
    ensures var n := 0xFFFF_0000_0000 + Number4(o); Mapped(n) && !Private6(n)
  {
    SmallNumber(o);
  }

  lemma Ranges6(g: seq<nat>)
    requires |g| == 8 && forall i | 0 <= i < 8 :: g[i] < 0x1_0000
    ensures Private6(Number6(g)) <==>
            g == [0, 0, 0, 0, 0, 0, 0, 1] || 0xFC00 <= g[0] <= 0xFDFF || 0xFE80 <= g[0] <= 0xFEBF
  {
    MappedGroups(g);
  }

  /** The part of a device name that counts. */
  function DeviceKey(device: string): string { if |Trim(device)| > 64 then Trim(device)[..64] else Trim(device) }

  /** Two requests share a bucket exactly if their addresses have one number and they name no device, or both
    * one with the same first 64 octets. */
  lemma SameIdentityExactly(a: Ip, x: Option<string>, b: Ip, y: Option<string>)
    requires WellFormed(a) && WellFormed(b)
    ensures IdentityOf(a, x) == IdentityOf(b, y) <==>
            && NumberOf(a) == NumberOf(b)
            && ((x.None? && y.None?) || (x.Some? && y.Some? && DeviceKey(x.value) == DeviceKey(y.value)))
  {
    CanonicalIsNumber(a, b);
  }
}
