/** Base32 with the extended hex alphabet keeps the order of octet strings (section 7 of RFC 4648), which is what
  * lets NSEC3 owner names be compared as text; and the alphabet itself. */
module Base32Order {
  import opened Bytes
  import opened Wrappers
  import opened Powers
  import Text
  import opened Base32

  /** Table 4 of RFC 4648, in lower case. */
  const ALPHABET := "0123456789abcdefghijklmnopqrstuv"

  predicate NatLess(x: nat, y: nat) { x < y }
  predicate NatsLess(a: seq<nat>, b: seq<nat>) { LexLess(NatLess, a, b) }
  predicate CharLess(x: char, y: char) { x < y }
  predicate ByteLess(x: byte, y: byte) { x < y }

  /** Values print as the alphabet says, and are read back from it. */
  lemma AlphabetIs(v: nat)
    requires v < 32
    ensures |ALPHABET| == 32 && CharOf(v) == ALPHABET[v] && ValueOf(ALPHABET[v]) == Some(v)
  {
    if v < 16 { LowHalf(v); } else { HighHalf(v); }
  }

  lemma LowHalf(v: nat)
    requires v < 16
    ensures CharOf(v) == ALPHABET[v] && ValueOf(ALPHABET[v]) == Some(v)
  {
  }

  lemma HighHalf(v: nat)
    requires 16 <= v < 32
    ensures CharOf(v) == ALPHABET[v] && ValueOf(ALPHABET[v]) == Some(v)
  {
  }

  /** No other character is read. */
  lemma OnlyAlphabet(c: char)
    requires ValueOf(c).Some?
    ensures ALPHABET[ValueOf(c).value] == c
  {
    var v := ValueOf(c).value;
    AlphabetIs(v);
    assert CharOf(v) == c;
  }

  /** Encoded text is read back in any case of letters and with white space around it. */
  lemma ReadInAnyCase(data: seq<byte>, text: string)
    requires Text.Lower(Text.Trim(text)) == Encode(data)
    ensures Decode(text) == Some(data)
  {
    RoundTrip(data);
    CharsClean(EncodeFrom(data, 0, 0));
  }

  // ---------------------------------------------------------------- order of values

  lemma LexHead(x: nat, a: seq<nat>, y: nat, b: seq<nat>)
    ensures NatsLess([x] + a, [y] + b) <==> if x == y then NatsLess(a, b) else x < y
  {
    assert ([x] + a)[1..] == a && ([y] + b)[1..] == b;
  }

  /** A number comes before another by its quotient, and then by its remainder. */
  lemma QuotientOrder(v: nat, w: nat, p: nat)
    requires p > 0
    ensures v < w <==> v / p < w / p || (v / p == w / p && v % p < w % p)
    ensures v == w <==> v / p == w / p && v % p == w % p
  {
    Divided(v, p);
    Divided(w, p);
    PartsOrder(v, v / p, v % p, w, w / p, w % p, p);
  }

  lemma Divided(v: nat, p: nat)
    requires p > 0
    ensures v == v / p * p + v % p
  {
  }

  lemma PartsOrder(v: nat, q: int, e: nat, w: nat, q': int, e': nat, p: nat)
    requires e < p && e' < p && v == q * p + e && w == q' * p + e'
    ensures v < w <==> q < q' || (q == q' && e < e')
    ensures v == w <==> q == q' && e == e'
  {
    if q < q' { Times(q, q', p); }
    if q' < q { Times(q', q, p); }
  }

  lemma Times(q: int, q': int, p: nat)
    requires q < q'
    ensures q * p + p <= q' * p
  {
    var d := q' - q - 1;
    assert q' * p == q * p + p + d * p;
  }

  /** The values taken from two numbers of `n` bits, in front of others. */
  lemma EmittedOrder(v: nat, w: nat, n: nat, a: seq<nat>, b: seq<nat>)
    requires 8 <= n <= 12
    ensures var p := Pow2(n % 5);
      NatsLess(EmitLow(v, n) + a, EmitLow(w, n) + b) <==> v / p < w / p || (v / p == w / p && NatsLess(a, b))
  {
    if n < 10 {
      assert n % 5 == n - 5;
      OneOrder(v, w, n, a, b);
    } else {
      assert n % 5 == n - 10;
      TwoOrder(v, w, n, a, b);
    }
  }

  lemma OneOrder(v: nat, w: nat, n: nat, a: seq<nat>, b: seq<nat>)
    requires 5 <= n < 10
    ensures var p := Pow2(n - 5);
      NatsLess(EmitLow(v, n) + a, EmitLow(w, n) + b) <==> v / p < w / p || (v / p == w / p && NatsLess(a, b))
  {
    EmitOne(v, n);
    EmitOne(w, n);
    LexHead(EmitLow(v, n)[0], a, EmitLow(w, n)[0], b);
  }

  lemma TwoOrder(v: nat, w: nat, n: nat, a: seq<nat>, b: seq<nat>)
    requires 10 <= n <= 12
    ensures var p := Pow2(n - 10);
      NatsLess(EmitLow(v, n) + a, EmitLow(w, n) + b) <==> v / p < w / p || (v / p == w / p && NatsLess(a, b))
  {
    var p := Pow2(n - 10);
    SmallPowers();
    assert Pow2(n - 5) == 32 * p;
    EmitTwo(v, n);
    EmitTwo(w, n);
    var x, x', y, y' := v / Pow2(n - 5), v % Pow2(n - 5) / p, w / Pow2(n - 5), w % Pow2(n - 5) / p;
    assert [x, x'] + a == [x] + ([x'] + a) && [y, y'] + b == [y] + ([y'] + b);
    LexHead(x, [x'] + a, y, [y'] + b);
    LexHead(x', a, y', b);
    Halves(v, p);
    Halves(w, p);
  }

  /** The quotient in two steps: first 32 times as much. */
  lemma Halves(v: nat, p: nat)
    requires p in {1, 2, 4}
    ensures v / p == v / (32 * p) * 32 + v % (32 * p) / p && v % (32 * p) / p < 32
  {
  }

  /** `e` and `f` are the bits left over in front of `a` and `b`. */
  lemma {:induction false} EncodedOrder(a: seq<byte>, b: seq<byte>, e: nat, f: nat, r: nat)
    requires r < 5 && e < Pow2(r) && f < Pow2(r)
    ensures NatsLess(EncodeLow(a, e, r), EncodeLow(b, f, r)) <==> e < f || (e == f && LexLess(ByteLess, a, b))
    decreases |a|
  {
    SmallPowers();
    if a == [] || b == [] {
      EndOrder(a, b, e, f, r);
    } else {
      var v, w, r' := e * 256 + a[0], f * 256 + b[0], (r + 8) % 5;
      var p := Pow2(r');
      EncodeCons(a, e, r);
      EncodeCons(b, f, r);
      EmittedOrder(v, w, r + 8, EncodeLow(a[1..], v % p, r'), EncodeLow(b[1..], w % p, r'));
      EncodedOrder(a[1..], b[1..], v % p, w % p, r');
      QuotientOrder(v, w, p);
    }
  }

  /** A longer text against one that ends in the value `f * k`. */
  lemma LongerAgainstLast(e: nat, t: nat, x: seq<nat>, f: nat, k: nat)
    requires t < k
    ensures NatsLess([e * k + t] + x, [f * k]) <==> e < f
  {
    LexHead(e * k + t, x, f * k, []);
    assert [f * k] == [f * k] + [];
    PartsOrder(e * k + t, e, t, f * k, f, 0, k);
  }

  lemma LastAgainstLonger(e: nat, f: nat, t: nat, y: seq<nat>, k: nat)
    requires t < k && y != []
    ensures NatsLess([e * k], [f * k + t] + y) <==> e <= f
  {
    LexHead(e * k, [], f * k + t, y);
    assert [e * k] == [e * k] + [];
    PartsOrder(e * k, e, 0, f * k + t, f, t, k);
  }

  lemma LastAgainstLast(e: nat, f: nat, k: nat)
    requires k > 0
    ensures NatsLess([e * k], [f * k]) <==> e < f
  {
    LongerAgainstLast(e, 0, [], f, k);
    assert [e * k] == [e * k + 0] + [];
  }

  /** One of the strings has come to its end. */
  lemma EndOrder(a: seq<byte>, b: seq<byte>, e: nat, f: nat, r: nat)
    requires r < 5 && e < Pow2(r) && f < Pow2(r) && (a == [] || b == [])
    ensures NatsLess(EncodeLow(a, e, r), EncodeLow(b, f, r)) <==> e < f || (e == f && LexLess(ByteLess, a, b))
  {
    SmallPowers();
    var k := Pow2(5 - r);
    if a != [] {
      var x, t := FirstValue(a, e, r);
      if r > 0 { LongerAgainstLast(e, t, x, f, k); }
    } else if b != [] {
      var y, t := FirstValue(b, f, r);
      if r > 0 { LastAgainstLonger(e, f, t, y, k); }
    } else if r > 0 {
      LastAgainstLast(e, f, k);
    }
  }

  /** The first value of a string that is not empty; it is not the last. */
  lemma FirstValue(a: seq<byte>, e: nat, r: nat) returns (rest: seq<nat>, t: nat)
    requires r < 5 && e < Pow2(r) && a != []
    ensures EncodeLow(a, e, r) == [e * Pow2(5 - r) + t] + rest && rest != [] && t < Pow2(5 - r)
  {
    var q, more := FirstEmitted(e * 256 + a[0], r + 8);
    var tail := AfterFirst(a, e, r);
    t := FirstQuint(e, a[0], r);
    rest := more + tail;
    assert [q] + more + tail == [q] + rest;
  }

  lemma AfterFirst(a: seq<byte>, e: nat, r: nat) returns (tail: seq<nat>)
    requires r < 5 && a != []
    ensures EncodeLow(a, e, r) == EmitLow(e * 256 + a[0], r + 8) + tail && (r < 2 ==> tail != [])
  {
    var left: nat := (e * 256 + a[0]) % Pow2((r + 8) % 5);
    EncodeCons(a, e, r);
    tail := EncodeLow(a[1..], left, (r + 8) % 5);
    if r < 2 { MoreValues(a[1..], left, (r + 8) % 5); }
  }

  lemma FirstEmitted(v: nat, n: nat) returns (q: nat, more: seq<nat>)
    requires 8 <= n <= 12
    ensures EmitLow(v, n) == [q] + more && q == v / Pow2(n - 5) && (n >= 10 ==> more != [])
  {
    if n < 10 {
      EmitOne(v, n);
      q, more := EmitLow(v, n)[0], [];
    } else {
      EmitTwo(v, n);
      q, more := EmitLow(v, n)[0], EmitLow(v, n)[1..];
    }
  }

  lemma FirstQuint(e: nat, b: byte, r: nat) returns (t: nat)
    requires r < 5
    ensures (e * 256 + b) / Pow2(r + 3) == e * Pow2(5 - r) + t && t < Pow2(5 - r)
  {
    SmallPowers();
    if r == 0 { t := b / 8; }
    else if r == 1 { t := b / 16; }
    else if r == 2 { t := b / 32; }
    else if r == 3 { t := b / 64; }
    else { t := b / 128; }
  }

  lemma MoreValues(a: seq<byte>, e: nat, r: nat)
    requires 0 < r < 5
    ensures EncodeLow(a, e, r) != []
  {
  }

  // ---------------------------------------------------------------- order of texts

  lemma CharOrder(v: nat, w: nat)
    requires v < 32 && w < 32
    ensures CharOf(v) < CharOf(w) <==> v < w
    ensures CharOf(v) == CharOf(w) <==> v == w
  {
  }

  lemma {:induction false} CharsOrder(x: seq<Quint>, y: seq<Quint>, m: seq<nat>, n: seq<nat>)
    requires x == m && y == n
    ensures LexLess(CharLess, Chars(x), Chars(y)) <==> NatsLess(m, n)
    decreases |x|
  {
    if x == [] || y == [] {
    } else {
      CharOrder(x[0], y[0]);
      assert Chars(x)[1..] == Chars(x[1..]) && Chars(y)[1..] == Chars(y[1..]);
      CharsOrder(x[1..], y[1..], m[1..], n[1..]);
    }
  }

  /** Octet strings come in the order of their texts, prefixes first. */
  lemma TextKeepsOrder(a: seq<byte>, b: seq<byte>)
    ensures LexLess(CharLess, Encode(a), Encode(b)) <==> LexLess(ByteLess, a, b)
  {
    SmallPowers();
    EncodeIsLow(a, 0, 0);
    EncodeIsLow(b, 0, 0);
    CharsOrder(EncodeFrom(a, 0, 0), EncodeFrom(b, 0, 0), EncodeLow(a, 0, 0), EncodeLow(b, 0, 0));
    EncodedOrder(a, b, 0, 0, 0);
  }
}
