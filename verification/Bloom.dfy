/** The Bloom filter (src/security/bloom.rs): a bit array probed by double hashing with an odd step.
  *
  * The hash rounds are parameters: everything here holds whatever they compute. Bits of a word are
  * listed least significant first; masks by a power of two less one are remainders.
  */
module Bloom {
  import opened Bytes
  import opened NameText
  import opened Powers

  /** Seeds, one round per octet, and the final mixer of the two hashes. */
  datatype Hasher = Hasher(seed: State, round1: (nat, byte) -> nat, round2: (nat, byte) -> nat, mix: nat -> nat)

  datatype State = State(h1: nat, h2: nat)

  /** The rounds of `dual_hash_bytes` over octets in lower case. */
  function Feed(h: Hasher, s: State, key: seq<byte>): State
    decreases |key|
  {
    if key == [] then s
    else Feed(h, State(h.round1(s.h1, LowerByte(key[0])), h.round2(s.h2, LowerByte(key[0]))), key[1..])
  }

  /** `x | 1` */
  function OrOne(x: nat): nat { if x % 2 == 1 then x else x + 1 }

  /** The i-th probe: `h1.wrapping_add(i.wrapping_mul(h2)) & mask`. */
  function Probe(h1: nat, h2: nat, i: nat, size: nat): (bit: nat)
    requires size > 0
    ensures bit < size
  {
    (h1 + i * h2 % TWO64) % TWO64 % size
  }

  /** The i-th probe of a key after its rounds. */
  function ProbeOf(h: Hasher, s: State, i: nat, size: nat): (bit: nat)
    requires size > 0
    ensures bit < size
  {
    Probe(h.mix(s.h1), OrOne(h.mix(s.h2)), i, size)
  }

  function Probes(h: Hasher, s: State, hashes: nat, size: nat): set<nat>
    requires size > 0
  {
    set i | 0 <= i < hashes :: ProbeOf(h, s, i, size)
  }

  // ---------------------------------------------------------------- cleaning keys

  predicate IsAsciiSpace(b: byte) { b == 9 || b == 10 || b == 12 || b == 13 || b == 32 }

  function DropFront(key: seq<byte>): seq<byte> {
    if key != [] && IsAsciiSpace(key[0]) then DropFront(key[1..]) else key
  }

  function DropBack(key: seq<byte>): seq<byte> {
    if key != [] && (IsAsciiSpace(key[|key| - 1]) || key[|key| - 1] == 46) then DropBack(key[..|key| - 1]) else key
  }

  /** `clean_domain_bytes` */
  function Clean(key: seq<byte>): seq<byte> { DropBack(DropFront(key)) }

  /** The white space of ASCII. */
  predicate Blank(b: byte) { b == ' ' as int || b == '\t' as int || b == '\n' as int || b == '\r' as int || b == 0x0C }

  predicate BlankOrDot(b: byte) { Blank(b) || b == '.' as int }

  lemma {:induction false} FrontDropped(key: seq<byte>) returns (front: seq<byte>)
    ensures key == front + DropFront(key) && forall i | 0 <= i < |front| :: Blank(front[i])
    ensures DropFront(key) != [] ==> !Blank(DropFront(key)[0])
    decreases |key|
  {
    if key != [] && IsAsciiSpace(key[0]) {
      var tail := key[1..];
      var rest := FrontDropped(tail);
      front := [key[0]] + rest;
      assert key == [key[0]] + tail;
      Reassociate([key[0]], rest, DropFront(tail));
    } else {
      front := [];
    }
  }

  lemma {:induction false} BackDropped(key: seq<byte>) returns (back: seq<byte>)
    ensures key == DropBack(key) + back && forall i | 0 <= i < |back| :: BlankOrDot(back[i])
    ensures DropBack(key) != [] ==> !BlankOrDot(DropBack(key)[|DropBack(key)| - 1])
    decreases |key|
  {
    if key != [] && BlankOrDot(key[|key| - 1]) {
      var n := |key| - 1;
      var body := key[..n];
      var rest := BackDropped(body);
      back := rest + [key[n]];
      assert key == body + [key[n]];
      Reassociate(DropBack(body), rest, [key[n]]);
    } else {
      back := [];
    }
  }

  /** Cleaning cuts white space in front, and white space and dots behind, all of it and nothing else. */
  lemma CleanCutsEnds(key: seq<byte>) returns (front: seq<byte>, back: seq<byte>)
    ensures var clean := Clean(key);
      && key == front + clean + back
      && (forall i | 0 <= i < |front| :: Blank(front[i])) && (forall i | 0 <= i < |back| :: BlankOrDot(back[i]))
      && (clean != [] ==> !Blank(clean[0]) && !BlankOrDot(clean[|clean| - 1]))
  {
    var tail := DropFront(key);
    front := FrontDropped(key);
    back := BackDropped(tail);
    var clean := DropBack(tail);
    if clean != [] { assert tail[0] == clean[0]; }
    Reassociate(front, clean, back);
  }

  /** Trailing dots and the case of letters make no difference to the hash. */
  function HashState(h: Hasher, key: seq<byte>): State { Feed(h, h.seed, Clean(key)) }

  lemma {:induction false} FeedLower(h: Hasher, s: State, a: seq<byte>, b: seq<byte>)
    requires LowerBytes(a) == LowerBytes(b)
    ensures Feed(h, s, a) == Feed(h, s, b)
    decreases |a|
  {
    assert |a| == |LowerBytes(a)| == |LowerBytes(b)| == |b|;
    if a == [] {
    } else {
      assert LowerBytes(a)[0] == LowerBytes(b)[0];
      assert LowerBytes(a[1..]) == LowerBytes(a)[1..] && LowerBytes(b[1..]) == LowerBytes(b)[1..];
      FeedLower(h, State(h.round1(s.h1, LowerByte(a[0])), h.round2(s.h2, LowerByte(a[0]))), a[1..], b[1..]);
    }
  }

  lemma {:induction false} FeedConcat(h: Hasher, s: State, a: seq<byte>, b: seq<byte>)
    ensures Feed(h, s, a + b) == Feed(h, Feed(h, s, a), b)
    decreases |a|
  {
    if a == [] {
      assert [] + b == b;
    } else {
      assert (a + b)[1..] == a[1..] + b;
      FeedConcat(h, State(h.round1(s.h1, LowerByte(a[0])), h.round2(s.h2, LowerByte(a[0]))), a[1..], b);
    }
  }

  // ---------------------------------------------------------------- the filter

  /** A key is taken for a member when all its probes are set. */
  predicate Member(h: Hasher, hashes: nat, size: nat, bits: set<nat>, key: seq<byte>)
    requires size > 0
  {
    Clean(key) != [] && Probes(h, HashState(h, key), hashes, size) <= bits
  }

  /** The bits after inserting a key. */
  function Inserted(h: Hasher, hashes: nat, size: nat, bits: set<nat>, key: seq<byte>): set<nat>
    requires size > 0
  {
    if Clean(key) == [] then bits else bits + Probes(h, HashState(h, key), hashes, size)
  }

  type Word = w: seq<bool> | |w| == 64 witness seq(64, i => false)

  class BloomFilter {
    const h: Hasher
    const hashes: nat
    const size: nat
    const words: array<Word>
    var count: nat

    ghost predicate Valid()
    {
      size > 0 && words.Length * 64 == size
    }

    /** The set bits. */
    ghost function Bits(): set<nat>
      reads words
    {
      set i | 0 <= i < words.Length * 64 && words[i / 64][i % 64]
    }

    /** 2^`exponent` bits, all clear. */
    constructor (h: Hasher, hashes: nat, exponent: nat)
      requires 9 <= exponent <= 64
      ensures Valid() && Bits() == {} && count == 0 && fresh(words)
      ensures this.h == h && this.hashes == hashes && size == Pow2(exponent)
    {
      WordsOfPower(exponent);
      this.h, this.hashes, this.size := h, hashes, Pow2(exponent);
      this.words := new Word[Pow2(exponent) / 64](_ => seq(64, i => false));
      this.count := 0;
    }

    /** `insert_bytes` */
    method InsertBytes(key: seq<byte>)
      requires Valid()
      modifies this, words
      ensures Bits() == Inserted(h, hashes, size, old(Bits()), key)
      ensures count == old(count) + if Clean(key) == [] then 0 else 1
    {
      var clean := CleanDomainBytes(key);
      if clean == [] { return; }
      var s := DualHashBytes(h, clean);
      for i := 0 to hashes
        invariant Bits() == old(Bits()) + Probes(h, s, i, size)
        invariant count == old(count)
      {
        SetBit(ProbeOf(h, s, i, size));
        MoreProbes(h, s, i, size);
      }
      count := count + 1;
    }

    /** `words[bit >> 6] |= 1 << (bit & 63)` */
    method SetBit(bit: nat)
      requires Valid() && bit < size
      modifies words
      ensures Bits() == old(Bits()) + {bit}
    {
      var w := bit / 64;
      ghost var before := words[w];
      words[w] := words[w][bit % 64 := true];
      assert forall i | 0 <= i < words.Length * 64 && i != bit :: words[i / 64][i % 64] == old(words[i / 64][i % 64]) by {
        forall i | 0 <= i < words.Length * 64 && i != bit
          ensures words[i / 64][i % 64] == old(words[i / 64][i % 64])
        {
          assert i / 64 == w ==> i % 64 != bit % 64;
        }
      }
    }

    /** The probe loop shared by the look-ups. */
    method AllSet(s: State) returns (r: bool)
      requires Valid()
      ensures r <==> Probes(h, s, hashes, size) <= Bits()
    {
      for i := 0 to hashes
        invariant Probes(h, s, i, size) <= Bits()
      {
        var bit := ProbeOf(h, s, i, size);
        if !words[bit / 64][bit % 64] {
          assert bit in Probes(h, s, hashes, size);
          return false;
        }
        MoreProbes(h, s, i, size);
      }
      return true;
    }

    /** `contains_bytes` */
    method ContainsBytes(key: seq<byte>) returns (r: bool)
      requires Valid()
      ensures r <==> Member(h, hashes, size, Bits(), key)
    {
      var clean := CleanDomainBytes(key);
      if clean == [] { return false; }
      var s := DualHashBytes(h, clean);
      r := AllSet(s);
    }

    /** `clear` */
    method Clear()
      requires Valid()
      modifies this, words
      ensures Bits() == {} && count == 0
    {
      for i := 0 to words.Length
        invariant forall j | 0 <= j < i :: forall k | 0 <= k < 64 :: !words[j][k]
      {
        words[i] := seq(64, k => false);
      }
      count := 0;
    }
  }

  lemma MoreProbes(h: Hasher, s: State, i: nat, size: nat)
    requires size > 0
    ensures Probes(h, s, i + 1, size) == Probes(h, s, i, size) + {ProbeOf(h, s, i, size)}
  {
  }

  lemma WholeWords(k: nat, p: nat)
    requires p == k * 64
    ensures p == p / 64 * 64
  {
  }

  lemma WordsOfPower(n: nat)
    requires n >= 6
    ensures Pow2(n) == Pow2(n) / 64 * 64
  {
    PowAdd(n - 6, 6);
    assert Pow2(6) == 64;
    WholeWords(Pow2(n - 6), Pow2(n));
  }

  /** `clean_domain_bytes` */
  method CleanDomainBytes(key: seq<byte>) returns (r: seq<byte>)
    ensures r == Clean(key)
  {
    r := key;
    while r != [] && IsAsciiSpace(r[0])
      invariant DropFront(r) == DropFront(key)
      decreases |r|
    {
      r := r[1..];
    }
    ghost var front := r;
    while r != [] && (IsAsciiSpace(r[|r| - 1]) || r[|r| - 1] == 46)
      invariant DropBack(r) == DropBack(front)
      decreases |r|
    {
      r := r[..|r| - 1];
    }
  }

  /** `dual_hash_bytes` up to the final mixing */
  method DualHashBytes(h: Hasher, key: seq<byte>) returns (s: State)
    ensures s == Feed(h, h.seed, key)
  {
    s := FeedAll(h, h.seed, key);
  }

  method FeedAll(h: Hasher, start: State, key: seq<byte>) returns (s: State)
    ensures s == Feed(h, start, key)
  {
    s := start;
    assert key[0..] == key;
    for i := 0 to |key|
      invariant Feed(h, s, key[i..]) == Feed(h, start, key)
    {
      var lower := LowerByte(key[i]);
      assert key[i..][1..] == key[i + 1..];
      s := State(h.round1(s.h1, lower), h.round2(s.h2, lower));
    }
  }

  // ---------------------------------------------------------------- no false negatives

  /** The bits after inserting keys one after the other. */
  function InsertedAll(h: Hasher, hashes: nat, size: nat, bits: set<nat>, keys: seq<seq<byte>>): set<nat>
    requires size > 0
    decreases |keys|
  {
    if keys == [] then bits
    else InsertedAll(h, hashes, size, Inserted(h, hashes, size, bits, keys[0]), keys[1..])
  }

  predicate Sets(h: Hasher, hashes: nat, size: nat, key: seq<byte>, bit: nat)
    requires size > 0
  {
    Clean(key) != [] && bit in Probes(h, HashState(h, key), hashes, size)
  }

  /** Some key of the sequence sets the bit. */
  predicate SomeSets(h: Hasher, hashes: nat, size: nat, keys: seq<seq<byte>>, bit: nat)
    requires size > 0
  {
    exists k <- keys :: Sets(h, hashes, size, k, bit)
  }

  lemma FirstOrRest(h: Hasher, hashes: nat, size: nat, keys: seq<seq<byte>>, bit: nat)
    requires size > 0 && keys != []
    ensures SomeSets(h, hashes, size, keys, bit) <==> Sets(h, hashes, size, keys[0], bit) || SomeSets(h, hashes, size, keys[1..], bit)
  {
    assert forall k <- keys :: k == keys[0] || k in keys[1..];
    assert forall k <- keys[1..] :: k in keys;
  }

  /** After any inserts a bit is set exactly when some inserted key probes it. */
  lemma {:induction false} BitsAreProbes(h: Hasher, hashes: nat, size: nat, bits: set<nat>, keys: seq<seq<byte>>,
        bit: nat)
    requires size > 0
    ensures bit in InsertedAll(h, hashes, size, bits, keys) <==> bit in bits || SomeSets(h, hashes, size, keys, bit)
    decreases |keys|
  {
    if keys == [] {
    } else {
      var next := Inserted(h, hashes, size, bits, keys[0]);
      assert bit in next <==> bit in bits || Sets(h, hashes, size, keys[0], bit);
      BitsAreProbes(h, hashes, size, next, keys[1..], bit);
      FirstOrRest(h, hashes, size, keys, bit);
    }
  }

  /** An inserted key is a member, however its letters are cased and whatever blanks or dots end it. */
  lemma NoFalseNegatives(h: Hasher, hashes: nat, size: nat, keys: seq<seq<byte>>, inserted: seq<byte>, key: seq<byte>)
    requires size > 0 && inserted in keys && Clean(key) != [] && LowerBytes(Clean(key)) == LowerBytes(Clean(inserted))
    ensures Member(h, hashes, size, InsertedAll(h, hashes, size, {}, keys), key)
  {
    FeedLower(h, h.seed, Clean(key), Clean(inserted));
    assert |LowerBytes(Clean(key))| == |Clean(key)|;
    forall bit | bit in Probes(h, HashState(h, key), hashes, size)
      ensures bit in InsertedAll(h, hashes, size, {}, keys)
    {
      assert Sets(h, hashes, size, inserted, bit);
      BitsAreProbes(h, hashes, size, {}, keys, bit);
    }
  }

  // ---------------------------------------------------------------- distinct probes

  lemma TwoDivides(d: int, h: int)
    requires h % 2 == 1 && d * h % 2 == 0
    ensures d % 2 == 0
  {
    var b := h / 2;
    assert d * h == d * (2 * b + 1) == 2 * (d * b) + d;
  }

  lemma Doubled(q: int, p: int)
    ensures q * (2 * p) == 2 * (q * p)
  {
  }

  lemma HalfProduct(d: int, h: int, q: int, p: int)
    requires h % 2 == 1 && d * h == q * (2 * p)
    ensures d == 2 * (d / 2) && d / 2 * h == q * p
  {
    Doubled(q, p);
    TwoDivides(d, h);
    Doubled(h, d / 2);
  }

  /** An odd factor cancels modulo a power of two. */
  lemma {:induction false} OddCancels(d: int, h: int, q: int, n: nat) returns (e: int)
    requires h % 2 == 1 && d * h == q * Pow2(n)
    ensures d == e * Pow2(n)
    decreases n
  {
    if n == 0 {
      e := d;
    } else {
      var p, half := Pow2(n - 1), d / 2;
      HalfProduct(d, h, q, p);
      e := OddCancels(half, h, q, n - 1);
      Doubled(e, p);
    }
  }

  lemma ProbeMasked(h1: nat, h2: nat, i: nat, k: nat, m: nat)
    requires k > 0 && m > 0 && k * m == TWO64
    ensures Probe(h1, h2, i, m) == (h1 + i * h2) % m
  {
    WrapVanishes(h1, i * h2, k, m);
  }

  /** Probe indices are linear modulo the size. */
  lemma ProbeIsLinear(h1: nat, h2: nat, i: nat, n: nat)
    requires n <= 64
    ensures Probe(h1, h2, i, Pow2(n)) == (h1 + i * h2) % Pow2(n)
  {
    PowAdd(64 - n, n);
    Pow64();
    ProbeMasked(h1, h2, i, Pow2(64 - n), Pow2(n));
  }

  lemma SameRemainder(a: nat, b: nat, m: nat) returns (q: int)
    requires m > 0 && a % m == b % m
    ensures b - a == q * m
  {
    q := b / m - a / m;
    assert a == a / m * m + a % m && b == b / m * m + b % m;
    assert q * m == b / m * m - a / m * m;
  }

  lemma SmallMultiple(d: nat, e: int, m: nat)
    requires d == e * m && d < m
    ensures d == 0
  {
    assert e > 0 ==> e * m >= m;
    assert e < 0 ==> e * m <= 0;
  }

  lemma StepDifference(h1: nat, h2: nat, i: nat, j: nat)
    ensures (h1 + j * h2) - (h1 + i * h2) == (j - i) * h2
  {
  }

  lemma LinearProbesDiffer(h1: nat, h2: nat, i: nat, j: nat, n: nat)
    requires n >= 9 && i < j < 20 && h2 % 2 == 1
    ensures (h1 + i * h2) % Pow2(n) != (h1 + j * h2) % Pow2(n)
  {
    var a, b, m := h1 + i * h2, h1 + j * h2, Pow2(n);
    if a % m == b % m {
      var q := SameRemainder(a, b, m);
      StepDifference(h1, h2, i, j);
      var e := OddCancels(j - i, h2, q, n);
      AtLeast512(n);
      SmallMultiple(j - i, e, m);
    }
  }

  /** The probes of one key are pairwise distinct: the step is odd, the size a power of two of at least
    * 512, and there are at most 20 of them. */
  lemma ProbesDistinct(h: Hasher, s: State, i: nat, j: nat, n: nat)
    requires 9 <= n <= 64 && i < j < 20
    ensures ProbeOf(h, s, i, Pow2(n)) != ProbeOf(h, s, j, Pow2(n))
  {
    StepsDistinct(h.mix(s.h1), OrOne(h.mix(s.h2)), i, j, n);
  }

  lemma StepsDistinct(h1: nat, h2: nat, i: nat, j: nat, n: nat)
    requires 9 <= n <= 64 && i < j < 20 && h2 % 2 == 1
    ensures Probe(h1, h2, i, Pow2(n)) != Probe(h1, h2, j, Pow2(n))
  {
    ProbeIsLinear(h1, h2, i, n);
    ProbeIsLinear(h1, h2, j, n);
    LinearProbesDiffer(h1, h2, i, j, n);
  }

  lemma {:induction false} AtLeast512(n: nat)
    requires n >= 9
    ensures Pow2(n) >= 512
    decreases n
  {
    if n == 9 {
      assert Pow2(3) == 8 && Pow2(6) == 64;
    } else {
      AtLeast512(n - 1);
    }
  }
}
