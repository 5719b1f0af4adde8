/** Base32 with the extended hex alphabet (section 7 of RFC 4648; src/dns/dnssec.rs): the 64-bit buffers
  * that are never masked do no harm. */
module Base32 {
  import opened Bytes
  import opened Text
  import opened Wrappers
  import opened Powers

  // ---------------------------------------------------------------- encoding

  /** Five-bit values; `BASE32HEX_CHARS[v]` */
  function CharOf(v: nat): char
    requires v < 32
  {
    if v < 10 then ('0' as int + v) as char else ('a' as int + v - 10) as char
  }

  type Quint = v: nat | v < 32

  /** The inner loop of `base32hex_encode`: values taken from the top of the low `bits` bits. */
  function Emit(buffer: nat, bits: nat): seq<Quint>
    decreases bits, buffer
  {
    if bits < 5 then [] else [buffer / Pow2(bits - 5) % 32] + Emit(buffer, bits - 5)
  }

  function Shifted(buffer: nat, b: byte): nat { (buffer * 256 + b) % TWO64 }

  /** The values `base32hex_encode` looks up, from a buffer with `bits` bits left in it. */
  function EncodeFrom(data: seq<byte>, buffer: nat, bits: nat): seq<Quint>
    decreases |data|
  {
    if data == [] then if bits > 0 then [buffer * Pow2(if bits < 5 then 5 - bits else 0) % TWO64 % 32] else []
    else Emit(Shifted(buffer, data[0]), bits + 8) + EncodeFrom(data[1..], Shifted(buffer, data[0]), (bits + 8) % 5)
  }

  function Chars(vs: seq<Quint>): (s: string)
    ensures |s| == |vs| && forall i | 0 <= i < |vs| :: s[i] == CharOf(vs[i])
  {
    seq(|vs|, i requires 0 <= i < |vs| => CharOf(vs[i]))
  }

  /** `base32hex_encode` */
  function Encode(data: seq<byte>): string { Chars(EncodeFrom(data, 0, 0)) }

  lemma CharsConcat(a: seq<Quint>, b: seq<Quint>)
    ensures Chars(a + b) == Chars(a) + Chars(b)
  {
  }

  method EmitAll(buffer: nat, start: nat) returns (s: string, bits: nat)
    ensures s == Chars(Emit(buffer, start)) && bits == start % 5
  {
    s, bits := "", start;
    ghost var done: seq<Quint> := [];
    while bits >= 5
      invariant bits % 5 == start % 5 && s == Chars(done) && done + Emit(buffer, bits) == Emit(buffer, start)
    {
      bits := bits - 5;
      var v: Quint := buffer / Pow2(bits) % 32;
      CharsConcat(done, [v]);
      assert Chars([v]) == [CharOf(v)];
      s := s + [CharOf(v)];
      assert done + ([v] + Emit(buffer, bits)) == done + [v] + Emit(buffer, bits);
      done := done + [v];
    }
    assert done + [] == done;
  }

  /** What is left to encode, after the values `done`. */
  function Encoding(done: seq<Quint>, data: seq<byte>, buffer: nat, bits: nat): seq<Quint> { done + EncodeFrom(data, buffer, bits) }

  lemma EncodingStep(done: seq<Quint>, data: seq<byte>, i: nat, buffer: nat, bits: nat)
    requires i < |data|
    ensures var next := Shifted(buffer, data[i]); var more := Emit(next, bits + 8);
      Encoding(done, data[i..], buffer, bits) == Encoding(done + more, data[i + 1..], next, (bits + 8) % 5)
      && Chars(done + more) == Chars(done) + Chars(more)
  {
    var next := Shifted(buffer, data[i]);
    var more, rest := Emit(next, bits + 8), EncodeFrom(data[i + 1..], next, (bits + 8) % 5);
    assert data[i..][1..] == data[i + 1..];
    assert done + (more + rest) == done + more + rest;
  }

  method Base32HexEncode(data: seq<byte>) returns (s: string)
    ensures s == Encode(data)
  {
    s := "";
    var buffer: nat, bits: nat := 0, 0;
    ghost var done: seq<Quint> := [];
    ghost var all := EncodeFrom(data, 0, 0);
    assert data[0..] == data && [] + all == all;
    for i := 0 to |data|
      invariant bits < 5 && s == Chars(done) && Encoding(done, data[i..], buffer, bits) == all
    {
      EncodingStep(done, data, i, buffer, bits);
      buffer := Shifted(buffer, data[i]);
      done := done + Emit(buffer, bits + 8);
      var more, left := EmitAll(buffer, bits + 8);
      s, bits := s + more, left;
    }
    if bits > 0 {
      var v: Quint := buffer * Pow2(5 - bits) % TWO64 % 32;
      CharsConcat(done, [v]);
      assert Chars([v]) == [CharOf(v)];
      s := s + [CharOf(v)];
    } else {
      assert done + [] == done;
    }
  }

  // ---------------------------------------------------------------- decoding

  function ValueOf(c: char): Option<Quint> {
    if '0' <= c <= '9' then Some(c as int - '0' as int)
    else if 'a' <= c <= 'v' then Some(c as int - 'a' as int + 10)
    else None
  }

  /** The octets `base32hex_decode` pushes for values, from a buffer with `bits` bits left in it. */
  function DecodeFrom(vs: seq<Quint>, buffer: nat, bits: nat): seq<byte>
    decreases |vs|
  {
    if vs == [] then []
    else
      var next := (buffer * 32 + vs[0]) % TWO64;
      if bits + 5 >= 8 then [next / Pow2(bits - 3) % 256] + DecodeFrom(vs[1..], next, bits - 3)
      else DecodeFrom(vs[1..], next, bits + 5)
  }

  function ValuesOf(s: string): Option<seq<Quint>> {
    if s == "" then Some([])
    else if ValueOf(s[0]).None? || ValuesOf(s[1..]).None? then None
    else Some([ValueOf(s[0]).value] + ValuesOf(s[1..]).value)
  }

  /** `base32hex_decode` */
  function Decode(s: string): Option<seq<byte>> {
    match ValuesOf(Lower(Trim(s)))
    case None => None
    case Some(vs) => Some(DecodeFrom(vs, 0, 0))
  }

  /** The result of the decoding loop with `out` already pushed. */
  function Rest(out: seq<byte>, s: string, buffer: nat, bits: nat): Option<seq<byte>> {
    if ValuesOf(s).None? then None else Some(out + DecodeFrom(ValuesOf(s).value, buffer, bits))
  }

  lemma RestStep(out: seq<byte>, s: string, buffer: nat, bits: nat, v: Quint, next: nat)
    requires s != "" && ValueOf(s[0]) == Some(v) && next == (buffer * 32 + v) % TWO64
    ensures Rest(out, s, buffer, bits) ==
            if bits + 5 >= 8 then Rest(out + [next / Pow2(bits - 3) % 256], s[1..], next, bits - 3) else Rest(out, s[1..], next, bits + 5)
  {
    if ValuesOf(s[1..]).Some? {
      var vs := ValuesOf(s[1..]).value;
      assert ([v] + vs)[1..] == vs;
      if bits + 5 >= 8 {
        var b := next / Pow2(bits - 3) % 256;
        assert out + ([b] + DecodeFrom(vs, next, bits - 3)) == out + [b] + DecodeFrom(vs, next, bits - 3);
      }
    }
  }

  lemma RestFrom(out: seq<byte>, s: string, i: nat, buffer: nat, bits: nat, v: Quint, next: nat)
    requires i < |s| && ValueOf(s[i]) == Some(v) && next == (buffer * 32 + v) % TWO64
    ensures Rest(out, s[i..], buffer, bits) ==
            if bits + 5 >= 8 then Rest(out + [next / Pow2(bits - 3) % 256], s[i + 1..], next, bits - 3)
            else Rest(out, s[i + 1..], next, bits + 5)
  {
    assert s[i..][1..] == s[i + 1..];
    RestStep(out, s[i..], buffer, bits, v, next);
  }

  lemma RestBroken(out: seq<byte>, s: string, i: nat, buffer: nat, bits: nat)
    requires i < |s| && ValueOf(s[i]).None?
    ensures Rest(out, s[i..], buffer, bits) == None
  {
  }

  /** The loop of `base32hex_decode` */
  method DecodeChars(s: string) returns (r: Option<seq<byte>>)
    ensures r == Rest([], s, 0, 0)
  {
    ghost var all := Rest([], s, 0, 0);
    var out: seq<byte>, buffer: nat, bits: nat := [], 0, 0;
    assert s[0..] == s;
    for i := 0 to |s|
      invariant bits < 8 && Rest(out, s[i..], buffer, bits) == all
    {
      var val := ValueOf(s[i]);
      if val.None? {
        RestBroken(out, s, i, buffer, bits);
        return None;
      }
      var next := (buffer * 32 + val.value) % TWO64;
      RestFrom(out, s, i, buffer, bits, val.value, next);
      buffer, bits := next, bits + 5;
      if bits >= 8 {
        bits := bits - 8;
        out := out + [buffer / Pow2(bits) % 256];
      }
    }
    assert out + [] == out;
    return Some(out);
  }

  method Base32HexDecode(text: string) returns (r: Option<seq<byte>>)
    ensures r == Decode(text)
  {
    var s := Lower(Trim(text));
    r := DecodeChars(s);
    if r.Some? { assert [] + DecodeFrom(ValuesOf(s).value, 0, 0) == DecodeFrom(ValuesOf(s).value, 0, 0); }
  }

  // ---------------------------------------------------------------- the round trip

  lemma {:induction false} ValuesBack(vs: seq<Quint>)
    ensures ValuesOf(Chars(vs)) == Some(vs)
    decreases |vs|
  {
    if vs == [] {
    } else {
      assert Chars(vs)[1..] == Chars(vs[1..]);
      ValuesBack(vs[1..]);
      assert vs == [vs[0]] + vs[1..];
    }
  }

  /** Encoded text has no white space to trim and no capital to lower. */
  lemma CharsClean(vs: seq<Quint>)
    ensures Lower(Trim(Chars(vs))) == Chars(vs)
  {
    var s := Chars(vs);
    assert SpaceAt(s) == 0 && SpaceBefore(s) == 0;
    assert Lower(s) == s;
  }

  // ---------------------------------------------------------------- only the low bits matter

  /** `Emit` on the low bits alone. */
  function EmitLow(low: nat, bits: nat): seq<nat>
    decreases bits, low
  {
    if bits < 5 then [] else [Above(low, bits - 5)] + EmitLow(low % Pow2(bits - 5), bits - 5)
  }

  function Above(x: nat, k: nat): nat {
    QuotientIsNat(x, Pow2(k));
    x / Pow2(k)
  }

  /** Encoding with only the bits left over in the buffer. */
  function EncodeLow(data: seq<byte>, low: nat, bits: nat): seq<nat>
    decreases |data|
  {
    if data == [] then if 0 < bits < 5 then [low * Pow2(5 - bits)] else []
    else
      var v := low * 256 + data[0];
      EmitLow(v, bits + 8) + EncodeLow(data[1..], v % Pow2((bits + 8) % 5), (bits + 8) % 5)
  }

  /** Decoding with only the bits left over in the buffer. */
  function DecodeLow(vs: seq<nat>, low: nat, bits: nat): seq<nat>
    decreases |vs|
  {
    if vs == [] then []
    else
      var v := low * 32 + vs[0];
      if bits + 5 >= 8 then [Above(v, bits - 3)] + DecodeLow(vs[1..], v % Pow2(bits - 3), bits - 3)
      else DecodeLow(vs[1..], v, bits + 5)
  }

  lemma ModOfMod(x: nat, m: nat, n: nat)
    requires m <= n
    ensures x % Pow2(n) % Pow2(m) == x % Pow2(m)
  {
    PowAdd(n - m, m);
    ModModDivides(x, Pow2(m), Pow2(n - m));
  }

  lemma {:induction false} EmitIsLow(buffer: nat, bits: nat)
    ensures Emit(buffer, bits) == EmitLow(buffer % Pow2(bits), bits)
    decreases bits
  {
    if bits >= 5 {
      Window(buffer, bits - 5, 5);
      assert Pow2(5) == 32;
      ModOfMod(buffer, bits - 5, bits);
      EmitIsLow(buffer, bits - 5);
    }
  }

  lemma Scaled(q: nat, a: nat, r: nat, w: nat)
    requires r < a && w > 0
    ensures (q * a + r) * w == q * (a * w) + r * w && r * w + w <= a * w && a * w > 0
  {
    var d := a - 1 - r;
    assert a * w == r * w + w + d * w;
    assert (q * a) * w == q * (a * w);
  }

  lemma PushOf(buffer: nat, a: nat, w: nat, v: nat)
    requires a > 0 && v < w
    ensures a * w > 0 && (buffer * w + v) % (a * w) == buffer % a * w + v
  {
    var q, r := buffer / a, buffer % a;
    Scaled(q, a, r, w);
    assert buffer == q * a + r;
    ModUnique(buffer * w + v, q, r * w + v, a * w);
  }

  /** Pushing `width` bits: the low bits of the buffer are the old low bits followed by the new. */
  lemma Push(buffer: nat, n: nat, width: nat, v: nat)
    requires n + width <= 64 && v < Pow2(width)
    ensures (buffer * Pow2(width) + v) % TWO64 % Pow2(n + width) == buffer % Pow2(n) * Pow2(width) + v
  {
    LowBits(buffer * Pow2(width) + v, n + width);
    PowAdd(n, width);
    PushOf(buffer, Pow2(n), Pow2(width), v);
  }

  lemma LastQuint(buffer: nat, bits: nat)
    requires 0 < bits < 5
    ensures buffer * Pow2(5 - bits) % TWO64 % 32 == buffer % Pow2(bits) * Pow2(5 - bits)
  {
    assert Pow2(5) == 32;
    LowBits(buffer * Pow2(5 - bits), 5);
    PowAdd(bits, 5 - bits);
    PushOf(buffer, Pow2(bits), Pow2(5 - bits), 0);
  }

  lemma ShiftedLow(buffer: nat, bits: nat, b: byte)
    requires bits < 5
    ensures var next := Shifted(buffer, b); var v := buffer % Pow2(bits) * 256 + b;
      next % Pow2(bits + 8) == v && next % Pow2((bits + 8) % 5) == v % Pow2((bits + 8) % 5)
  {
    assert Pow2(8) == 256;
    Push(buffer, bits, 8, b);
    ModOfMod(Shifted(buffer, b), (bits + 8) % 5, bits + 8);
  }

  lemma {:induction false} EncodeIsLow(data: seq<byte>, buffer: nat, bits: nat)
    requires bits < 5
    ensures EncodeFrom(data, buffer, bits) == EncodeLow(data, buffer % Pow2(bits), bits)
    decreases |data|
  {
    if data == [] {
      if bits > 0 { LastQuint(buffer, bits); }
    } else {
      var next := Shifted(buffer, data[0]);
      ShiftedLow(buffer, bits, data[0]);
      EmitIsLow(next, bits + 8);
      EncodeIsLow(data[1..], next, (bits + 8) % 5);
    }
  }

  lemma {:induction false} DecodeIsLow(vs: seq<Quint>, buffer: nat, bits: nat)
    requires bits < 8
    ensures DecodeFrom(vs, buffer, bits) == DecodeLow(vs, buffer % Pow2(bits), bits)
    decreases |vs|
  {
    if vs == [] {
    } else {
      var next := (buffer * 32 + vs[0]) % TWO64;
      assert Pow2(5) == 32;
      Push(buffer, bits, 5, vs[0]);
      if bits + 5 >= 8 {
        Window(next, bits - 3, 8);
        assert Pow2(8) == 256;
        ModOfMod(next, bits - 3, bits + 5);
        DecodeIsLow(vs[1..], next, bits - 3);
      } else {
        DecodeIsLow(vs[1..], next, bits + 5);
      }
    }
  }

  // ---------------------------------------------------------------- decoding keeps up with encoding

  /** Bits the decoder holds when the encoder has `r` left over: together they are no octet or one. */
  function Held(r: nat): nat
    requires r < 5
  {
    if r == 0 then 0 else 8 - r
  }

  /** The octet that the decoder's bits and the encoder's make. */
  function Pending(r: nat, d: nat, e: nat): seq<nat>
    requires r < 5
  {
    if r == 0 then [] else [d * Pow2(r) + e]
  }

  lemma DecodeOne(v: nat, rest: seq<nat>, low: nat, bits: nat)
    ensures var w := low * 32 + v;
      DecodeLow([v] + rest, low, bits) ==
      if bits + 5 >= 8 then [w / Pow2(bits - 3)] + DecodeLow(rest, w % Pow2(bits - 3), bits - 3) else DecodeLow(rest, w, bits + 5)
  {
    assert ([v] + rest)[1..] == rest;
  }

  lemma SmallPowers()
    ensures Pow2(0) == 1 && Pow2(1) == 2 && Pow2(2) == 4 && Pow2(3) == 8 && Pow2(4) == 16 && Pow2(5) == 32 &&
            Pow2(6) == 64 && Pow2(7) == 128
  {
  }

  lemma EmitOne(v: nat, n: nat)
    requires 5 <= n < 10
    ensures EmitLow(v, n) == [v / Pow2(n - 5)]
  {
    assert EmitLow(v % Pow2(n - 5), n - 5) == [];
  }

  lemma EmitTwo(v: nat, n: nat)
    requires 10 <= n < 15
    ensures EmitLow(v, n) == [v / Pow2(n - 5), v % Pow2(n - 5) / Pow2(n - 10)]
  {
    EmitOne(v % Pow2(n - 5), n - 5);
    assert [v / Pow2(n - 5)] + [v % Pow2(n - 5) / Pow2(n - 10)] == [v / Pow2(n - 5), v % Pow2(n - 5) / Pow2(n - 10)];
  }

  lemma DecodeTwo(v: nat, w: nat, rest: seq<nat>, low: nat, bits: nat)
    ensures DecodeLow([v, w] + rest, low, bits) == DecodeLow([v] + ([w] + rest), low, bits)
  {
    assert [v, w] + rest == [v] + ([w] + rest);
  }

  /** With nothing left over: five bits out, three left. */
  lemma Step0(b: byte, rest: seq<nat>)
    ensures DecodeLow(EmitLow(b, 8) + rest, 0, 0) == DecodeLow(rest, b / 8, 5)
  {
    SmallPowers();
    EmitOne(b, 8);
    DecodeOne(b / 8, rest, 0, 0);
  }

  lemma Split1(d: nat, e: nat, b: byte)
    requires e < 2
    ensures (e * 256 + b) / 16 == e * 16 + b / 16
    ensures (d * 32 + (e * 16 + b / 16)) / 16 == d * 2 + e && (d * 32 + (e * 16 + b / 16)) % 16 == b / 16
  {
  }

  lemma Step1(d: nat, e: nat, b: byte, rest: seq<nat>)
    requires e < 2 && d < 128
    ensures DecodeLow(EmitLow(e * 256 + b, 9) + rest, d, 7) == [d * 2 + e] + DecodeLow(rest, b / 16, 4)
  {
    SmallPowers();
    Split1(d, e, b);
    EmitOne(e * 256 + b, 9);
    DecodeOne(e * 16 + b / 16, rest, d, 7);
  }

  lemma Split2(d: nat, e: nat, b: byte)
    requires e < 4
    ensures (e * 256 + b) / 32 == e * 8 + b / 32 && (e * 256 + b) % 32 / 1 == b % 32
    ensures (d * 32 + (e * 8 + b / 32)) / 8 == d * 4 + e && (d * 32 + (e * 8 + b / 32)) % 8 == b / 32
    ensures b / 32 * 32 + b % 32 == b
  {
  }

  lemma Step2(d: nat, e: nat, b: byte, rest: seq<nat>)
    requires e < 4 && d < 64
    ensures DecodeLow(EmitLow(e * 256 + b, 10) + rest, d, 6) == [d * 4 + e] + ([b as nat] + DecodeLow(rest, 0, 0))
  {
    SmallPowers();
    Split2(d, e, b);
    var v, w := e * 8 + b / 32, b % 32;
    EmitTwo(e * 256 + b, 10);
    DecodeTwo(v, w, rest, d, 6);
    DecodeOne(v, [w] + rest, d, 6);
    DecodeOne(w, rest, b / 32, 3);
  }

  lemma Split3(d: nat, e: nat, b: byte)
    requires e < 8
    ensures (e * 256 + b) / 64 == e * 4 + b / 64 && (e * 256 + b) % 64 / 2 == b % 64 / 2
    ensures (d * 32 + (e * 4 + b / 64)) / 4 == d * 8 + e && (d * 32 + (e * 4 + b / 64)) % 4 == b / 64
    ensures b / 64 * 32 + b % 64 / 2 == b / 2
  {
  }

  lemma Step3(d: nat, e: nat, b: byte, rest: seq<nat>)
    requires e < 8 && d < 32
    ensures DecodeLow(EmitLow(e * 256 + b, 11) + rest, d, 5) == [d * 8 + e] + DecodeLow(rest, b / 2, 7)
  {
    SmallPowers();
    Split3(d, e, b);
    var v, w := e * 4 + b / 64, b % 64 / 2;
    EmitTwo(e * 256 + b, 11);
    DecodeTwo(v, w, rest, d, 5);
    DecodeOne(v, [w] + rest, d, 5);
    DecodeOne(w, rest, b / 64, 2);
  }

  lemma Split4(d: nat, e: nat, b: byte)
    requires e < 16
    ensures (e * 256 + b) / 128 == e * 2 + b / 128 && (e * 256 + b) % 128 / 4 == b % 128 / 4
    ensures (d * 32 + (e * 2 + b / 128)) / 2 == d * 16 + e && (d * 32 + (e * 2 + b / 128)) % 2 == b / 128
    ensures b / 128 * 32 + b % 128 / 4 == b / 4
  {
  }

  lemma Step4(d: nat, e: nat, b: byte, rest: seq<nat>)
    requires e < 16 && d < 16
    ensures DecodeLow(EmitLow(e * 256 + b, 12) + rest, d, 4) == [d * 16 + e] + DecodeLow(rest, b / 4, 6)
  {
    SmallPowers();
    Split4(d, e, b);
    var v, w := e * 2 + b / 128, b % 128 / 4;
    EmitTwo(e * 256 + b, 12);
    DecodeTwo(v, w, rest, d, 4);
    DecodeOne(v, [w] + rest, d, 4);
    DecodeOne(w, rest, b / 128, 1);
  }

  /** The decoder's share of an octet whose lowest `r` bits the encoder still has. */
  function Share(r: nat, b: byte): nat
    requires r < 5
  {
    if r == 0 then 0 else Above(b, r)
  }

  /** What the decoder pushes on the values of one octet, with `r` bits left over by the encoder. */
  ghost predicate Pushes(r: nat, d: nat, e: nat, b: byte, rest: seq<nat>)
    requires r < 5
  {
    var r' := (r + 8) % 5;
    DecodeLow(EmitLow(e * 256 + b, r + 8) + rest, d, Held(r)) ==
    Pending(r, d, e) + ((if r == 2 then [b as nat] else []) + DecodeLow(rest, Share(r', b), Held(r')))
  }

  lemma Pushes0(b: byte, rest: seq<nat>)
    ensures Pushes(0, 0, 0, b, rest)
  {
    SmallPowers();
    Step0(b, rest);
    var tail := DecodeLow(rest, b / 8, 5);
    assert [] + ([] + tail) == tail;
  }

  lemma Pushes1(d: nat, e: nat, b: byte, rest: seq<nat>)
    requires e < 2 && d < 128
    ensures Pushes(1, d, e, b, rest)
  {
    SmallPowers();
    Step1(d, e, b, rest);
    assert [] + DecodeLow(rest, b / 16, 4) == DecodeLow(rest, b / 16, 4);
  }

  lemma Pushes2(d: nat, e: nat, b: byte, rest: seq<nat>)
    requires e < 4 && d < 64
    ensures Pushes(2, d, e, b, rest)
  {
    SmallPowers();
    Step2(d, e, b, rest);
  }

  lemma Pushes3(d: nat, e: nat, b: byte, rest: seq<nat>)
    requires e < 8 && d < 32
    ensures Pushes(3, d, e, b, rest)
  {
    SmallPowers();
    Step3(d, e, b, rest);
    assert [] + DecodeLow(rest, b / 2, 7) == DecodeLow(rest, b / 2, 7);
  }

  lemma Pushes4(d: nat, e: nat, b: byte, rest: seq<nat>)
    requires e < 16 && d < 16
    ensures Pushes(4, d, e, b, rest)
  {
    SmallPowers();
    Step4(d, e, b, rest);
    assert [] + DecodeLow(rest, b / 4, 6) == DecodeLow(rest, b / 4, 6);
  }

  /** One octet more: the octet pending is pushed, and the new one becomes pending or, if it leaves
    * nothing over, is pushed too. */
  lemma OctetStep(r: nat, d: nat, e: nat, b: byte, rest: seq<nat>)
    requires r < 5 && e < Pow2(r) && d < Pow2(Held(r))
    ensures Pushes(r, d, e, b, rest)
  {
    SmallPowers();
    if r == 0 { Pushes0(b, rest); }
    else if r == 1 { Pushes1(d, e, b, rest); }
    else if r == 2 { Pushes2(d, e, b, rest); }
    else if r == 3 { Pushes3(d, e, b, rest); }
    else { Pushes4(d, e, b, rest); }
  }

  /** Low bits of a number that begins with other bits. */
  lemma LowOfJoined(e: nat, b: byte)
    ensures (e * 256 + b) % 2 == b % 2 && (e * 256 + b) % 4 == b % 4 && (e * 256 + b) % 8 == b % 8 &&
            (e * 256 + b) % 16 == b % 16
  {
    ModAdd(b, e * 128, 2);
    ModAdd(b, e * 64, 4);
    ModAdd(b, e * 32, 8);
    ModAdd(b, e * 16, 16);
  }

  /** The new octet is what the two shares make. */
  lemma SharesMakeOctet(r: nat, e: nat, b: byte)
    requires r < 5
    ensures var r' := (r + 8) % 5; var e' := (e * 256 + b) % Pow2(r');
      && e' < Pow2(r') && Share(r', b) < Pow2(Held(r'))
      && (if r == 2 then [b as nat] else []) + Pending(r', Share(r', b), e') == [b as nat]
  {
    SmallPowers();
    LowOfJoined(e, b);
    var r' := (r + 8) % 5;
    assert r == 2 <==> r' == 0;
    assert Pow2(r') == if r' == 0 then 1 else if r' == 1 then 2 else if r' == 2 then 4 else if r' == 3 then 8 else 16;
    assert [b as nat] + [] == [b as nat] && [] + [b as nat] == [b as nat];
    if r' > 0 { assert Share(r', b) * Pow2(r') + b % Pow2(r') == b; }
  }

  lemma LastValue(r: nat, d: nat, e: nat)
    requires 0 < r < 5
    ensures (d * 32 + e * Pow2(5 - r)) / Pow2(5 - r) == d * Pow2(r) + e
  {
    SmallPowers();
    if r == 1 { assert (d * 32 + e * 16) / 16 == d * 2 + e; }
    else if r == 2 { assert (d * 32 + e * 8) / 8 == d * 4 + e; }
    else if r == 3 { assert (d * 32 + e * 4) / 4 == d * 8 + e; }
    else { assert (d * 32 + e * 2) / 2 == d * 16 + e; }
  }

  lemma LastStep(r: nat, d: nat, e: nat)
    requires 0 < r < 5
    ensures DecodeLow([e * Pow2(5 - r)], d, Held(r)) == [d * Pow2(r) + e]
  {
    LastValue(r, d, e);
    DecodeOne(e * Pow2(5 - r), [], d, Held(r));
    assert [e * Pow2(5 - r)] + [] == [e * Pow2(5 - r)];
  }

  /** The octets as numbers. */
  function Numbers(data: seq<byte>): seq<nat> { seq(|data|, i requires 0 <= i < |data| => data[i] as nat) }

  lemma NumbersCons(data: seq<byte>)
    requires data != []
    ensures Numbers(data) == [data[0] as nat] + Numbers(data[1..])
  {
  }

  lemma EncodeCons(data: seq<byte>, e: nat, r: nat)
    requires data != [] && r < 5
    ensures var r' := (r + 8) % 5;
      EncodeLow(data, e, r) == EmitLow(e * 256 + data[0], r + 8) + EncodeLow(data[1..], (e * 256 + data[0]) % Pow2(r'), r')
  {
  }

  lemma {:induction false} Lockstep(data: seq<byte>, r: nat, d: nat, e: nat)
    requires r < 5 && e < Pow2(r) && d < Pow2(Held(r))
    ensures DecodeLow(EncodeLow(data, e, r), d, Held(r)) == Pending(r, d, e) + Numbers(data)
    decreases |data|
  {
    if data == [] {
      if r > 0 { LastStep(r, d, e); }
      assert Pending(r, d, e) + [] == Pending(r, d, e);
    } else {
      var b, r' := data[0], (r + 8) % 5;
      var e' := (e * 256 + b) % Pow2(r');
      EncodeCons(data, e, r);
      OctetStep(r, d, e, b, EncodeLow(data[1..], e', r'));
      SharesMakeOctet(r, e, b);
      Lockstep(data[1..], r', Share(r', b), e');
      Joined(Pending(r, d, e), if r == 2 then [b as nat] else [], Pending(r', Share(r', b), e'), Numbers(data[1..]), b);
      NumbersCons(data);
    }
  }

  lemma Joined(p: seq<nat>, x: seq<nat>, y: seq<nat>, rest: seq<nat>, b: nat)
    requires x + y == [b]
    ensures p + (x + (y + rest)) == p + ([b] + rest)
  {
    assert x + (y + rest) == (x + y) + rest;
  }

  /** Decoding what was encoded gives the octets back, for every octet string. */
  lemma RoundTrip(data: seq<byte>)
    ensures Decode(Encode(data)) == Some(data)
  {
    var vs := EncodeFrom(data, 0, 0);
    CharsClean(vs);
    ValuesBack(vs);
    EncodeIsLow(data, 0, 0);
    DecodeIsLow(vs, 0, 0);
    SmallPowers();
    Lockstep(data, 0, 0, 0);
    assert [] + Numbers(data) == Numbers(data);
    assert DecodeFrom(vs, 0, 0) == data;
  }
}
