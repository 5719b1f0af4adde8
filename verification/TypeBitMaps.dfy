/** Type bit maps of NSEC and NSEC3 records (section 4.1.2 of RFC 4034; src/dns/dnssec.rs). */
module TypeBitMaps {
  import opened Bytes

  type Type = x: int | 0 <= x < 65536

  const CNAME: Type := 5

  // ---------------------------------------------------------------- reading

  function PowerOf(k: nat): nat requires k < 8 { [1, 2, 4, 8, 16, 32, 64, 128][k] }

  /** `(b & (1 << k)) != 0` */
  predicate BitSet(b: byte, k: nat) requires k < 8 { (b / PowerOf(k)) % 2 == 1 }

  /** The blocks searched for the window; the bit read from its block if the block reaches that far. */
  function FindBit(bitmaps: seq<byte>, window: nat, offset: nat, bit: nat): bool
    requires bit < 8
    decreases |bitmaps|
  {
    if |bitmaps| < 2 || 2 + bitmaps[1] > |bitmaps| then false
    else if bitmaps[0] == window then offset < bitmaps[1] && BitSet(bitmaps[2 + offset], bit)
    else FindBit(bitmaps[2 + bitmaps[1]..], window, offset, bit)
  }

  predicate Contains(bitmaps: seq<byte>, qtype: Type) {
    FindBit(bitmaps, qtype / 256, qtype % 256 / 8, 7 - qtype % 256 % 8)
  }

  /** `type_bit_maps_contain_type` */
  method ContainsType(bitmaps: seq<byte>, qtype: Type) returns (r: bool)
    ensures r <==> Contains(bitmaps, qtype)
  {
    r := ReadBit(bitmaps, qtype / 256, qtype % 256 / 8, 7 - qtype % 256 % 8);
  }

  method ReadBit(bitmaps: seq<byte>, targetWindow: nat, targetOffset: nat, targetBit: nat) returns (r: bool)
    requires targetBit < 8
    ensures r == FindBit(bitmaps, targetWindow, targetOffset, targetBit)
  {
    var pos := 0;
    while pos + 2 <= |bitmaps|
      invariant pos <= |bitmaps|
      invariant FindBit(bitmaps[pos..], targetWindow, targetOffset, targetBit) == FindBit(bitmaps, targetWindow, targetOffset, targetBit)
    {
      ghost var rest := bitmaps[pos..];
      var window, len := bitmaps[pos], bitmaps[pos + 1];
      pos := pos + 2;
      if pos + len > |bitmaps| { return false; }
      if window == targetWindow {
        return targetOffset < len && BitSet(bitmaps[pos + targetOffset], targetBit);
      }
      pos := pos + len;
      assert rest[2 + len..] == bitmaps[pos..];
    }
    return false;
  }

  // ---------------------------------------------------------------- the encoding

  /** The byte for the eight types from `base` on, the lowest in the most significant bit. */
  function ByteOf(types: set<Type>, base: nat): (b: byte)
  {
    128 * Weight(types, base) + 64 * Weight(types, base + 1) + 32 * Weight(types, base + 2) + 16 * Weight(types, base + 3) +
    8 * Weight(types, base + 4) + 4 * Weight(types, base + 5) + 2 * Weight(types, base + 6) + Weight(types, base + 7)
  }

  /** Bytes of a window up to the last non-zero one among the first `n`. */
  function WindowBytes(types: set<Type>, window: nat, n: nat): (bs: seq<byte>)
    ensures |bs| <= n
    decreases types, n
  {
    if n == 0 then []
    else if ByteOf(types, 256 * window + 8 * (n - 1)) == 0 then WindowBytes(types, window, n - 1)
    else seq(n, i requires 0 <= i < n => ByteOf(types, 256 * window + 8 * i))
  }

  /** Blocks in increasing window order, empty windows left out. */
  function EncodeFrom(types: set<Type>, window: nat): seq<byte>
    decreases types, 256 - window
  {
    if window >= 256 then []
    else
      var bs := WindowBytes(types, window, 32);
      (if bs == [] then [] else [window as byte, |bs| as byte] + bs) + EncodeFrom(types, window + 1)
  }

  function Encode(types: set<Type>): seq<byte> { EncodeFrom(types, 0) }

  lemma BitsOfSum(b: byte, b0: nat, b1: nat, b2: nat, b3: nat, b4: nat, b5: nat, b6: nat, b7: nat)
    requires b0 < 2 && b1 < 2 && b2 < 2 && b3 < 2 && b4 < 2 && b5 < 2 && b6 < 2 && b7 < 2
    requires b == 128 * b0 + 64 * b1 + 32 * b2 + 16 * b3 + 8 * b4 + 4 * b5 + 2 * b6 + b7
    ensures b / 128 % 2 == b0 && b / 64 % 2 == b1 && b / 32 % 2 == b2 && b / 16 % 2 == b3
    ensures b / 8 % 2 == b4 && b / 4 % 2 == b5 && b / 2 % 2 == b6 && b / 1 % 2 == b7
  {
    assert b / 2 == 64 * b0 + 32 * b1 + 16 * b2 + 8 * b3 + 4 * b4 + 2 * b5 + b6;
    assert b / 4 == 32 * b0 + 16 * b1 + 8 * b2 + 4 * b3 + 2 * b4 + b5;
    assert b / 8 == 16 * b0 + 8 * b1 + 4 * b2 + 2 * b3 + b4;
    assert b / 16 == 8 * b0 + 4 * b1 + 2 * b2 + b3;
    assert b / 32 == 4 * b0 + 2 * b1 + b2;
    assert b / 64 == 2 * b0 + b1;
    assert b / 128 == b0;
  }

  function Weight(types: set<Type>, t: nat): nat { if t in types then 1 else 0 }

  lemma BitOfByte(types: set<Type>, base: nat, j: nat)
    requires j < 8
    ensures BitSet(ByteOf(types, base), 7 - j) <==> base + j in types
  {
    BitsOfSum(ByteOf(types, base), Weight(types, base), Weight(types, base + 1), Weight(types, base + 2), Weight(types, base + 3),
              Weight(types, base + 4), Weight(types, base + 5), Weight(types, base + 6), Weight(types, base + 7));
    var b := ByteOf(types, base);
    assert b / PowerOf(7 - j) % 2 == Weight(types, base + j) by {
      match j { case 0 => case 1 => case 2 => case 3 => case 4 => case 5 => case 6 => case 7 => }
    }
  }

  lemma {:induction false} WindowByteAt(types: set<Type>, window: nat, n: nat, i: nat)
    requires i < n
    ensures var bs := WindowBytes(types, window, n);
      if i < |bs| then bs[i] == ByteOf(types, 256 * window + 8 * i) else ByteOf(types, 256 * window + 8 * i) == 0
  {
    if ByteOf(types, 256 * window + 8 * (n - 1)) == 0 && i < n - 1 { WindowByteAt(types, window, n - 1, i); }
  }

  /** One window block in front of others. */
  lemma FindBitInBlock(from: byte, bs: seq<byte>, rest: seq<byte>, window: nat, offset: nat, bit: nat)
    requires 1 <= |bs| <= 32 && bit < 8
    ensures FindBit([from, |bs| as byte] + bs + rest, window, offset, bit) ==
            if from == window then offset < |bs| && BitSet(bs[offset], bit) else FindBit(rest, window, offset, bit)
  {
    var all := [from, |bs| as byte] + bs + rest;
    assert all[2 + |bs|..] == rest;
    assert offset < |bs| ==> all[2 + offset] == bs[offset];
  }

  lemma {:induction false} FindBitInEncoding(types: set<Type>, from: nat, window: byte, offset: nat, j: nat)
    requires from <= 256 && offset < 32 && j < 8
    ensures FindBit(EncodeFrom(types, from), window, offset, 7 - j) <==> from <= window && 256 * window + 8 * offset + j in types
    decreases 256 - from
  {
    if from < 256 {
      FindBitInEncoding(types, from + 1, window, offset, j);
      var bs, rest := WindowBytes(types, from, 32), EncodeFrom(types, from + 1);
      if bs != [] { FindBitInBlock(from, bs, rest, window, offset, 7 - j); } else { assert [] + rest == rest; }
      if from == window { WindowBit(types, window, offset, j); }
    }
  }

  /** A bit of a window's bytes. */
  lemma WindowBit(types: set<Type>, window: byte, offset: nat, j: nat)
    requires offset < 32 && j < 8
    ensures var bs := WindowBytes(types, window, 32);
      offset < |bs| && BitSet(bs[offset], 7 - j) <==> 256 * window + 8 * offset + j in types
  {
    WindowByteAt(types, window, 32, offset);
    BitOfByte(types, 256 * window + 8 * offset, j);
  }

  /** On the encoding of a set of types the reader is set membership. */
  lemma ContainsIsMembership(types: set<Type>, qtype: Type)
    ensures Contains(Encode(types), qtype) <==> qtype in types
  {
    FindBitInEncoding(types, 0, qtype / 256, qtype % 256 / 8, qtype % 256 % 8);
  }

  /** The test both NODATA verifiers apply to a record at the name. */
  predicate NoData(bitmaps: seq<byte>, qtype: Type) {
    !Contains(bitmaps, qtype) && (qtype == CNAME || !Contains(bitmaps, CNAME))
  }

  /** The type is not among them and, unless the alias type itself is asked for, neither is an alias. */
  predicate Lacks(types: set<Type>, qtype: Type) { qtype !in types && (qtype == 5 || 5 !in types) }

  lemma NoDataIsLacking(types: set<Type>, qtype: Type)
    ensures NoData(Encode(types), qtype) <==> Lacks(types, qtype)
  {
    ContainsIsMembership(types, qtype);
    ContainsIsMembership(types, 5);
  }
}
