/** Strings as the source handles them: UTF-8, one `char` of value below 256 per byte. */
module Text {

  function LowerChar(c: char): char {
    if 'A' <= c <= 'Z' then c + 32 as char else c
  }

  /** `to_ascii_lowercase` */
  function Lower(s: string): (r: string)
    ensures |r| == |s| && forall i | 0 <= i < |s| :: r[i] == LowerChar(s[i])
  {
    seq(|s|, i requires 0 <= i < |s| => LowerChar(s[i]))
  }

  /** Length of the Unicode white-space character `s` begins with, 0 if there is none. */
  function SpaceAt(s: string): nat {
    if |s| >= 1 && IsSpace1(s[0]) then 1
    else if |s| >= 2 && IsSpace2(s[0], s[1]) then 2
    else if |s| >= 3 && IsSpace3(s[0], s[1], s[2]) then 3
    else 0
  }

  /** The same at the end of `s`. */
  function SpaceBefore(s: string): nat {
    if |s| >= 1 && IsSpace1(s[|s| - 1]) then 1
    else if |s| >= 2 && IsSpace2(s[|s| - 2], s[|s| - 1]) then 2
    else if |s| >= 3 && IsSpace3(s[|s| - 3], s[|s| - 2], s[|s| - 1]) then 3
    else 0
  }

  predicate IsSpace1(c: char) { 9 <= c as int <= 13 || c == ' ' }

  predicate IsSpace2(c: char, d: char) { c as int == 0xC2 && (d as int == 0x85 || d as int == 0xA0) }

  predicate IsSpace3(c: char, d: char, e: char) {
    var (x, y, z) := (c as int, d as int, e as int);
    || (x == 0xE1 && y == 0x9A && z == 0x80)
    || (x == 0xE2 && y == 0x80 && (0x80 <= z <= 0x8A || z == 0xA8 || z == 0xA9 || z == 0xAF))
    || (x == 0xE2 && y == 0x81 && z == 0x9F)
    || (x == 0xE3 && y == 0x80 && z == 0x80)
  }

  function TrimStart(s: string): string {
    if SpaceAt(s) == 0 then s else TrimStart(s[SpaceAt(s)..])
  }

  function TrimEnd(s: string): string {
    if SpaceBefore(s) == 0 then s else TrimEnd(s[..|s| - SpaceBefore(s)])
  }

  /** `str::trim` */
  function Trim(s: string): string { TrimEnd(TrimStart(s)) }

  /** `trim_end_matches('.')` */
  function TrimDots(s: string): string {
    if s != "" && s[|s| - 1] == '.' then TrimDots(s[..|s| - 1]) else s
  }

  predicate EndsWith(s: string, suffix: string) { |suffix| <= |s| && s[|s| - |suffix|..] == suffix }

  /** No white space begins or ends anywhere in `s`. */
  ghost predicate NoSpace(s: string) {
    forall i | 0 <= i <= |s| :: SpaceAt(s[i..]) == 0 && SpaceBefore(s[..i]) == 0
  }

  /** `s` is what follows some dot of `d`. */
  ghost predicate IsParent(s: string, d: string) {
    exists i :: 0 <= i < |d| && d[i] == '.' && s == d[i + 1..]
  }

  lemma {:induction false} TrimDotsResult(s: string)
    ensures TrimDots(s) <= s && (TrimDots(s) != "" ==> TrimDots(s)[|TrimDots(s)| - 1] != '.')
  {
    if s != "" && s[|s| - 1] == '.' { TrimDotsResult(s[..|s| - 1]); }
  }

  lemma LowerIdempotent(s: string)
    ensures Lower(Lower(s)) == Lower(s)
  {
  }

  lemma NoSpaceSuffix(s: string, i: nat)
    requires NoSpace(s) && i <= |s|
    ensures Trim(s[i..]) == s[i..]
  {
    var u := s[i..];
    assert SpaceAt(u) == 0;
    assert s[..|s|] == s;
    assert |u| >= 2 ==> u[|u| - 2] == s[|s| - 2];
    assert |u| >= 3 ==> u[|u| - 3] == s[|s| - 3];
  }

  // ---------------------------------------------------------------- labels

  /** `split('.')` */
  function Split(s: string): (labels: seq<string>)
    ensures labels != []
  {
    var k := FirstDot(s);
    if k == |s| then [s] else [s[..k]] + Split(s[k + 1..])
  }

  function FirstDot(s: string): (k: nat)
    ensures k <= |s| && (forall i | 0 <= i < k :: s[i] != '.') && (k < |s| ==> s[k] == '.')
  {
    DotFrom(s, 0)
  }

  function DotFrom(s: string, start: nat): (k: nat)
    requires start <= |s|
    ensures start <= k <= |s| && (forall i | start <= i < k :: s[i] != '.') && (k < |s| ==> s[k] == '.')
    decreases |s| - start
  {
    if start == |s| || s[start] == '.' then start else DotFrom(s, start + 1)
  }

  /** `join(".")` */
  function Join(labels: seq<string>): string
    requires labels != []
  {
    if |labels| == 1 then labels[0] else labels[0] + "." + Join(labels[1..])
  }

  lemma JoinCons(l: string, rest: seq<string>)
    requires rest != []
    ensures Join([l] + rest) == l + "." + Join(rest)
  {
    assert ([l] + rest)[1..] == rest;
  }

  lemma CutAtDot(s: string, k: nat)
    requires k < |s| && s[k] == '.'
    ensures s == s[..k] + "." + s[k + 1..]
  {
  }

  lemma {:induction false} JoinSplit(s: string)
    ensures Join(Split(s)) == s
    decreases |s|
  {
    var k := FirstDot(s);
    if k < |s| {
      JoinSplit(s[k + 1..]);
      JoinCons(s[..k], Split(s[k + 1..]));
      CutAtDot(s, k);
    } else {
      assert Split(s) == [s];
    }
  }

  predicate DotFree(s: string) { forall i | 0 <= i < |s| :: s[i] != '.' }

  lemma {:induction false} SplitDotFree(s: string)
    ensures forall i | 0 <= i < |Split(s)| :: DotFree(Split(s)[i])
    decreases |s|
  {
    var k := FirstDot(s);
    if k < |s| { SplitDotFree(s[k + 1..]); }
  }

  /** A dot-free text in front of a dot is the first label. */
  lemma SplitDotted(c: string, l: string, rest: string)
    requires c == l + "." + rest && DotFree(l)
    ensures Split(c) == [l] + Split(rest)
  {
    assert c[|l|] == '.' && c[..|l|] == l && c[|l| + 1..] == rest;
    assert forall i | 0 <= i < |l| :: c[i] == l[i];
    assert FirstDot(c) == |l|;
  }

  lemma SplitUndotted(s: string)
    requires DotFree(s)
    ensures Split(s) == [s]
  {
    assert FirstDot(s) == |s|;
  }

  /** Splitting undoes joining. */
  lemma {:induction false} SplitJoin(labels: seq<string>)
    requires labels != [] && forall i | 0 <= i < |labels| :: DotFree(labels[i])
    ensures Split(Join(labels)) == labels
  {
    if |labels| == 1 {
      SplitUndotted(labels[0]);
    } else {
      SplitJoin(labels[1..]);
      SplitDotted(Join(labels), labels[0], Join(labels[1..]));
    }
  }

  /** The labels from the i-th on are what follows a dot. */
  lemma {:induction false} JoinTail(labels: seq<string>, i: nat) returns (p: nat)
    requires i < |labels|
    ensures var s := Join(labels);
      p <= |s| && Join(labels[i..]) == s[p..] && (i == 0 ==> p == 0) && (i > 0 ==> p > 0 && s[p - 1] == '.')
  {
    if i == 0 {
      p := 0;
      assert labels[0..] == labels && Join(labels)[0..] == Join(labels);
    } else {
      var q := JoinTail(labels[1..], i - 1);
      p := |labels[0]| + 1 + q;
      assert labels[1..][i - 1..] == labels[i..];
      DropTwo(labels[0], Join(labels[1..]), q);
    }
  }

  lemma DropTwo(l: string, rest: string, q: nat)
    requires q <= |rest|
    ensures (l + "." + rest)[|l| + 1 + q..] == rest[q..]
    ensures (l + "." + rest)[|l| + q] == if q == 0 then '.' else rest[q - 1]
  {
  }

  /** The labels from the i-th on, joined, are the end of the string after its i-th dot. */
  lemma JoinEnd(s: string, labels: seq<string>, i: nat)
    requires i < |labels| && s == Join(labels) && forall i | 0 <= i < |labels| :: DotFree(labels[i])
    ensures var t := Join(labels[i..]);
      Split(t) == labels[i..] && EndsWith(s, t) && (i == 0 ==> t == s) && (i > 0 ==> |t| < |s| && s[|s| - |t| - 1] == '.')
  {
    var p := JoinTail(labels, i);
    SplitJoin(labels[i..]);
  }

  // ---------------------------------------------------------------- trimming a name's text

  lemma SpaceAtLower(s: string)
    ensures SpaceAt(Lower(s)) == SpaceAt(s) && SpaceBefore(Lower(s)) == SpaceBefore(s)
  {
  }

  lemma {:induction false} TrimStartLower(s: string)
    ensures TrimStart(Lower(s)) == Lower(TrimStart(s))
    decreases |s|
  {
    SpaceAtLower(s);
    var n := SpaceAt(s);
    if n == 0 {
    } else {
      TrimStartLower(s[n..]);
      assert Lower(s)[n..] == Lower(s[n..]);
    }
  }

  lemma SpaceAtBeforeDots(s: string, dots: string)
    requires s != "" && forall i | 0 <= i < |dots| :: dots[i] == '.'
    ensures SpaceAt(s + dots) == SpaceAt(s)
  {
    var u := s + dots;
    assert |s| == 1 && |dots| >= 1 ==> u[1] == '.';
    assert |s| == 2 && |dots| >= 1 ==> u[2] == '.';
  }

  lemma SpaceBeforeSuffix(s: string, n: nat)
    requires SpaceBefore(s) == 0 && n < |s|
    ensures SpaceBefore(s[n..]) == 0
  {
    var r := s[n..];
    assert r[|r| - 1] == s[|s| - 1];
    assert |r| >= 2 ==> r[|r| - 2] == s[|s| - 2];
    assert |r| >= 3 ==> r[|r| - 3] == s[|s| - 3];
  }

  /** A string that does not end in white space has more than white space in it. */
  lemma NotOnlySpace(s: string)
    requires s != "" && SpaceBefore(s) == 0
    ensures SpaceAt(s) < |s|
  {
  }

  lemma SliceOfSlice(s: string, n: nat, q: nat)
    requires n <= |s| && q <= |s| - n
    ensures s[n..][q..] == s[n + q..]
  {
  }

  lemma {:induction false} TrimStartDrops(s: string) returns (p: nat)
    requires s != "" && SpaceBefore(s) == 0
    ensures p < |s| && TrimStart(s) == s[p..]
    decreases |s|
  {
    var n := SpaceAt(s);
    if n == 0 {
      p := 0;
      assert s[0..] == s;
    } else {
      NotOnlySpace(s);
      SpaceBeforeSuffix(s, n);
      var q := TrimStartDrops(s[n..]);
      p := n + q;
      SliceOfSlice(s, n, q);
    }
  }

  lemma {:induction false} TrimStartBeforeDots(s: string, dots: string)
    requires s != "" && SpaceBefore(s) == 0 && forall i | 0 <= i < |dots| :: dots[i] == '.'
    ensures TrimStart(s + dots) == TrimStart(s) + dots
    decreases |s|
  {
    var n := SpaceAt(s);
    SpaceAtBeforeDots(s, dots);
    if n == 0 {
    } else {
      NotOnlySpace(s);
      SpaceBeforeSuffix(s, n);
      TrimStartBeforeDots(s[n..], dots);
      assert (s + dots)[n..] == s[n..] + dots;
    }
  }

  lemma TrimStartKeepsEnd(s: string, dots: string)
    requires s != "" && SpaceBefore(s) == 0 && forall i | 0 <= i < |dots| :: dots[i] == '.'
    ensures TrimStart(s) != "" && EndsWith(s, TrimStart(s)) && SpaceBefore(TrimStart(s)) == 0
    ensures TrimStart(s + dots) == TrimStart(s) + dots
  {
    var p := TrimStartDrops(s);
    SpaceBeforeSuffix(s, p);
    TrimStartBeforeDots(s, dots);
  }
}
