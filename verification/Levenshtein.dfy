/** `levenshtein_dist` (src/security/heuristics.rs): one in-place row of costs. */
module Levenshtein {

  // ---------------------------------------------------------------- edit scripts, the meaning

  /** One step of a script read from left to right against a source string. */
  datatype Edit<T> = Keep(c: T) | Substitute(from: T, to: T) | Insert(to: T) | Delete(from: T) {
    function Reads(): seq<T> {
      match this case Keep(c) => [c] case Substitute(f, _) => [f] case Insert(_) => [] case Delete(f) => [f]
    }
    function Writes(): seq<T> {
      match this case Keep(c) => [c] case Substitute(_, t) => [t] case Insert(t) => [t] case Delete(_) => []
    }
    function Cost(): nat { if Keep? then 0 else 1 }
  }

  function Source<T>(script: seq<Edit<T>>): seq<T> {
    if script == [] then [] else Source(script[..|script| - 1]) + script[|script| - 1].Reads()
  }

  function Target<T>(script: seq<Edit<T>>): seq<T> {
    if script == [] then [] else Target(script[..|script| - 1]) + script[|script| - 1].Writes()
  }

  function Length<T>(script: seq<Edit<T>>): nat {
    if script == [] then 0 else Length(script[..|script| - 1]) + script[|script| - 1].Cost()
  }

  predicate Edits<T(==)>(script: seq<Edit<T>>, a: seq<T>, b: seq<T>) {
    Source(script) == a && Target(script) == b
  }

  // ---------------------------------------------------------------- the recurrence of the loop

  function Min(x: nat, y: nat): nat { if y < x then y else x }

  function Init<T>(s: seq<T>): seq<T> requires s != [] { s[..|s| - 1] }
  function Last<T>(s: seq<T>): T requires s != [] { s[|s| - 1] }

  /** On equal last elements the loop looks at the diagonal alone. */
  function Dist<T(==)>(a: seq<T>, b: seq<T>): nat
    decreases |a| + |b|
  {
    if a == [] then |b|
    else if b == [] then |a|
    else if Last(a) == Last(b) then Dist(Init(a), Init(b))
    else Min(Min(Dist(Init(a), Init(b)), Dist(Init(a), b)), Dist(a, Init(b))) + 1
  }

  /** Dropping a last element moves the distance by at most one; this is why the diagonal alone is enough. */
  lemma {:induction false} DropLast<T>(a: seq<T>, b: seq<T>)
    ensures a != [] ==> Dist(a, b) <= Dist(Init(a), b) + 1 && Dist(Init(a), b) <= Dist(a, b) + 1
    ensures b != [] ==> Dist(a, b) <= Dist(a, Init(b)) + 1 && Dist(a, Init(b)) <= Dist(a, b) + 1
    decreases |a| + |b|
  {
    if a != [] && b != [] {
      DropLast(Init(a), Init(b));
      DropLast(Init(a), b);
      DropLast(a, Init(b));
    }
  }

  /** Every script from `a` to `b` costs at least the distance. */
  lemma {:induction false} NoScriptIsShorter<T>(script: seq<Edit<T>>, a: seq<T>, b: seq<T>)
    requires Edits(script, a, b)
    ensures Dist(a, b) <= Length(script)
    decreases |script|
  {
    if script == [] {
    } else {
      var rest, last := Init(script), Last(script);
      var a', b' := Source(rest), Target(rest);
      NoScriptIsShorter(rest, a', b');
      EditCosts(a', b', last, a, b);
    }
  }

  /** One more edit lowers the distance by no more than its cost. */
  lemma EditCosts<T>(a': seq<T>, b': seq<T>, e: Edit<T>, a: seq<T>, b: seq<T>)
    requires a == a' + e.Reads() && b == b' + e.Writes()
    ensures Dist(a, b) <= Dist(a', b') + e.Cost()
  {
    assert if e.Reads() == [] then a == a' else Init(a) == a' && Last(a) == e.Reads()[0];
    assert if e.Writes() == [] then b == b' else Init(b) == b' && Last(b) == e.Writes()[0];
    DropLast(a, b);
  }

  lemma ScriptAppend<T>(script: seq<Edit<T>>, e: Edit<T>)
    ensures Source(script + [e]) == Source(script) + e.Reads()
    ensures Target(script + [e]) == Target(script) + e.Writes()
    ensures Length(script + [e]) == Length(script) + e.Cost()
  {
    assert (script + [e])[..|script|] == script;
  }

  /** Some script from `a` to `b` costs exactly the distance. */
  lemma {:induction false} ShortestScript<T>(a: seq<T>, b: seq<T>) returns (script: seq<Edit<T>>)
    ensures Edits(script, a, b) && Length(script) == Dist(a, b)
    decreases |a| + |b|
  {
    if a == [] && b == [] {
      script := [];
    } else {
      var a', b', e := a, b, Delete(if a == [] then Last(b) else Last(a));
      if a == [] || (b != [] && Last(a) != Last(b) && Dist(a, b) == Dist(a, Init(b)) + 1) {
        b', e := Init(b), Insert(Last(b));
      } else if b == [] || (Last(a) != Last(b) && Dist(a, b) == Dist(Init(a), b) + 1) {
        a' := Init(a);
      } else {
        a', b' := Init(a), Init(b);
        e := if Last(a) == Last(b) then Keep(Last(a)) else Substitute(Last(a), Last(b));
      }
      assert a == a' + e.Reads() && b == b' + e.Writes();
      assert Dist(a, b) == Dist(a', b') + e.Cost();
      script := ShortestScript(a', b');
      ScriptAppend(script, e);
      script := script + [e];
    }
  }

  // ---------------------------------------------------------------- a metric

  lemma {:induction false} ZeroExactlyOnEqual<T>(a: seq<T>, b: seq<T>)
    ensures Dist(a, b) == 0 <==> a == b
    decreases |a|
  {
    if a != [] && b != [] {
      ZeroExactlyOnEqual(Init(a), Init(b));
      assert a == Init(a) + [Last(a)] && b == Init(b) + [Last(b)];
    }
  }

  lemma {:induction false} Symmetric<T>(a: seq<T>, b: seq<T>)
    ensures Dist(a, b) == Dist(b, a)
    decreases |a| + |b|
  {
    if a != [] && b != [] {
      Symmetric(Init(a), Init(b));
      Symmetric(Init(a), b);
      Symmetric(a, Init(b));
    }
  }

  lemma {:induction false} TriangleInequality<T>(a: seq<T>, b: seq<T>, c: seq<T>)
    ensures Dist(a, c) <= Dist(a, b) + Dist(b, c)
    decreases |a| + |b| + |c|
  {
    DropLast(a, c);
    if a != [] { TriangleInequality(Init(a), b, c); }
    if c != [] { TriangleInequality(a, b, Init(c)); }
    if b == [] {
    } else {
      TriangleInequality(a, Init(b), c);
      if a != [] { TriangleInequality(Init(a), Init(b), c); }
      if c != [] { TriangleInequality(a, Init(b), Init(c)); }
      if a != [] && c != [] { TriangleInequality(Init(a), Init(b), Init(c)); }
    }
  }

  // ---------------------------------------------------------------- the loop

  /** The entry of the table for the first i and the first j elements. */
  function Entry<T(==)>(a: seq<T>, b: seq<T>, i: nat, j: nat): nat
    requires i <= |a| && j <= |b|
  {
    Dist(a[..i], b[..j])
  }

  lemma EntryIs<T>(a: seq<T>, b: seq<T>, i: nat, j: nat)
    requires i < |a| && j < |b|
    ensures Entry(a, b, i + 1, j + 1) ==
            if a[i] == b[j] then Entry(a, b, i, j)
            else Min(Min(Entry(a, b, i, j), Entry(a, b, i + 1, j)), Entry(a, b, i, j + 1)) + 1
  {
    assert Init(a[..i + 1]) == a[..i] && Init(b[..j + 1]) == b[..j];
  }

  /** The row of the distances from the first i elements of `a`. */
  ghost predicate IsRow<T>(costs: array<nat>, a: seq<T>, b: seq<T>, i: nat)
    requires i <= |a| && costs.Length == |b| + 1
    reads costs
  {
    forall j | 0 <= j <= |b| :: costs[j] == Entry(a, b, i, j)
  }

  /** The inner loop: one row overwritten from left to right, with the old diagonal in `lastVal`. */
  method NextRow<T(==)>(costs: array<nat>, a: seq<T>, b: seq<T>, i: nat)
    requires i < |a| && costs.Length == |b| + 1 && IsRow(costs, a, b, i)
    modifies costs
    ensures IsRow(costs, a, b, i + 1)
  {
    var lastVal := i;
    assert b[..0] == [] && costs[0] == i;
    costs[0] := i + 1;
    for j := 0 to |b|
      invariant forall k | 0 <= k <= j :: costs[k] == Entry(a, b, i + 1, k)
      invariant forall k | j < k <= |b| :: costs[k] == Entry(a, b, i, k)
      invariant lastVal == Entry(a, b, i, j)
    {
      var newVal := lastVal;
      if a[i] != b[j] {
        newVal := Min(Min(newVal, costs[j]), costs[j + 1]) + 1;
      }
      EntryIs(a, b, i, j);
      lastVal := costs[j + 1];
      costs[j + 1] := newVal;
    }
  }

  /** `levenshtein_dist` */
  method LevenshteinDist<T(==)>(a: seq<T>, b: seq<T>) returns (d: nat)
    ensures d == Dist(a, b)
  {
    var costs := new nat[|b| + 1](j => j);
    assert forall j | 0 <= j <= |b| :: Dist(a[..0], b[..j]) == j;
    for i := 0 to |a|
      invariant IsRow(costs, a, b, i)
    {
      NextRow(costs, a, b, i);
    }
    assert a[..|a|] == a && b[..|b|] == b;
    d := costs[|b|];
  }
}
