/** `sorted(set(xs))` on strings: the distinct strings in ascending
    code-point order. */
module Sorting {
  import opened PyStr

  predicate StrictlyAscending(s: seq<string>) {
    forall i, j :: 0 <= i < j < |s| ==> LexLess(s[i], s[j])
  }

  /** Strictly ascending sequences hold no string twice. */
  lemma AscendingIsDistinct(s: seq<string>, i: nat, j: nat)
    requires StrictlyAscending(s)
    requires i < j < |s|
    ensures s[i] != s[j]
  {
    LexLessIrreflexive(s[i]);
  }

  /** Inserts `x` into a strictly ascending sequence, unless it is there. */
  function InsertDistinct(x: string, s: seq<string>): (r: seq<string>)
    requires StrictlyAscending(s)
    ensures StrictlyAscending(r)
    ensures forall y :: y in r <==> y in s || y == x
  {
    if s == [] then [x]
    else if x == s[0] then s
    else if LexLess(x, s[0]) then
      PrependSmaller(x, s);
      [x] + s
    else
      LexLessTotal(x, s[0]);
      var rest := InsertDistinct(x, s[1..]);
      PrependSmallest(s[0], rest, s);
      [s[0]] + rest
  }

  lemma PrependSmaller(x: string, s: seq<string>)
    requires StrictlyAscending(s) && s != [] && LexLess(x, s[0])
    ensures StrictlyAscending([x] + s)
  {
    forall j | 1 <= j < |s| + 1 ensures LexLess(x, ([x] + s)[j]) {
      if j > 1 {
        LexLessTransitive(x, s[0], s[j - 1]);
      }
    }
  }

  lemma PrependSmallest(h: string, rest: seq<string>, s: seq<string>)
    requires StrictlyAscending(rest) && StrictlyAscending(s) && s != [] && h == s[0]
    requires forall y :: y in rest ==> y in s[1..] || LexLess(h, y)
    ensures StrictlyAscending([h] + rest)
  {
    forall j | 0 <= j < |rest| ensures LexLess(h, rest[j]) {
      if rest[j] in s[1..] {
        var k :| 0 <= k < |s[1..]| && s[1..][k] == rest[j];
        assert s[k + 1] == rest[j];
      }
    }
  }

  /** `sorted(set(xs))`: strictly ascending (so without repetitions), and
      holding exactly the strings of `xs`. */
  function SortedDistinct(xs: seq<string>): (r: seq<string>)
    ensures StrictlyAscending(r)
    ensures forall y :: y in r <==> y in xs
    ensures |r| <= |xs|
    ensures xs == [] <==> r == []
  {
    if xs == [] then []
    else
      var init := xs[..|xs| - 1];
      assert xs == init + [xs[|xs| - 1]];
      var r := InsertDistinct(xs[|xs| - 1], SortedDistinct(init));
      DistinctBound(r, xs);
      r
  }

  /** A sequence without repetitions is no longer than any sequence that
      holds all its elements. */
  lemma {:induction false} DistinctBound(r: seq<string>, xs: seq<string>)
    requires StrictlyAscending(r)
    requires forall y :: y in r ==> y in xs
    ensures |r| <= |xs|
  {
    var setR := set y | y in r;
    var setX := set y | y in xs;
    assert setR <= setX;
    DistinctCard(r);
    SeqSetCard(xs);
    assert |setR| <= |setX| by {
      SubsetCard(setR, setX);
    }
  }

  lemma SubsetCard(a: set<string>, b: set<string>)
    requires a <= b
    ensures |a| <= |b|
  {
    assert b == a + (b - a);
  }

  lemma {:induction false} DistinctCard(r: seq<string>)
    requires StrictlyAscending(r)
    ensures |set y | y in r| == |r|
  {
    if r != [] {
      var t := r[1..];
      assert StrictlyAscending(t);
      DistinctCard(t);
      forall k | 0 <= k < |t| ensures t[k] != r[0] {
        AscendingIsDistinct(r, 0, k + 1);
      }
      assert (set y | y in r) == {r[0]} + (set y | y in t);
    }
  }

  lemma {:induction false} SeqSetCard(xs: seq<string>)
    ensures |set y | y in xs| <= |xs|
  {
    if xs != [] {
      SeqSetCard(xs[1..]);
      assert (set y | y in xs) == {xs[0]} + (set y | y in xs[1..]);
    }
  }
}
