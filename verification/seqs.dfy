/** Order-preserving selection on sequences, the shape of the source's list comprehensions with an `if`. */
module Seqs {

  /** The elements of `xs` that satisfy `p`, in their original order. */
  function Filter<T>(p: T -> bool, xs: seq<T>): (r: seq<T>)
    ensures |r| <= |xs|
    ensures forall i :: 0 <= i < |r| ==> r[i] in xs && p(r[i])
    ensures forall i :: 0 <= i < |xs| && p(xs[i]) ==> xs[i] in r
  {
    if |xs| == 0 then [] else (if p(xs[0]) then [xs[0]] else []) + Filter(p, xs[1..])
  }

  /** `xs` is obtained from `ys` by deleting elements: same relative order, no new elements. */
  ghost predicate IsSubseq<T>(xs: seq<T>, ys: seq<T>)
    decreases |ys|
  {
    if |ys| == 0 then |xs| == 0
    else IsSubseq(xs, ys[1..]) || (|xs| > 0 && xs[0] == ys[0] && IsSubseq(xs[1..], ys[1..]))
  }

  lemma {:induction false} FilterIsSubseq<T>(p: T -> bool, xs: seq<T>)
    ensures IsSubseq(Filter(p, xs), xs)
    decreases |xs|
  {
    if |xs| > 0 {
      FilterIsSubseq(p, xs[1..]);
      if p(xs[0]) {
        assert Filter(p, xs) == [xs[0]] + Filter(p, xs[1..]);
        assert Filter(p, xs)[0] == xs[0] && Filter(p, xs)[1..] == Filter(p, xs[1..]);
      } else {
        assert Filter(p, xs) == Filter(p, xs[1..]);
      }
    }
  }

  /** Selecting twice with the same predicate selects nothing more. */
  lemma {:induction false} FilterIdempotent<T>(p: T -> bool, xs: seq<T>)
    ensures Filter(p, Filter(p, xs)) == Filter(p, xs)
    decreases |xs|
  {
    if |xs| > 0 {
      FilterIdempotent(p, xs[1..]);
      if p(xs[0]) {
        assert Filter(p, xs) == [xs[0]] + Filter(p, xs[1..]);
        assert ([xs[0]] + Filter(p, xs[1..]))[1..] == Filter(p, xs[1..]);
      } else {
        assert Filter(p, xs) == Filter(p, xs[1..]);
      }
    }
  }

  /** `xs` in the opposite order (the source's `reversed(...)`). */
  function Reverse<T>(xs: seq<T>): (r: seq<T>)
    ensures |r| == |xs|
    ensures forall i :: 0 <= i < |xs| ==> r[i] == xs[|xs| - 1 - i]
  {
    if |xs| == 0 then [] else Reverse(xs[1..]) + [xs[0]]
  }

  /** Moving the head of `b` onto `a` leaves every `a + b[..i]` unchanged. */
  lemma ShiftPrefix<T>(a: seq<T>, b: seq<T>, i: nat)
    requires 0 < i <= |b|
    ensures (a + [b[0]]) + b[1..][..i - 1] == a + b[..i]
  {
    assert b[..i] == [b[0]] + b[1..][..i - 1];
  }

  /** The concatenation of `f(x)` over the elements `x` of `xs`, in order. */
  function Flatten<T, U>(f: T -> seq<U>, xs: seq<T>): (r: seq<U>)
    ensures |xs| == 0 ==> r == []
    decreases |xs|
  {
    if |xs| == 0 then [] else f(xs[0]) + Flatten(f, xs[1..])
  }

  /** Flattening distributes over concatenation. */
  lemma {:induction false} FlattenAppend<T, U>(f: T -> seq<U>, a: seq<T>, b: seq<T>)
    ensures Flatten(f, a + b) == Flatten(f, a) + Flatten(f, b)
    decreases |a|
  {
    if |a| > 0 {
      assert (a + b)[1..] == a[1..] + b;
      FlattenAppend(f, a[1..], b);
      assert Flatten(f, a + b) == f(a[0]) + Flatten(f, a[1..] + b);
      assert Flatten(f, a) == f(a[0]) + Flatten(f, a[1..]);
      assert f(a[0]) + (Flatten(f, a[1..]) + Flatten(f, b)) == (f(a[0]) + Flatten(f, a[1..])) + Flatten(f, b);
    } else {
      assert a + b == b;
    }
  }

  /** Flattening one element gives its image. */
  lemma FlattenSingle<T, U>(f: T -> seq<U>, x: T)
    ensures Flatten(f, [x]) == f(x)
  {
    assert Flatten(f, [x]) == f([x][0]) + Flatten(f, [x][1..]);
  }

  /** When `r` begins with `a + b`, the part `b` sits in `r` right after `a`. */
  lemma PrefixPart<T>(r: seq<T>, a: seq<T>, b: seq<T>)
    requires |a| + |b| <= |r| && r[..|a| + |b|] == a + b
    ensures r[|a|..|a| + |b|] == b
  {
    assert r[|a|..|a| + |b|] == r[..|a| + |b|][|a|..];
  }

  /** Each part of a five-part concatenation can be cut back out at its offset. */
  lemma ConcatParts<T>(a: seq<T>, b: seq<T>, c: seq<T>, d: seq<T>, e: seq<T>)
    ensures var r := a + b + c + d + e;
      && |r| == |a| + |b| + |c| + |d| + |e|
      && r[..|a|] == a
      && r[|a|..|a| + |b|] == b
      && r[|a| + |b|..|a| + |b| + |c|] == c
      && r[|a| + |b| + |c|..|r| - |e|] == d
      && r[|r| - |e|..] == e
  {
  }

  /** Every element of a flattening comes from the image of some element. */
  lemma {:induction false} FlattenSound<T, U>(f: T -> seq<U>, xs: seq<T>, k: nat)
    requires k < |Flatten(f, xs)|
    ensures exists j, m :: 0 <= j < |xs| && 0 <= m < |f(xs[j])| && Flatten(f, xs)[k] == f(xs[j])[m]
    decreases |xs|
  {
    var head := f(xs[0]);
    assert Flatten(f, xs) == head + Flatten(f, xs[1..]);
    if k < |head| {
      assert Flatten(f, xs)[k] == f(xs[0])[k];
    } else {
      FlattenSound(f, xs[1..], k - |head|);
      var j, m :| 0 <= j < |xs[1..]| && 0 <= m < |f(xs[1..][j])| && Flatten(f, xs[1..])[k - |head|] == f(xs[1..][j])[m];
      assert xs[1..][j] == xs[j + 1];
    }
  }

  /** The image `[d(x)]` of an element `p` selects, and nothing for the others. */
  function Pick<T, U>(p: T -> bool, d: T -> U): T -> seq<U> {
    x => if p(x) then [d(x)] else []
  }

  /** Every element of a picked flattening is the image of a selected element. */
  lemma PickSound<T, U>(p: T -> bool, d: T -> U, xs: seq<T>, k: nat)
    requires k < |Flatten(Pick(p, d), xs)|
    ensures exists j :: 0 <= j < |xs| && p(xs[j]) && Flatten(Pick(p, d), xs)[k] == d(xs[j])
  {
    FlattenSound(Pick(p, d), xs, k);
  }

  /** Flattening skips an element whose image is empty. */
  lemma FlattenSkip<T, U>(f: T -> seq<U>, a: seq<T>, x: T, b: seq<T>)
    requires f(x) == []
    ensures Flatten(f, a + [x] + b) == Flatten(f, a + b)
  {
    FlattenAppend(f, a + [x], b);
    FlattenAppend(f, a, [x]);
    FlattenAppend(f, a, b);
    FlattenSingle(f, x);
  }

  /** Elements whose images are all empty flatten to nothing. */
  lemma {:induction false} FlattenAllEmpty<T, U>(f: T -> seq<U>, xs: seq<T>)
    requires forall i :: 0 <= i < |xs| ==> f(xs[i]) == []
    ensures Flatten(f, xs) == []
    decreases |xs|
  {
    if |xs| > 0 {
      assert f(xs[0]) == [];
      FlattenAllEmpty(f, xs[1..]);
    }
  }

  /** Flattening around one element: what comes before it, its image, what comes after it. */
  lemma FlattenAt<T, U>(f: T -> seq<U>, xs: seq<T>, i: nat)
    requires i < |xs|
    ensures Flatten(f, xs) == Flatten(f, xs[..i]) + f(xs[i]) + Flatten(f, xs[i + 1..])
  {
    var pre, rest, post := xs[..i], xs[i..], xs[i + 1..];
    SplitAt(xs, i);
    FlattenAppend(f, pre, rest);
    assert Flatten(f, rest) == f(xs[i]) + Flatten(f, post);
    Assoc(Flatten(f, pre), f(xs[i]), Flatten(f, post));
  }

  lemma SplitAt<T>(xs: seq<T>, i: nat)
    requires i < |xs|
    ensures xs[..i] + xs[i..] == xs
    ensures xs[i..][0] == xs[i] && xs[i..][1..] == xs[i + 1..]
  {
  }

  lemma Assoc<T>(a: seq<T>, b: seq<T>, c: seq<T>)
    ensures a + (b + c) == a + b + c
  {
  }

  /** The union of `f(x)` over the elements `x` of `xs`. */
  function UnionOf<T, U>(f: T -> set<U>, xs: seq<T>): set<U>
    decreases |xs|
  {
    if |xs| == 0 then {} else f(xs[0]) + UnionOf(f, xs[1..])
  }

  /** A value is in the union exactly when it is in the image of some element. */
  lemma {:induction false} UnionOfMembers<T, U>(f: T -> set<U>, xs: seq<T>, a: U)
    ensures a in UnionOf(f, xs) <==> exists j :: 0 <= j < |xs| && a in f(xs[j])
    decreases |xs|
  {
    if |xs| > 0 {
      UnionOfMembers(f, xs[1..], a);
      if a in UnionOf(f, xs[1..]) {
        var j :| 0 <= j < |xs[1..]| && a in f(xs[1..][j]);
        assert xs[1..][j] == xs[j + 1];
      }
      if exists j :: 0 <= j < |xs| && a in f(xs[j]) {
        var j :| 0 <= j < |xs| && a in f(xs[j]);
        if j > 0 {
          assert xs[1..][j - 1] == xs[j];
        }
      }
    }
  }

  /** The union does not depend on the order of the elements: reversing them changes nothing. */
  lemma UnionOfReverse<T, U>(f: T -> set<U>, xs: seq<T>)
    ensures UnionOf(f, Reverse(xs)) == UnionOf(f, xs)
  {
    var rev := Reverse(xs);
    forall a | a in UnionOf(f, rev) ensures a in UnionOf(f, xs) {
      UnionOfMembers(f, rev, a);
      UnionOfMembers(f, xs, a);
      var j :| 0 <= j < |rev| && a in f(rev[j]);
      assert rev[j] == xs[|xs| - 1 - j];
    }
    forall a | a in UnionOf(f, xs) ensures a in UnionOf(f, rev) {
      UnionOfMembers(f, rev, a);
      UnionOfMembers(f, xs, a);
      var j :| 0 <= j < |xs| && a in f(xs[j]);
      assert rev[|xs| - 1 - j] == xs[j];
    }
  }

  /** Extending the elements by one adds that element's image. */
  lemma {:induction false} UnionOfSnoc<T, U>(f: T -> set<U>, xs: seq<T>, x: T)
    ensures UnionOf(f, xs + [x]) == UnionOf(f, xs) + f(x)
    decreases |xs|
  {
    if |xs| == 0 {
      assert xs + [x] == [x];
      assert UnionOf(f, [x]) == f(x) + UnionOf(f, [x][1..]);
    } else {
      assert (xs + [x])[1..] == xs[1..] + [x];
      UnionOfSnoc(f, xs[1..], x);
    }
  }
}
