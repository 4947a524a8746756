/**
 Counted lists: k values read one after another with the same parser, printed one
 after another. The laws of the list follow from those of its element.
 */
module Repetition {
  import opened Bytes
  import opened Parsing

  type Parser<!T> = (bytes, nat) -> Parsed<T>

  // f accepts exactly the encodings e(x) of the values that fit, wherever they stand.
  ghost predicate Lawful<T(!new)>(f: Parser<T>, e: T -> bytes, fits: T -> bool) {
    && (forall s, p: nat :: p <= |s| && f(s, p).Ok? ==>
          && fits(f(s, p).value)
          && Has(s, p, e(f(s, p).value))
          && f(s, p).next == p + |e(f(s, p).value)|)
    && (forall s, p: nat, x :: Has(s, p, e(x)) && fits(x) ==> f(s, p) == Ok(x, p + |e(x)|))
  }

  // f looks only at the bytes from its position on.
  ghost predicate Relocatable<T(!new)>(f: Parser<T>) {
    forall s, a: nat, p: nat :: a <= |s| ==> f(s, a + p) == f(s[a..], p).Shift(a)
  }

  ghost predicate Advancing<T(!new)>(f: Parser<T>) {
    forall s, p: nat :: Bounded(f(s, p), s, p)
  }

  function Many<T>(f: Parser<T>, s: bytes, p: nat, k: nat): (r: Parsed<seq<T>>)
    ensures r.Ok? ==> |r.value| == k
    decreases k
  {
    if k == 0 then Ok([], p)
    else
      match Many(f, s, p, k - 1)
      case Fail(e, q) => Fail(e, q)
      case Ok(xs, q) =>
        match f(s, q)
        case Fail(e, t) => Fail(e, t)
        case Ok(x, t) => Ok(xs + [x], t)
  }

  function EncMany<T>(e: T -> bytes, xs: seq<T>): bytes {
    if xs == [] then [] else EncMany(e, xs[..|xs| - 1]) + e(xs[|xs| - 1])
  }

  lemma {:induction false} EncManyAppend<T>(e: T -> bytes, xs: seq<T>, x: T)
    ensures EncMany(e, xs + [x]) == EncMany(e, xs) + e(x)
  {
    assert (xs + [x])[..|xs|] == xs;
  }

  // Once an element fails, asking for more elements changes nothing.
  lemma {:induction false} ManyStuck<T>(f: Parser<T>, s: bytes, p: nat, i: nat, k: nat)
    requires i <= k
    requires Many(f, s, p, i).Fail?
    ensures Many(f, s, p, k) == Many(f, s, p, i)
    decreases k
  {
    if i < k {
      ManyStuck(f, s, p, i, k - 1);
    }
  }

  // One more element, or none if it fails.
  lemma ManyStep<T>(f: Parser<T>, s: bytes, p: nat, i: nat, k: nat)
    requires i < k
    requires Many(f, s, p, i).Ok?
    ensures var Ok(xs, q) := Many(f, s, p, i);
            match f(s, q)
            case Ok(x, t) => Many(f, s, p, i + 1) == Ok(xs + [x], t)
            case Fail(e, t) => Many(f, s, p, k) == Fail(e, t)
  {
    if f(s, Many(f, s, p, i).next).Fail? {
      ManyStuck(f, s, p, i + 1, k);
    }
  }

  lemma {:induction false} ManyBounded<T(!new)>(f: Parser<T>, s: bytes, p: nat, k: nat)
    requires Advancing(f)
    ensures Bounded(Many(f, s, p, k), s, p)
    decreases k
  {
    if k > 0 {
      ManyBounded(f, s, p, k - 1);
      var r := Many(f, s, p, k - 1);
      assert r.Ok? ==> Bounded(f(s, r.next), s, r.next);
    }
  }

  lemma {:induction false} ManyShift<T(!new)>(f: Parser<T>, s: bytes, a: nat, p: nat, k: nat)
    requires a <= |s|
    requires Relocatable(f)
    ensures Many(f, s, a + p, k) == Many(f, s[a..], p, k).Shift(a)
    decreases k
  {
    if k > 0 {
      ManyShift(f, s, a, p, k - 1);
      var r := Many(f, s[a..], p, k - 1);
      if r.Ok? {
        assert f(s, a + r.next) == f(s[a..], r.next).Shift(a);
      }
    }
  }

  lemma {:induction false} ManySound<T(!new)>(
    f: Parser<T>, e: T -> bytes, fits: T -> bool, s: bytes, p: nat, k: nat)
    requires p <= |s|
    requires Lawful(f, e, fits)
    requires Many(f, s, p, k).Ok?
    ensures var Ok(xs, q) := Many(f, s, p, k);
            && (forall i :: 0 <= i < k ==> fits(xs[i]))
            && Has(s, p, EncMany(e, xs)) && q == p + |EncMany(e, xs)|
    decreases k
  {
    hide Has;
    if k == 0 {
      HasEmpty(s, p);
    } else {
      ManySound(f, e, fits, s, p, k - 1);
      var Ok(xs, q) := Many(f, s, p, k - 1);
      HasWithin(s, p, EncMany(e, xs));
      var Ok(x, t) := f(s, q);
      assert fits(x) && Has(s, q, e(x)) && t == q + |e(x)|;
      EncManyAppend(e, xs, x);
      HasConcat(s, p, EncMany(e, xs), e(x));
    }
  }

  lemma {:induction false} ManyComplete<T(!new)>(
    f: Parser<T>, e: T -> bytes, fits: T -> bool, s: bytes, p: nat, xs: seq<T>)
    requires Lawful(f, e, fits)
    requires forall i :: 0 <= i < |xs| ==> fits(xs[i])
    requires Has(s, p, EncMany(e, xs))
    ensures Many(f, s, p, |xs|) == Ok(xs, p + |EncMany(e, xs)|)
    decreases |xs|
  {
    hide Has;
    if xs == [] {
      assert EncMany(e, xs) == [];
    } else {
      var init, x := xs[..|xs| - 1], xs[|xs| - 1];
      HasConcat(s, p, EncMany(e, init), e(x));
      ManyComplete(f, e, fits, s, p, init);
      assert xs == init + [x];
    }
  }

  lemma {:induction false} EncManySplit<T>(e: T -> bytes, xs: seq<T>, i: nat)
    requires i <= |xs|
    ensures EncMany(e, xs) == EncMany(e, xs[..i]) + EncMany(e, xs[i..])
    decreases |xs|
  {
    if i == |xs| {
      assert xs[..i] == xs;
    } else {
      var init := xs[..|xs| - 1];
      EncManySplit(e, init, i);
      assert init[..i] == xs[..i];
      assert xs[i..][..|xs| - i - 1] == init[i..];
    }
  }

  // Every element takes at least m bytes.
  lemma {:induction false} EncManyAtLeast<T(!new)>(e: T -> bytes, xs: seq<T>, m: nat)
    requires forall x :: |e(x)| >= m
    ensures |EncMany(e, xs)| >= |xs| * m
    decreases |xs|
  {
    if xs != [] {
      EncManyAtLeast(e, xs[..|xs| - 1], m);
      assert |xs| * m == (|xs| - 1) * m + m;
    }
  }

  // Every element is a contiguous part of the encoding.
  lemma {:induction false} EncManyElement<T>(e: T -> bytes, xs: seq<T>, i: nat)
    requires i < |xs|
    ensures Has(EncMany(e, xs), |EncMany(e, xs[..i])|, e(xs[i]))
  {
    EncManySplit(e, xs, i + 1);
    EncManyAppend(e, xs[..i], xs[i]);
    assert xs[..i + 1] == xs[..i] + [xs[i]];
    HasWhole(EncMany(e, xs[..i]), e(xs[i]), EncMany(e, xs[i + 1..]));
  }

  // Cut short, an encoding is not accepted.
  lemma TruncatedFails<T(!new)>(f: Parser<T>, e: T -> bytes, fits: T -> bool, s: bytes, p: nat, y: T)
    requires Lawful(f, e, fits) && fits(y)
    requires p <= |s| && |s| - p < |e(y)| && s[p..] == e(y)[..|s| - p]
    ensures f(s, p).Fail?
  {
    if f(s, p).Ok? {
      var x := f(s, p).value;
      assert Has(s, p, e(x)) && fits(x);
      var whole := e(y);
      assert Has(whole, 0, e(x)) by {
        assert s[p..][..|e(x)|] == s[p..p + |e(x)|];
        assert whole[..|s| - p][..|e(x)|] == whole[..|e(x)|];
      }
      assert f(whole, 0).value == x;
      assert Has(whole, 0, e(y));
    }
  }
}
