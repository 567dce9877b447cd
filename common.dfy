/** The exceptions the engine raises, and a result type that carries them. */
module Outcome {

  datatype Error =
    /** `pick_n_random_without_duplicates` was asked for more distinct variants than exist. */
    | ValueError(requested: int, available: int)
    /** `deambigulate_random` met a symbol that is neither a base nor an ambiguity code. */
    | KeyError(symbol: char)
    /** The finite random oracle ran out before an unbounded retry loop of the source finished. */
    | OutOfDraws

  datatype Result<T> = Success(value: T) | Failure(error: Error)
}

/** Small facts about sequences used throughout the model. */
module SeqUtil {

  /** No value occurs twice. */
  predicate Distinct<T(==)>(xs: seq<T>) {
    forall i, j :: 0 <= i < j < |xs| ==> xs[i] != xs[j]
  }

  /** Python's `xs * k`: `k` copies of `xs` one after the other (none when `k <= 0`). */
  function Repeat<T>(xs: seq<T>, k: int): seq<T>
    decreases if k <= 0 then 0 else k
  {
    if k <= 0 then [] else xs + Repeat(xs, k - 1)
  }

  /** The concatenation of a list of lists, in order. */
  function Flatten<T>(xss: seq<seq<T>>): seq<T> {
    if xss == [] then [] else Flatten(xss[..|xss| - 1]) + xss[|xss| - 1]
  }

  lemma {:induction false} RepeatLength<T>(xs: seq<T>, k: int)
    ensures |Repeat(xs, k)| == (if k <= 0 then 0 else k * |xs|)
    decreases if k <= 0 then 0 else k
  {
    if k > 0 {
      RepeatLength(xs, k - 1);
    }
  }

  /** Every copy holds each value as often as `xs` does. */
  lemma {:induction false} RepeatMultiplicity<T>(xs: seq<T>, k: int, v: T)
    requires k >= 0
    ensures multiset(Repeat(xs, k))[v] == k * multiset(xs)[v]
    decreases k
  {
    if k > 0 {
      RepeatMultiplicity(xs, k - 1, v);
      assert multiset(Repeat(xs, k)) == multiset(xs) + multiset(Repeat(xs, k - 1));
      var m := multiset(xs)[v];
      calc {
        multiset(Repeat(xs, k))[v];
        m + (k - 1) * m;
        { assert (k - 1) * m + m == k * m; }
        k * m;
      }
    }
  }

  lemma {:induction false} RepeatMembers<T>(xs: seq<T>, k: int, v: T)
    ensures v in Repeat(xs, k) ==> v in xs
    decreases if k <= 0 then 0 else k
  {
    if k > 0 {
      RepeatMembers(xs, k - 1, v);
    }
  }

  /** A value occurs at most once in a duplicate-free list. */
  lemma {:induction false} DistinctMultiplicity<T>(xs: seq<T>, v: T)
    requires Distinct(xs)
    ensures multiset(xs)[v] == if v in xs then 1 else 0
  {
    if xs != [] {
      var last := xs[|xs| - 1];
      var init := xs[..|xs| - 1];
      assert xs == init + [last];
      assert Distinct(init);
      DistinctMultiplicity(init, v);
      assert last !in init;
    }
  }

  /** Joining two duplicate-free lists with no value in common gives a duplicate-free list. */
  lemma DistinctAppend<T>(a: seq<T>, b: seq<T>)
    requires Distinct(a) && Distinct(b)
    requires forall x :: x in a ==> x !in b
    ensures Distinct(a + b)
  {
    forall i, j | 0 <= i < j < |a + b|
      ensures (a + b)[i] != (a + b)[j]
    {
      if j >= |a| && i < |a| {
        assert (a + b)[i] in a && (a + b)[j] in b;
      }
    }
  }

  /** A prefix one longer is the shorter prefix plus the next element. */
  lemma PrefixSnoc<T>(t: seq<T>, k: nat)
    requires 0 < k <= |t|
    ensures t[..k - 1] + [t[k - 1]] == t[..k]
  {
  }

  /** A prefix holds no more copies of any value than the whole. */
  lemma PrefixSubMultiset<T>(t: seq<T>, k: nat)
    requires k <= |t|
    ensures multiset(t[..k]) <= multiset(t)
  {
    assert t == t[..k] + t[k..];
  }

  /** Fewer copies of every value means no new values. */
  lemma SubMultisetMembers<T>(a: seq<T>, b: seq<T>)
    requires multiset(a) <= multiset(b)
    ensures forall v :: v in a ==> v in b
  {
    forall v | v in a ensures v in b {
      assert v in multiset(a);
    }
  }
}
