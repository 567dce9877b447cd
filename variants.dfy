/** Counting and exhaustively listing the concrete variants of an ambiguous sequence
    (`calculate_number_of_possible_variants` and `deambigulate_all`). */
module Variants {
  import opened SeqUtil
  import opened Iupac

  // ---------------------------------------------------------------------------
  // Variant counting
  // ---------------------------------------------------------------------------

  /** `calculate_number_of_possible_variants`: the product of `len(dnc[x])` over the symbols
      `x` of `s` that are keys of the table (case-sensitively); every other symbol counts 1. */
  function NumberOfPossibleVariants(s: string): (r: nat)
    ensures r >= 1
  {
    if s == [] then 1
    else (if s[0] in Dnc then |Dnc[s[0]]| else 1) * NumberOfPossibleVariants(s[1..])
  }

  /** The count is 1 exactly when no symbol of `s` is an ambiguity code. */
  lemma {:induction false} CountIsOneIffNoCode(s: string)
    ensures NumberOfPossibleVariants(s) == 1 <==> forall i :: 0 <= i < |s| ==> s[i] !in Dnc
  {
    if s != [] {
      CountIsOneIffNoCode(s[1..]);
      var rest := NumberOfPossibleVariants(s[1..]);
      if s[0] in Dnc {
        DncWellFormed();
        var f := |Dnc[s[0]]|;
        assert f * rest >= 2 * rest >= 2;
      } else {
        assert NumberOfPossibleVariants(s) == rest;
        assert forall i :: 1 <= i < |s| ==> s[i] == s[1..][i - 1];
      }
    }
  }

  // ---------------------------------------------------------------------------
  // Reference definition: the Cartesian product of the position options
  // ---------------------------------------------------------------------------

  /** `t` is a concrete reading of `s`: same length, each code replaced by one of its bases,
      every other symbol kept. */
  predicate IsVariantOf(s: string, t: string) {
    |t| == |s| && forall i :: 0 <= i < |s| ==> t[i] in Options(s[i])
  }

  function PrependEach(c: char, tails: seq<string>): seq<string> {
    seq(|tails|, i requires 0 <= i < |tails| => [c] + tails[i])
  }

  /** Each option in turn, combined with every tail: the option varies slowest. */
  function Combine(opts: string, tails: seq<string>): seq<string> {
    if opts == [] then [] else PrependEach(opts[0], tails) + Combine(opts[1..], tails)
  }

  /** All readings of `s`, the leftmost position varying slowest and each position running
      through its options in table order. */
  function Product(s: string): seq<string> {
    if s == [] then [[]] else Combine(Options(s[0]), Product(s[1..]))
  }

  lemma {:induction false} CombineLength(opts: string, tails: seq<string>)
    ensures |Combine(opts, tails)| == |opts| * |tails|
  {
    if opts != [] {
      CombineLength(opts[1..], tails);
      assert |tails| + (|opts| - 1) * |tails| == |opts| * |tails|;
    }
  }

  /** There are as many readings as the variant count says. */
  lemma {:induction false} ProductCount(s: string)
    ensures |Product(s)| == NumberOfPossibleVariants(s)
  {
    if s != [] {
      ProductCount(s[1..]);
      CombineLength(Options(s[0]), Product(s[1..]));
    }
  }

  lemma {:induction false} CombineMembers(opts: string, tails: seq<string>, t: string)
    ensures t in Combine(opts, tails) <==> |t| >= 1 && t[0] in opts && t[1..] in tails
  {
    if opts != [] {
      CombineMembers(opts[1..], tails, t);
      if |t| >= 1 && t[0] == opts[0] && t[1..] in tails {
        var i :| 0 <= i < |tails| && tails[i] == t[1..];
        assert t == [opts[0]] + tails[i];
        assert PrependEach(opts[0], tails)[i] == t;
      }
    }
  }

  /** The product holds exactly the readings of `s`. */
  lemma {:induction false} ProductMembers(s: string, t: string)
    ensures t in Product(s) <==> IsVariantOf(s, t)
  {
    if s != [] {
      CombineMembers(Options(s[0]), Product(s[1..]), t);
      if |t| >= 1 {
        ProductMembers(s[1..], t[1..]);
        if IsVariantOf(s[1..], t[1..]) && t[0] in Options(s[0]) {
          forall i | 0 <= i < |s| ensures t[i] in Options(s[i]) {
            if i > 0 {
              assert t[1..][i - 1] in Options(s[1..][i - 1]);
            }
          }
        }
        if IsVariantOf(s, t) {
          forall i | 0 <= i < |s| - 1 ensures t[1..][i] in Options(s[1..][i]) {
            assert t[i + 1] in Options(s[i + 1]);
          }
        }
      }
    }
  }

  lemma {:induction false} PrependEachDistinct(c: char, tails: seq<string>)
    requires Distinct(tails)
    ensures Distinct(PrependEach(c, tails))
  {
    var r := PrependEach(c, tails);
    forall i, j | 0 <= i < j < |r| ensures r[i] != r[j] {
      assert r[i][1..] == tails[i] && r[j][1..] == tails[j];
    }
  }

  lemma {:induction false} CombineDistinct(opts: string, tails: seq<string>)
    requires Distinct(opts) && Distinct(tails)
    ensures Distinct(Combine(opts, tails))
  {
    if opts != [] {
      var head := PrependEach(opts[0], tails);
      var rest := Combine(opts[1..], tails);
      PrependEachDistinct(opts[0], tails);
      CombineDistinct(opts[1..], tails);
      forall x | x in head ensures x !in rest {
        CombineMembers(opts[1..], tails, x);
        assert x[0] == opts[0];
      }
      DistinctAppend(head, rest);
    }
  }

  /** No reading is listed twice. */
  lemma {:induction false} ProductDistinct(s: string)
    ensures Distinct(Product(s))
  {
    if s != [] {
      OptionsFacts(s[0]);
      ProductDistinct(s[1..]);
      CombineDistinct(Options(s[0]), Product(s[1..]));
    }
  }

  // ---------------------------------------------------------------------------
  // Exhaustive expansion
  // ---------------------------------------------------------------------------

  /** What position `i` of a result may hold: the bases of its upper-cased code, or the
      symbol itself when it is no code. */
  function UpperOptions(c: char): string {
    if Upper(c) in Dnc then Dnc[Upper(c)] else [c]
  }

  /** `t` keeps `s` before `from` and expands it from there on. */
  predicate ExpandsFrom(s: string, t: string, from: nat) {
    |t| == |s| &&
    forall i :: 0 <= i < |s| ==> if i < from then t[i] == s[i] else t[i] in UpperOptions(s[i])
  }

  /** `deambigulate_all(seq, start_pos)`: find the first position at or after `start` whose
      upper-cased symbol is a code; for each of its bases in table order, substitute it and
      expand the rest; concatenate. With no code left, the result is `[s]`. */
  function DeambigulateAllFrom(s: string, start: nat): (r: seq<string>)
    ensures |r| >= 1
    ensures forall t :: t in r ==> ExpandsFrom(s, t, start)
    decreases |s| - start, 1, 0
  {
    if start >= |s| then [s]
    else if Upper(s[start]) in Dnc then ExpandAt(s, start, Dnc[Upper(s[start])])
    else DeambigulateAllFrom(s, start + 1)
  }

  /** The loop over the bases `subs` of the code at position `p`. */
  function ExpandAt(s: string, p: nat, subs: string): (r: seq<string>)
    requires p < |s|
    ensures subs != [] ==> |r| >= 1
    ensures forall t :: t in r ==>
              && |t| == |s|
              && t[p] in subs
              && (forall i :: 0 <= i < p ==> t[i] == s[i])
              && (forall i :: p < i < |s| ==> t[i] in UpperOptions(s[i]))
    decreases |s| - p, 0, |subs|
  {
    if subs == [] then []
    else DeambigulateAllFrom(s[p := subs[0]], p + 1) + ExpandAt(s, p, subs[1..])
  }

  /** `deambigulate_all(seq)`. */
  function DeambigulateAll(s: string): (r: seq<string>)
    ensures |r| >= 1
    ensures forall t :: t in r ==> |t| == |s| && forall i :: 0 <= i < |s| ==> t[i] in UpperOptions(s[i])
  {
    DeambigulateAllFrom(s, 0)
  }

  function AddPrefix(u: string, ts: seq<string>): seq<string> {
    seq(|ts|, i requires 0 <= i < |ts| => u + ts[i])
  }

  lemma AddPrefixAppend(u: string, a: seq<string>, b: seq<string>)
    ensures AddPrefix(u, a + b) == AddPrefix(u, a) + AddPrefix(u, b)
  {
  }

  lemma AddPrefixPrepend(u: string, c: char, ts: seq<string>)
    ensures AddPrefix(u, PrependEach(c, ts)) == AddPrefix(u + [c], ts)
  {
    var l := AddPrefix(u, PrependEach(c, ts));
    var r := AddPrefix(u + [c], ts);
    assert |l| == |r|;
    forall i | 0 <= i < |l| ensures l[i] == r[i] {
      assert u + ([c] + ts[i]) == (u + [c]) + ts[i];
    }
  }

  lemma {:induction false} FromIsProduct(s: string, p: nat)
    requires p <= |s| && IsUpper(s[p..])
    ensures DeambigulateAllFrom(s, p) == AddPrefix(s[..p], Product(s[p..]))
    decreases |s| - p, 1, 0
  {
    if p == |s| {
      assert s[..p] + [] == s;
    } else {
      var c := s[p];
      assert s[p..][0] == c && s[p..][1..] == s[p + 1..];
      assert Upper(c) == c by { assert Upper(s[p..][0]) == s[p..][0]; }
      var tail := s[p + 1..];
      assert IsUpper(tail) by {
        forall i | 0 <= i < |tail| ensures Upper(tail[i]) == tail[i] {
          assert tail[i] == s[p..][i + 1];
        }
      }
      if c in Dnc {
        ExpandIsProduct(s, p, Dnc[c]);
      } else {
        FromIsProduct(s, p + 1);
        AddPrefixPrepend(s[..p], c, Product(s[p + 1..]));
        assert s[..p] + [c] == s[..p + 1];
        assert Combine([c], Product(s[p + 1..])) == PrependEach(c, Product(s[p + 1..]));
      }
    }
  }

  lemma {:induction false} ExpandIsProduct(s: string, p: nat, subs: string)
    requires p < |s| && IsUpper(s[p + 1..])
    ensures ExpandAt(s, p, subs) == AddPrefix(s[..p], Combine(subs, Product(s[p + 1..])))
    decreases |s| - p, 0, |subs|
  {
    if subs != [] {
      var c := subs[0];
      var s' := s[p := c];
      assert s'[p + 1..] == s[p + 1..];
      assert s'[..p + 1] == s[..p] + [c];
      FromIsProduct(s', p + 1);
      ExpandIsProduct(s, p, subs[1..]);
      AddPrefixPrepend(s[..p], c, Product(s[p + 1..]));
      AddPrefixAppend(s[..p], PrependEach(c, Product(s[p + 1..])), Combine(subs[1..], Product(s[p + 1..])));
    }
  }

  /** For upper-case input, `deambigulate_all` lists the Cartesian product in its fixed order:
      the leftmost ambiguous position varies slowest, each code's bases in table order. */
  lemma DeambigulateAllOrder(s: string)
    requires IsUpper(s)
    ensures DeambigulateAll(s) == Product(s)
  {
    assert s[0..] == s;
    FromIsProduct(s, 0);
    var p := Product(s);
    assert AddPrefix([], p) == p by {
      forall i | 0 <= i < |p| ensures AddPrefix([], p)[i] == p[i] {
        assert [] + p[i] == p[i];
      }
    }
  }

  /** For upper-case input, `deambigulate_all` returns exactly as many strings as the variant
      count says, pairwise distinct, and a string is among them exactly when it is a reading of
      the input. */
  lemma DeambigulateAllSpec(s: string)
    requires IsUpper(s)
    ensures |DeambigulateAll(s)| == NumberOfPossibleVariants(s)
    ensures Distinct(DeambigulateAll(s))
    ensures forall t :: t in DeambigulateAll(s) <==> IsVariantOf(s, t)
  {
    DeambigulateAllOrder(s);
    ProductCount(s);
    ProductDistinct(s);
    forall t ensures t in DeambigulateAll(s) <==> IsVariantOf(s, t) {
      ProductMembers(s, t);
    }
  }
}
