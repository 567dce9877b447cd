/** Drawing `n` distinct variants of a sequence (`pick_n_random_without_duplicates`).
    The source's rejection loop has no bound on its attempts; here its random source is a
    finite list of draws (each the rolls of one `deambigulate_random` call), and running out
    of draws before `n` distinct variants are found is reported as `OutOfDraws`. */
module Sampling {
  import opened Outcome
  import opened SeqUtil
  import opened Iupac
  import opened Variants
  import opened RandomVariant

  /** The shape of every string a successful `deambigulate_random(s)` can return. */
  predicate IsRandomVariant(s: string, t: string) {
    |t| == |s| && forall i :: 0 <= i < |s| ==> IsBase(t[i]) && t[i] in Options(Upper(s[i]))
  }

  /** For upper-case input, every such string is one `deambigulate_all` lists. */
  lemma RandomVariantIsListed(s: string, t: string)
    requires IsUpper(s) && IsRandomVariant(s, t)
    ensures t in DeambigulateAll(s)
  {
    DeambigulateAllSpec(s);
    assert IsVariantOf(s, t);
  }

  /** Every possible successful return of `pick_n_random_without_duplicates(s, n)`: the full
      exhaustive list when `n` is the variant count, otherwise `n` distinct random variants. */
  predicate IsPickOf(s: string, n: int, picks: seq<string>) {
    var count := NumberOfPossibleVariants(s);
    if n == count then picks == DeambigulateAll(s)
    else
      && n < count
      && |picks| == n
      && Distinct(picks)
      && forall t :: t in picks ==> IsRandomVariant(s, t)
  }

  /** `pick_n_random_without_duplicates(seq, n)`. `draws[j]` are the rolls of the j-th call of
      `deambigulate_random`; `used` says how many draws the call consumed. The Python set of
      picks is represented as a duplicate-free list in the order its members were first drawn. */
  method PickNRandomWithoutDuplicates(s: string, n: int, draws: seq<nat -> nat>)
    returns (r: Result<seq<string>>, used: nat)
    ensures used <= |draws|
    ensures r.Success? ==> IsPickOf(s, n, r.value)
    ensures n > NumberOfPossibleVariants(s) <==> r == Failure(ValueError(n, NumberOfPossibleVariants(s)))
    ensures n == NumberOfPossibleVariants(s) ==> r == Success(DeambigulateAll(s)) && used == 0
    ensures n == 0 ==> r == Success([]) && used == 0
    ensures r.Success? && n != NumberOfPossibleVariants(s) ==>
              forall t :: t in r.value ==>
                exists j :: 0 <= j < used && DeambigulateRandom(s, draws[j]) == Success(t)
    ensures r == Failure(OutOfDraws) ==> used == |draws|
    ensures r.Failure? && r.error.KeyError? ==>
              0 < used && DeambigulateRandom(s, draws[used - 1]) == Failure(r.error)
  {
    var maxVariants := NumberOfPossibleVariants(s);
    if maxVariants < n {
      return Failure(ValueError(n, maxVariants)), 0;
    } else if maxVariants == n {
      return Success(DeambigulateAll(s)), 0;
    }
    var picks: seq<string> := [];
    used := 0;
    while |picks| != n
      invariant used <= |draws|
      invariant n == 0 ==> used == 0 && picks == []
      invariant Distinct(picks)
      invariant forall t :: t in picks ==> IsRandomVariant(s, t)
      invariant forall t :: t in picks ==>
                  exists j :: 0 <= j < used && DeambigulateRandom(s, draws[j]) == Success(t)
      decreases |draws| - used
    {
      if used == |draws| {
        return Failure(OutOfDraws), used;
      }
      var draw := DeambigulateRandom(s, draws[used]);
      used := used + 1;
      match draw {
        case Failure(e) =>
          return Failure(e), used;
        case Success(t) =>
          if t !in picks {
            picks := picks + [t];
          }
      }
    }
    r := Success(picks);
  }
}
