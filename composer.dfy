/** Building the flat list of concrete motifs for a cassette from (motif, rule) lines
    (`generate_parts_for_cassette`, from the parsed lines onward). */
module Composer {
  import opened Outcome
  import opened SeqUtil
  import opened Iupac
  import opened Variants
  import opened RandomVariant
  import opened Sampling

  /** One parsed line of the motif file: a motif and its copy rule, as text. */
  datatype MotifSpec = MotifSpec(motif: string, rule: string)

  /** What one line may add to the parts list. Rule "1": the whole variant list, `copyRule1`
      times over. Rule "2": when there are at most `copyRule2` variants, `copyRule2 / count`
      full copies of the list followed by a pick of the remaining number; otherwise a pick of
      `copyRule2` variants. Any other rule: nothing. */
  predicate IsContribution(spec: MotifSpec, copyRule1: int, copyRule2: int, part: seq<string>) {
    var m := spec.motif;
    var howMany := NumberOfPossibleVariants(m);
    if spec.rule == "1" then
      part == Repeat(DeambigulateAll(m), copyRule1)
    else if spec.rule == "2" then
      if howMany <= copyRule2 then
        var adding := Repeat(DeambigulateAll(m), copyRule2 / howMany);
        |adding| <= |part| && part[..|adding|] == adding && IsPickOf(m, copyRule2 - |adding|, part[|adding|..])
      else
        IsPickOf(m, copyRule2, part)
    else
      part == []
  }

  /** The body of the loop of `generate_parts_for_cassette` for one line: what it appends to
      the parts list, drawing randomness from the front of `draws` (`used` of them). */
  method PartsForMotif(spec: MotifSpec, copyRule1: int, copyRule2: int, draws: seq<nat -> nat>)
    returns (r: Result<seq<string>>, used: nat)
    ensures used <= |draws|
    ensures r.Success? ==> IsContribution(spec, copyRule1, copyRule2, r.value)
    ensures r.Failure? ==> spec.rule == "2"
  {
    var motif, rule := spec.motif, spec.rule;
    var howMany := NumberOfPossibleVariants(motif);
    used := 0;
    if rule == "1" {
      r := Success(Repeat(DeambigulateAll(motif), copyRule1));
    } else if rule == "2" {
      if howMany <= copyRule2 {
        var copies := copyRule2 / howMany;
        var allVariants := DeambigulateAll(motif);
        var adding := Repeat(allVariants, copies);
        var picked;
        picked, used := PickNRandomWithoutDuplicates(motif, copyRule2 - |adding|, draws);
        if picked.Failure? {
          return Failure(picked.error), used;
        }
        var part := adding + picked.value;
        assert part[..|adding|] == adding && part[|adding|..] == picked.value;
        r := Success(part);
      } else {
        var picked;
        picked, used := PickNRandomWithoutDuplicates(motif, copyRule2, draws);
        if picked.Failure? {
          return Failure(picked.error), used;
        }
        r := Success(picked.value);
      }
    } else {
      r := Success([]);
    }
  }

  /** `generate_parts_for_cassette`: the lines' contributions concatenated in input order.
      `draws` is the random source shared by all the picks, consumed front to back. Only a
      rule-"2" line can fail, with the error its pick raised. The copy counts default to 10 and
      12, as in the source. */
  method GeneratePartsForCassette(specs: seq<MotifSpec>, draws: seq<nat -> nat>, copyRule1: int := 10, copyRule2: int := 12)
    returns (r: Result<seq<string>>, ghost contributions: seq<seq<string>>)
    ensures r.Success? ==>
              && |contributions| == |specs|
              && r.value == Flatten(contributions)
              && forall i :: 0 <= i < |specs| ==> IsContribution(specs[i], copyRule1, copyRule2, contributions[i])
    ensures r.Failure? ==> exists i :: 0 <= i < |specs| && specs[i].rule == "2"
  {
    var motifs: seq<string> := [];
    contributions := [];
    var cursor: nat := 0;
    for i := 0 to |specs|
      invariant |contributions| == i
      invariant motifs == Flatten(contributions)
      invariant cursor <= |draws|
      invariant forall k :: 0 <= k < i ==> IsContribution(specs[k], copyRule1, copyRule2, contributions[k])
    {
      var part, used := PartsForMotif(specs[i], copyRule1, copyRule2, draws[cursor..]);
      cursor := cursor + used;
      if part.Failure? {
        return Failure(part.error), contributions;
      }
      assert (contributions + [part.value])[..i] == contributions;
      motifs := motifs + part.value;
      contributions := contributions + [part.value];
    }
    return Success(motifs), contributions;
  }

  // ---------------------------------------------------------------------------
  // The copy-count policy, for upper-case motifs
  // ---------------------------------------------------------------------------

  /** Rule "1": every variant appears exactly `copyRule1` times (none for a non-positive
      count), and nothing else appears. */
  lemma Rule1Copies(spec: MotifSpec, copyRule1: int, copyRule2: int, part: seq<string>, v: string)
    requires spec.rule == "1" && IsUpper(spec.motif)
    requires IsContribution(spec, copyRule1, copyRule2, part)
    ensures var k := if copyRule1 < 0 then 0 else copyRule1;
            && |part| == k * NumberOfPossibleVariants(spec.motif)
            && multiset(part)[v] == if v in DeambigulateAll(spec.motif) then k else 0
  {
    var all := DeambigulateAll(spec.motif);
    DeambigulateAllSpec(spec.motif);
    RepeatLength(all, copyRule1);
    var k := if copyRule1 < 0 then 0 else copyRule1;
    assert part == Repeat(all, k);
    RepeatMultiplicity(all, k, v);
    DistinctMultiplicity(all, v);
  }

  lemma DivRemainder(a: int, b: int)
    requires 0 < b <= a
    ensures a / b >= 1
    ensures 0 <= a - (a / b) * b < b
  {
  }

  /** The shape of a rule-"2" contribution when there are at most `copyRule2` variants: full
      copies of the variant list, then a pick of fewer than `count` distinct random variants. */
  lemma Rule2Split(spec: MotifSpec, copyRule1: int, copyRule2: int, part: seq<string>)
    returns (adding: seq<string>, extra: seq<string>)
    requires spec.rule == "2" && IsUpper(spec.motif)
    requires NumberOfPossibleVariants(spec.motif) <= copyRule2
    requires IsContribution(spec, copyRule1, copyRule2, part)
    ensures part == adding + extra
    ensures adding == Repeat(DeambigulateAll(spec.motif), copyRule2 / NumberOfPossibleVariants(spec.motif))
    ensures |adding| + |extra| == copyRule2
    ensures Distinct(extra) && forall t :: t in extra ==> IsRandomVariant(spec.motif, t)
  {
    var m := spec.motif;
    var count := NumberOfPossibleVariants(m);
    var q := copyRule2 / count;
    DivRemainder(copyRule2, count);
    adding := Repeat(DeambigulateAll(m), q);
    assert |adding| == q * count by {
      DeambigulateAllSpec(m);
      RepeatLength(DeambigulateAll(m), q);
    }
    extra := part[|adding|..];
    assert part == adding + extra;
  }

  /** Rule "2" with no more variants than `copyRule2`: exactly `copyRule2` entries, all of them
      variants of the motif, each variant appearing `q` or `q + 1` times, `q = copyRule2 / count`. */
  lemma Rule2Balanced(spec: MotifSpec, copyRule1: int, copyRule2: int, part: seq<string>, v: string)
    requires spec.rule == "2" && IsUpper(spec.motif)
    requires NumberOfPossibleVariants(spec.motif) <= copyRule2
    requires IsContribution(spec, copyRule1, copyRule2, part)
    ensures |part| == copyRule2
    ensures v in part ==> v in DeambigulateAll(spec.motif)
    ensures var q := copyRule2 / NumberOfPossibleVariants(spec.motif);
            v in DeambigulateAll(spec.motif) ==> q <= multiset(part)[v] <= q + 1
  {
    var m := spec.motif;
    var all := DeambigulateAll(m);
    var q := copyRule2 / NumberOfPossibleVariants(m);
    DivRemainder(copyRule2, NumberOfPossibleVariants(m));
    var adding, extra := Rule2Split(spec, copyRule1, copyRule2, part);
    assert v in adding ==> v in all by {
      RepeatMembers(all, q, v);
    }
    assert v in extra ==> v in all by {
      if v in extra {
        RandomVariantIsListed(m, v);
      }
    }
    assert multiset(adding)[v] == q * multiset(all)[v] by {
      RepeatMultiplicity(all, q, v);
    }
    assert multiset(all)[v] == if v in all then 1 else 0 by {
      DeambigulateAllSpec(m);
      DistinctMultiplicity(all, v);
    }
    assert multiset(extra)[v] <= 1 by {
      DistinctMultiplicity(extra, v);
    }
    assert multiset(part)[v] == multiset(adding)[v] + multiset(extra)[v];
  }

  /** Rule "2" with more variants than `copyRule2`: exactly `copyRule2` entries, all of them
      variants of the motif, none repeated. */
  lemma Rule2Sparse(spec: MotifSpec, copyRule1: int, copyRule2: int, part: seq<string>, v: string)
    requires spec.rule == "2" && IsUpper(spec.motif)
    requires NumberOfPossibleVariants(spec.motif) > copyRule2
    requires IsContribution(spec, copyRule1, copyRule2, part)
    ensures |part| == copyRule2
    ensures v in part ==> v in DeambigulateAll(spec.motif)
    ensures multiset(part)[v] <= 1
  {
    if v in part {
      RandomVariantIsListed(spec.motif, v);
    }
    DistinctMultiplicity(part, v);
  }

  /** Any rule other than "1" and "2" contributes nothing. */
  lemma OtherRuleAddsNothing(spec: MotifSpec, copyRule1: int, copyRule2: int, part: seq<string>)
    requires spec.rule != "1" && spec.rule != "2"
    requires IsContribution(spec, copyRule1, copyRule2, part)
    ensures part == []
  {
  }
}
