/** Assembling the output cassettes (`do_it_all`): build the parts list, collect `nresults`
    distinct arrangements of it, and join each arrangement into one string, every motif preceded
    by a linker of `how_many_Ns` random bases. */
module Assembly {
  import opened Outcome
  import opened SeqUtil
  import opened Iupac
  import opened RandomVariant
  import opened Composer
  import opened Arrangement

  /** `"N" * k`: Python repeats a string zero times for a non-positive count. */
  function Ns(k: int): (r: string)
    ensures |r| == Width(k) && forall i :: 0 <= i < |r| ==> r[i] == 'N'
  {
    seq(Width(k), _ => 'N')
  }

  /** The length of a linker: `k` bases, none for a non-positive `k`. */
  function Width(k: int): nat {
    if k < 0 then 0 else k
  }

  /** The linker `deambigulate_random("N" * k)` returns for the rolls `roll`: position `i` is
      `dnc['N'][roll(i) % 4]`. `LinkerIsRandomNs` proves it equal to that call. */
  function Linker(k: int, roll: nat -> nat): (r: string)
    ensures |r| == Width(k) && forall i :: 0 <= i < |r| ==> IsBase(r[i])
  {
    seq(Width(k), i requires 0 <= i => "ATCG"[roll(i) % 4])
  }

  lemma RandomN(roll: nat)
    ensures RandomSymbol(Upper('N'), roll) == Success("ATCG"[roll % 4])
  {
    DncWellFormed();
    assert Dnc['N'] == "ATCG";
  }

  lemma {:induction false} LinkerPrefix(k: int, roll: nat -> nat, m: nat)
    requires m <= Width(k)
    ensures DeambigulateRandom(Ns(k)[..m], roll) == Success(Linker(k, roll)[..m])
  {
    if m > 0 {
      var ns := Ns(k)[..m];
      var l := Linker(k, roll);
      LinkerPrefix(k, roll, m - 1);
      assert ns[..m - 1] == Ns(k)[..m - 1];
      assert ns[m - 1] == 'N';
      RandomN(roll(m - 1));
      assert l[..m - 1] + [l[m - 1]] == l[..m];
    }
  }

  /** `deambigulate_random("N" * k)` never raises, and returns exactly `Linker(k, roll)`. */
  lemma LinkerIsRandomNs(k: int, roll: nat -> nat)
    ensures DeambigulateRandom(Ns(k), roll) == Success(Linker(k, roll))
  {
    LinkerPrefix(k, roll, Width(k));
    assert Ns(k)[..Width(k)] == Ns(k);
    assert Linker(k, roll)[..Width(k)] == Linker(k, roll);
  }

  /** Every linker is `w` concrete bases. */
  predicate BaseLinkers(links: seq<string>, w: nat) {
    forall x :: 0 <= x < |links| ==> |links[x]| == w && forall j :: 0 <= j < w ==> IsBase(links[x][j])
  }

  /** The linkers of one cassette: `linker(i)` are the rolls of the linker in front of motif
      `i`. */
  function Linkers(n: nat, k: int, linker: nat -> (nat -> nat)): (links: seq<string>)
    ensures |links| == n && BaseLinkers(links, Width(k))
  {
    var links := seq(n, i requires 0 <= i => Linker(k, linker(i)));
    assert forall i :: 0 <= i < n ==> links[i] == Linker(k, linker(i));
    links
  }

  /** Reference definition of one output string: each motif preceded by its linker. */
  function Join(ordering: seq<string>, links: seq<string>): string
    requires |links| == |ordering|
  {
    if ordering == [] then []
    else
      var n := |ordering| - 1;
      Join(ordering[..n], links[..n]) + links[n] + ordering[n]
  }

  /** Where the linker in front of motif `i` starts in the joined string: after the first `i`
      linkers and motifs. */
  function Offset(o: seq<string>, links: seq<string>, i: nat): nat
    requires i <= |o| == |links|
  {
    if i == 0 then 0 else Offset(o, links, i - 1) + |links[i - 1]| + |o[i - 1]|
  }

  lemma {:induction false} OffsetPrefix(o: seq<string>, links: seq<string>, n: nat, i: nat)
    requires i <= n <= |o| == |links|
    ensures Offset(o[..n], links[..n], i) == Offset(o, links, i)
  {
    if i > 0 {
      OffsetPrefix(o, links, n, i - 1);
    }
  }

  lemma {:induction false} OffsetMonotone(o: seq<string>, links: seq<string>, i: nat, j: nat)
    requires i <= j <= |o| == |links|
    ensures Offset(o, links, i) <= Offset(o, links, j)
  {
    if i < j {
      OffsetMonotone(o, links, i, j - 1);
    }
  }

  /** The joined string is the linkers plus the motifs, nothing more. */
  lemma {:induction false} JoinLength(o: seq<string>, links: seq<string>)
    requires |links| == |o|
    ensures |Join(o, links)| == Offset(o, links, |o|)
  {
    if o != [] {
      var n := |o| - 1;
      JoinLength(o[..n], links[..n]);
      OffsetPrefix(o, links, n, n);
    }
  }

  /** The layout of a joined string: at the offset of motif `i` sits its linker, and right after
      it motif `i` itself, unchanged; motif `i + 1`'s linker follows. */
  lemma JoinSnoc(o: seq<string>, links: seq<string>, m: nat)
    requires m < |o| == |links|
    ensures Join(o[..m + 1], links[..m + 1]) == Join(o[..m], links[..m]) + links[m] + o[m]
  {
    assert o[..m + 1][..m] == o[..m] && links[..m + 1][..m] == links[..m];
  }

  /** Joining the first `m` motifs gives a prefix of the whole joined string. */
  lemma {:induction false} JoinPrefix(o: seq<string>, links: seq<string>, m: nat)
    requires m <= |o| == |links|
    ensures Join(o[..m], links[..m]) <= Join(o, links)
  {
    if m == |o| {
      assert o[..m] == o && links[..m] == links;
    } else {
      var n := |o| - 1;
      JoinPrefix(o[..n], links[..n], m);
      assert o[..n][..m] == o[..m] && links[..n][..m] == links[..m];
      var a := Join(o[..m], links[..m]);
      var b := Join(o[..n], links[..n]);
      var c := Join(o, links);
      assert c == b + links[n] + o[n];
      assert a <= c by {
        assert a == b[..|a|] && b == c[..|b|];
      }
    }
  }

  lemma JoinLayout(o: seq<string>, links: seq<string>, i: nat)
    requires i < |o| == |links|
    ensures var c := Join(o, links);
            var s := Offset(o, links, i);
            var e := s + |links[i]|;
            && Offset(o, links, i + 1) == e + |o[i]| <= |c|
            && c[s..e] == links[i]
            && c[e..e + |o[i]|] == o[i]
  {
    var c := Join(o, links);
    var p := Join(o[..i + 1], links[..i + 1]);
    var q := Join(o[..i], links[..i]);
    JoinPrefix(o, links, i + 1);
    JoinSnoc(o, links, i);
    assert |q| == Offset(o, links, i) by {
      JoinLength(o[..i], links[..i]);
      OffsetPrefix(o, links, i, i);
    }
    var s := |q|;
    var e := s + |links[i]|;
    assert c[s..e] == p[s..e] == links[i];
    assert c[e..e + |o[i]|] == p[e..e + |o[i]|] == o[i];
  }

  /** A linker made of bases stays bases inside the joined string. */
  lemma JoinLinkerBases(o: seq<string>, links: seq<string>, i: nat)
    requires i < |o| == |links|
    requires forall j :: 0 <= j < |links[i]| ==> IsBase(links[i][j])
    ensures var s := Offset(o, links, i);
            forall j :: s <= j < s + |links[i]| ==> j < |Join(o, links)| && IsBase(Join(o, links)[j])
  {
    var c := Join(o, links);
    var s := Offset(o, links, i);
    JoinLayout(o, links, i);
    forall j | s <= j < s + |links[i]| ensures j < |c| && IsBase(c[j]) {
      assert c[j] == c[s..s + |links[i]|][j - s];
    }
  }

  /** Joined with linkers of `w` bases each (as `Linkers` makes them, with `w = Width(k)`),
      motif `i` appears unchanged right after `w` bases: the layout of every output string of
      `do_it_all`. */
  lemma JoinWithBaseLinkers(o: seq<string>, links: seq<string>, w: nat, i: nat)
    requires i < |o| == |links|
    requires BaseLinkers(links, w)
    ensures var c := Join(o, links);
            var s := Offset(o, links, i);
            && s + w + |o[i]| <= |c|
            && (forall j :: s <= j < s + w ==> IsBase(c[j]))
            && c[s + w..s + w + |o[i]|] == o[i]
  {
    assert |links[i]| == w;
    JoinLayout(o, links, i);
    JoinLinkerBases(o, links, i);
  }

  /** The join loop of `do_it_all`: for each arrangement, start from the empty string and append
      a linker and then the motif, motif by motif. `linkers(j)(i)` are the rolls of the linker
      in front of motif `i` of arrangement `j`. */
  method JoinCassettes(orderings: seq<seq<string>>, k: int, linkers: nat -> nat -> (nat -> nat))
    returns (strs: seq<string>)
    ensures |strs| == |orderings|
    ensures forall j :: 0 <= j < |orderings| ==> strs[j] == Join(orderings[j], Linkers(|orderings[j]|, k, linkers(j)))
  {
    strs := [];
    for j := 0 to |orderings|
      invariant |strs| == j
      invariant forall x :: 0 <= x < j ==> strs[x] == Join(orderings[x], Linkers(|orderings[x]|, k, linkers(x)))
    {
      var x := orderings[j];
      ghost var links := Linkers(|x|, k, linkers(j));
      var cassette := "";
      for i := 0 to |x|
        invariant cassette == Join(x[..i], links[..i])
      {
        assert x[..i + 1][..i] == x[..i] && links[..i + 1][..i] == links[..i];
        cassette := cassette + Linker(k, linkers(j)(i));
        cassette := cassette + x[i];
      }
      assert x[..|x|] == x && links[..|x|] == links;
      strs := strs + [cassette];
    }
  }

  /** `do_it_all`: the parts list of `generate_parts_for_cassette`, then `nresults` distinct
      arrangements of it from `shuffle_motifs`, each joined with random linkers of `howManyNs`
      bases. `draws` feeds the picks; `shuffles[t]` are the shuffle rolls of the `t`-th call of
      `shuffle_motifs`; the source's loop has no bound, and running out of `shuffles` before
      `nresults` distinct arrangements turn up is reported as `OutOfDraws`. The Python set of
      arrangements is a duplicate-free list in the order its members were first found. The
      numeric parameters default to the source's values: 10, 12, 1 and 1. */
  method DoItAll(specs: seq<MotifSpec>, draws: seq<nat -> nat>, shuffles: seq<nat -> nat -> nat>,
                 linkers: nat -> nat -> (nat -> nat),
                 copyRule1: int := 10, copyRule2: int := 12, howManyNs: int := 1, nresults: int := 1)
    returns (r: Result<seq<string>>, ghost contributions: seq<seq<string>>, ghost orderings: seq<seq<string>>)
    ensures r.Success? ==>
              && |contributions| == |specs|
              && forall i :: 0 <= i < |specs| ==> IsContribution(specs[i], copyRule1, copyRule2, contributions[i])
    ensures r.Success? ==>
              && |r.value| == |orderings| == nresults
              && Distinct(orderings)
              && forall j :: 0 <= j < |orderings| ==>
                   && NoAdjacentEqual(orderings[j])
                   && multiset(orderings[j]) <= multiset(Flatten(contributions))
                   && (forall v :: v in orderings[j] <==> v in Flatten(contributions))
                   && r.value[j] == Join(orderings[j], Linkers(|orderings[j]|, howManyNs, linkers(j)))
    ensures nresults < 0 ==> r.Failure?
    ensures r.Failure? && r.error != OutOfDraws ==> exists i :: 0 <= i < |specs| && specs[i].rule == "2"
  {
    var generated;
    generated, contributions := GeneratePartsForCassette(specs, draws, copyRule1, copyRule2);
    if generated.Failure? {
      return Failure(generated.error), contributions, [];
    }
    var motifs := generated.value;
    var motifSet: seq<seq<string>> := [];
    var t := 0;
    while |motifSet| != nresults
      invariant t <= |shuffles|
      invariant Distinct(motifSet)
      invariant forall j :: 0 <= j < |motifSet| ==>
                  && NoAdjacentEqual(motifSet[j])
                  && multiset(motifSet[j]) <= multiset(motifs)
                  && (forall v :: v in motifSet[j] <==> v in motifs)
      decreases |shuffles| - t
    {
      if t == |shuffles| {
        return Failure(OutOfDraws), contributions, motifSet;
      }
      var ordering;
      ghost var failedRepairs;
      ordering, failedRepairs := ShuffleMotifs(motifs, shuffles[t]);
      t := t + 1;
      if ordering !in motifSet {
        DistinctAppend(motifSet, [ordering]);
        motifSet := motifSet + [ordering];
      }
    }
    var strs := JoinCassettes(motifSet, howManyNs, linkers);
    return Success(strs), contributions, motifSet;
  }
}
