/** Ordering the parts of a cassette so that no two neighbours are equal (`shuffle_motifs`):
    shuffle, pull out the elements that sit before an equal neighbour, and put each back at
    the first place where it has no equal neighbour; when one cannot be placed, start over
    from the list as it now stands. */
module Arrangement {
  import opened SeqUtil

  /** The adjacency invariant of a cassette: no two consecutive elements are equal. */
  predicate NoAdjacentEqual(m: seq<string>) {
    forall i :: 0 <= i < |m| - 1 ==> m[i] != m[i + 1]
  }

  // ---------------------------------------------------------------------------
  // random.shuffle
  // ---------------------------------------------------------------------------

  lemma SwapKeepsMultiset(r: seq<string>, i: nat, j: nat)
    requires i < |r| && j < |r|
    ensures multiset(r[i := r[j]][j := r[i]]) == multiset(r)
  {
    if i != j {
      var s := r[i := r[j]];
      assert multiset(s) == multiset(r) - multiset{r[i]} + multiset{r[j]};
      assert multiset(s[j := r[i]]) == multiset(s) - multiset{s[j]} + multiset{r[i]};
    }
  }

  /** `random.shuffle(x)` (CPython's Fisher-Yates): for `i` from `len(x) - 1` down to 1, swap
      `x[i]` with `x[j]`, where `j` is drawn below `i + 1`; here `j = roll(i) % (i + 1)`. Whatever
      the rolls, the result is a permutation of the input. */
  method Shuffle(m: seq<string>, roll: nat -> nat) returns (r: seq<string>)
    ensures multiset(r) == multiset(m)
  {
    r := m;
    var i := |r| - 1;
    while i >= 1
      invariant i < |r| == |m|
      invariant multiset(r) == multiset(m)
    {
      var j := roll(i) % (i + 1);
      SwapKeepsMultiset(r, i, j);
      r := r[i := r[j]][j := r[i]];
      i := i - 1;
    }
  }

  // ---------------------------------------------------------------------------
  // The bad positions and what popping them leaves
  // ---------------------------------------------------------------------------

  /** `[i for i, el in enumerate(motifs[:-1]) if el == motifs[i + 1]]`: the positions whose
      element equals its right neighbour, in increasing order. */
  function BadPositions(m: seq<string>): (bad: seq<nat>)
    ensures forall a :: 0 <= a < |bad| ==> bad[a] < |m| - 1
    ensures forall p: nat :: p in bad <==> p < |m| - 1 && m[p] == m[p + 1]
    ensures forall a, b :: 0 <= a < b < |bad| ==> bad[a] < bad[b]
  {
    if |m| < 2 then []
    else
      var n := |m| - 1;
      assert forall p :: 0 <= p < n ==> m[..n][p] == m[p];
      BadPositions(m[..n]) + (if m[n - 1] == m[n] then [n - 1] else [])
  }

  /** Reference definition: one element for each maximal run of equal neighbours (the last of
      the run). */
  function Destutter(m: seq<string>): seq<string> {
    if |m| <= 1 then m
    else if m[0] == m[1] then Destutter(m[1..])
    else [m[0]] + Destutter(m[1..])
  }

  /** What removing the repeats keeps: a list that starts like `m`, has no equal neighbours,
      holds every value of `m`, and no more copies of any value than `m`. */
  lemma {:induction false} DestutterFacts(m: seq<string>)
    ensures |m| >= 1 ==> |Destutter(m)| >= 1 && Destutter(m)[0] == m[0]
    ensures NoAdjacentEqual(Destutter(m))
    ensures forall v :: v in Destutter(m) <==> v in m
    ensures multiset(Destutter(m)) <= multiset(m)
  {
    if |m| > 1 {
      var tail := m[1..];
      DestutterFacts(tail);
      assert m == [m[0]] + tail;
      assert tail[0] == m[1];
      if m[0] != m[1] {
        var d := [m[0]] + Destutter(tail);
        assert forall i :: 1 <= i < |d| ==> d[i] == Destutter(tail)[i - 1];
      }
    }
  }

  /** A list without equal neighbours has nothing to remove. */
  lemma {:induction false} DestutterOfNoAdjacent(m: seq<string>)
    requires NoAdjacentEqual(m)
    ensures Destutter(m) == m
  {
    if |m| > 1 {
      DestutterOfNoAdjacent(m[1..]);
      assert m == [m[0]] + m[1..];
    }
  }

  /** Dropping one of two equal neighbours leaves the run structure unchanged. */
  lemma {:induction false} DestutterDropRepeat(m: seq<string>, p: nat)
    requires p + 1 < |m| && m[p] == m[p + 1]
    ensures Destutter(m[..p] + m[p + 1..]) == Destutter(m)
  {
    var m' := m[..p] + m[p + 1..];
    if p == 0 {
      assert m' == m[1..];
    } else {
      var tail := m[1..];
      DestutterDropRepeat(tail, p - 1);
      assert m'[1..] == tail[..p - 1] + tail[p..];
      assert m'[0] == m[0];
      assert |m'| >= 2 && m'[1] == m[1];
    }
  }

  /** Popping the last repeat `p` leaves exactly the earlier repeats, and the same runs. */
  lemma PopLastRepeat(m: seq<string>, p: nat)
    requires p + 1 < |m| && m[p] == m[p + 1]
    requires forall q :: p < q < |m| - 1 ==> m[q] != m[q + 1]
    ensures var m' := m[..p] + m[p + 1..];
            && Destutter(m') == Destutter(m)
            && forall q :: 0 <= q < |m'| - 1 ==> (m'[q] == m'[q + 1] <==> q < p && m[q] == m[q + 1])
  {
    DestutterDropRepeat(m, p);
    var m' := m[..p] + m[p + 1..];
    forall q | 0 <= q < |m'| - 1
      ensures m'[q] == m'[q + 1] <==> q < p && m[q] == m[q + 1]
    {
      if q + 1 < p {
        assert m'[q] == m[q] && m'[q + 1] == m[q + 1];
      } else if q + 1 == p {
        assert m'[q] == m[q] && m'[q + 1] == m[p + 1];
      } else {
        assert m'[q] == m[q + 1] && m'[q + 1] == m[q + 2];
      }
    }
  }

  /** The repeats of `m` sit exactly at the positions listed in `bad`. */
  predicate RepeatsAt(m: seq<string>, bad: seq<nat>) {
    forall q :: 0 <= q < |m| - 1 ==> (m[q] == m[q + 1] <==> q in bad)
  }

  /** One pop of the list comprehension: removing the last listed repeat leaves the earlier
      ones listed, positions below it in place, and the same runs. */
  lemma PopStep(m: seq<string>, bad: seq<nat>)
    requires bad != [] && RepeatsAt(m, bad)
    requires forall a, b :: 0 <= a < b < |bad| ==> bad[a] < bad[b]
    requires forall a :: 0 <= a < |bad| ==> bad[a] < |m| - 1
    ensures var p := bad[|bad| - 1];
            var m' := m[..p] + m[p + 1..];
            && RepeatsAt(m', bad[..|bad| - 1])
            && Destutter(m') == Destutter(m)
            && (forall a :: 0 <= a < |bad| - 1 ==> bad[a] < |m'| - 1 && m'[bad[a]] == m[bad[a]])
  {
    var n := |bad| - 1;
    var p := bad[n];
    assert p in bad;
    assert forall a :: 0 <= a < |bad| ==> bad[a] <= p;
    PopLastRepeat(m, p);
    forall q ensures q in bad[..n] <==> q in bad && q < p {
      if q in bad {
        var a :| 0 <= a < |bad| && bad[a] == q;
        assert a < n <==> q < p;
      }
    }
  }

  lemma NoRepeatsLeft(rest: seq<string>, m: seq<string>)
    requires RepeatsAt(rest, []) && Destutter(rest) == Destutter(m)
    ensures rest == Destutter(m)
  {
    assert NoAdjacentEqual(rest) by {
      forall q | 0 <= q < |rest| - 1 ensures rest[q] != rest[q + 1] {
        assert q !in [];
      }
    }
    DestutterOfNoAdjacent(rest);
  }

  /** The state of the pop loop after the positions from `bad[j]` upwards have been popped:
      the runs of `m` are intact, the repeats of `rest` are the positions still to pop and
      still hold their original elements, and `popped` holds the rest of `m`'s elements in
      popping order. */
  ghost predicate PopInvariant(m: seq<string>, bad: seq<nat>, j: nat, rest: seq<string>, popped: seq<string>) {
    && j <= |bad|
    && (forall a, b :: 0 <= a < b < |bad| ==> bad[a] < bad[b])
    && (forall a :: 0 <= a < |bad| ==> bad[a] < |m|)
    && Destutter(rest) == Destutter(m)
    && RepeatsAt(rest, bad[..j])
    && (forall i :: 0 <= i < j ==> bad[i] < |rest| - 1 && rest[bad[i]] == m[bad[i]])
    && |popped| == |bad| - j
    && (forall k :: 0 <= k < |popped| ==> popped[k] == m[bad[|bad| - 1 - k]])
    && multiset(rest) + multiset(popped) == multiset(m)
  }

  lemma PopPositionsStep(m: seq<string>, bad: seq<nat>, j: nat, rest: seq<string>, popped: seq<string>)
    requires 0 < j && PopInvariant(m, bad, j, rest, popped)
    ensures var p := bad[j - 1];
            var rest' := rest[..p] + rest[p + 1..];
            && RepeatsAt(rest', bad[..j - 1])
            && Destutter(rest') == Destutter(m)
            && forall i :: 0 <= i < j - 1 ==> bad[i] < |rest'| - 1 && rest'[bad[i]] == m[bad[i]]
  {
    var p := bad[j - 1];
    var rest' := rest[..p] + rest[p + 1..];
    var left := bad[..j];
    assert left[..j - 1] == bad[..j - 1];
    assert forall a, b :: 0 <= a < b < |left| ==> left[a] < left[b];
    PopStep(rest, left);
    forall i | 0 <= i < j - 1 ensures bad[i] < |rest'| - 1 && rest'[bad[i]] == m[bad[i]] {
      assert left[i] == bad[i];
    }
  }

  lemma PopValuesStep(m: seq<string>, bad: seq<nat>, j: nat, rest: seq<string>, popped: seq<string>)
    requires 0 < j && PopInvariant(m, bad, j, rest, popped)
    ensures var p := bad[j - 1];
            var rest' := rest[..p] + rest[p + 1..];
            var popped' := popped + [rest[p]];
            && (forall k :: 0 <= k < |popped'| ==> popped'[k] == m[bad[|bad| - 1 - k]])
            && multiset(rest') + multiset(popped') == multiset(m)
  {
    var p := bad[j - 1];
    var rest' := rest[..p] + rest[p + 1..];
    var popped' := popped + [rest[p]];
    assert popped'[|popped|] == rest[p] == m[bad[j - 1]];
    assert multiset(rest) == multiset(rest') + multiset{rest[p]} by {
      assert rest == rest[..p] + [rest[p]] + rest[p + 1..];
    }
  }

  lemma PopInvariantStep(m: seq<string>, bad: seq<nat>, j: nat, rest: seq<string>, popped: seq<string>)
    requires 0 < j && PopInvariant(m, bad, j, rest, popped)
    ensures var p := bad[j - 1];
            PopInvariant(m, bad, j - 1, rest[..p] + rest[p + 1..], popped + [rest[p]])
  {
    PopPositionsStep(m, bad, j, rest, popped);
    PopValuesStep(m, bad, j, rest, popped);
  }

  lemma PopInvariantDone(m: seq<string>, bad: seq<nat>, rest: seq<string>, popped: seq<string>)
    requires PopInvariant(m, bad, 0, rest, popped)
    ensures rest == Destutter(m)
  {
    assert bad[..0] == [];
    NoRepeatsLeft(rest, m);
  }

  /** `bad_elements = [motifs.pop(pos) for pos in bad_poss[::-1]]`: pop the bad positions from
      the highest down. What stays is one element of each run of equal neighbours. */
  method PopBadPositions(m: seq<string>, bad: seq<nat>) returns (rest: seq<string>, popped: seq<string>)
    requires bad == BadPositions(m)
    ensures rest == Destutter(m)
    ensures |popped| == |bad| && forall k :: 0 <= k < |bad| ==> popped[k] == m[bad[|bad| - 1 - k]]
    ensures multiset(rest) + multiset(popped) == multiset(m)
  {
    rest, popped := m, [];
    var j := |bad|;
    assert bad[..j] == bad;
    while j > 0
      invariant PopInvariant(m, bad, j, rest, popped)
    {
      PopInvariantStep(m, bad, j, rest, popped);
      var p := bad[j - 1];
      popped := popped + [rest[p]];
      rest := rest[..p] + rest[p + 1..];
      j := j - 1;
    }
    PopInvariantDone(m, bad, rest, popped);
  }

  // ---------------------------------------------------------------------------
  // First-fit reinsertion
  // ---------------------------------------------------------------------------

  /** Whether enumerate index `i` of the repair loop accepts `el`: index 0 if `el` differs from
      the first element, the last index if it differs from the last element, any other index if
      it differs from both elements around the gap before it. */
  predicate Fits(el: string, m: seq<string>, i: nat)
    requires i < |m|
  {
    if i == 0 then el != m[0]
    else if i == |m| - 1 then el != m[i]
    else el != m[i] && el != m[i - 1]
  }

  /** Where an accepted `el` goes for enumerate index `i`: the front, the end, or the gap
      between `i - 1` and `i`. */
  function SlotFor(m: seq<string>, i: nat): nat
    requires i < |m|
  {
    if i == 0 then 0 else if i == |m| - 1 then |m| else i
  }

  function Insert(m: seq<string>, p: nat, el: string): seq<string>
    requires p <= |m|
  {
    m[..p] + [el] + m[p..]
  }

  /** Inserting an element at an accepted place keeps the adjacency invariant. */
  lemma FitKeepsNoAdjacent(el: string, m: seq<string>, i: nat)
    requires i < |m| && Fits(el, m, i) && NoAdjacentEqual(m)
    ensures NoAdjacentEqual(Insert(m, SlotFor(m, i), el))
  {
    var p := SlotFor(m, i);
    var r := Insert(m, p, el);
    forall k | 0 <= k < |r| - 1 ensures r[k] != r[k + 1] {
      if k + 1 < p {
        assert r[k] == m[k] && r[k + 1] == m[k + 1];
      } else if k > p {
        assert r[k] == m[k - 1] && r[k + 1] == m[k];
      }
    }
  }

  /** The inner loop of the repair: `for i, mel in enumerate(motifs)`, inserting `el` at the
      first index that accepts it; `at` is that index. */
  method PlaceFirstFit(el: string, motifs: seq<string>) returns (placed: bool, r: seq<string>, ghost at: nat)
    ensures !placed ==> r == motifs && forall i :: 0 <= i < |motifs| ==> !Fits(el, motifs, i)
    ensures placed ==>
              && at < |motifs|
              && Fits(el, motifs, at)
              && (forall k :: 0 <= k < at ==> !Fits(el, motifs, k))
              && r == Insert(motifs, SlotFor(motifs, at), el)
    ensures placed ==> multiset(r) == multiset(motifs) + multiset{el}
    ensures placed && NoAdjacentEqual(motifs) ==> NoAdjacentEqual(r)
  {
    var i := 0;
    while i < |motifs|
      invariant 0 <= i <= |motifs|
      invariant forall k :: 0 <= k < i ==> !Fits(el, motifs, k)
    {
      var mel := motifs[i];
      var accept := false;
      if i == 0 {
        accept := el != mel;
      } else if i == |motifs| - 1 {
        accept := el != mel;
      } else {
        accept := el != mel && el != motifs[i - 1];
      }
      if accept {
        assert Fits(el, motifs, i);
        var p := SlotFor(motifs, i);
        r := Insert(motifs, p, el);
        assert motifs == motifs[..p] + motifs[p..];
        if NoAdjacentEqual(motifs) {
          FitKeepsNoAdjacent(el, motifs, i);
        }
        return true, r, i;
      }
      i := i + 1;
    }
    return false, motifs, 0;
  }

  // ---------------------------------------------------------------------------
  // shuffle_motifs
  // ---------------------------------------------------------------------------

  /** The placement loop of the repair: put the pulled-out elements back one by one, first fit
      each, and stop at the first one that fits nowhere. Every placement keeps the adjacency
      invariant; when all are placed nothing was lost, otherwise every element from the first
      one that fits nowhere onward was. */
  method PlaceAll(motifs: seq<string>, elements: seq<string>) returns (allPlaced: bool, r: seq<string>)
    requires NoAdjacentEqual(motifs)
    ensures NoAdjacentEqual(r)
    ensures allPlaced ==> multiset(r) == multiset(motifs) + multiset(elements)
    ensures !allPlaced ==> |r| < |motifs| + |elements|
    ensures !allPlaced ==>
              exists k :: && 0 <= k < |elements|
                          && multiset(r) == multiset(motifs) + multiset(elements[..k])
                          && forall i :: 0 <= i < |r| ==> !Fits(elements[k], r, i)
    ensures multiset(motifs) <= multiset(r) <= multiset(motifs) + multiset(elements)
  {
    r := motifs;
    var k := 0;
    while k < |elements|
      invariant 0 <= k <= |elements|
      invariant NoAdjacentEqual(r)
      invariant multiset(r) == multiset(motifs) + multiset(elements[..k])
    {
      var placed;
      ghost var at;
      ghost var before := r;
      placed, r, at := PlaceFirstFit(elements[k], r);
      if !placed {
        PlacedSome(motifs, elements, k, r);
        return false, r;
      }
      PlacedOneMore(motifs, elements, k, before, r);
      k := k + 1;
    }
    assert elements[..k] == elements;
    allPlaced := true;
  }

  lemma PlacedOneMore(motifs: seq<string>, elements: seq<string>, k: nat, before: seq<string>, r: seq<string>)
    requires k < |elements|
    requires multiset(before) == multiset(motifs) + multiset(elements[..k])
    requires multiset(r) == multiset(before) + multiset{elements[k]}
    ensures multiset(r) == multiset(motifs) + multiset(elements[..k + 1])
  {
    assert elements[..k + 1] == elements[..k] + [elements[k]];
  }

  lemma PlacedSome(motifs: seq<string>, elements: seq<string>, k: nat, r: seq<string>)
    requires k < |elements|
    requires multiset(r) == multiset(motifs) + multiset(elements[..k])
    ensures |r| < |motifs| + |elements|
    ensures multiset(motifs) <= multiset(r) <= multiset(motifs) + multiset(elements)
  {
    PrefixSubMultiset(elements, k);
    assert |multiset(r)| == |multiset(motifs)| + |multiset(elements[..k])|;
  }

  /** One attempt after the shuffle (lines 112 to 144 of the loop body): return the list when it
      has no equal neighbours, otherwise pop the bad positions and place the popped elements
      back. `done` says whether the attempt returns; when it does not, the list it leaves for
      the next attempt is shorter. Either way it has no equal neighbours and keeps every value. */
  method Repair(shuffled: seq<string>) returns (done: bool, r: seq<string>)
    ensures NoAdjacentEqual(r)
    ensures done ==> multiset(r) == multiset(shuffled)
    ensures !done ==> |r| < |shuffled|
    ensures multiset(r) <= multiset(shuffled)
    ensures forall v :: v in r <==> v in shuffled
  {
    var badPoss := BadPositions(shuffled);
    if badPoss == [] {
      return true, shuffled;
    }
    var rest, badElements := PopBadPositions(shuffled, badPoss);
    DestutterFacts(shuffled);
    done, r := PlaceAll(rest, badElements);
    SubMultisetMembers(rest, r);
    SubMultisetMembers(r, shuffled);
  }

  /** `shuffle_motifs(motif_list)`. `shuffles(x)` are the rolls of the shuffle in attempt `x`.
      Every attempt that cannot place some pulled-out element starts over from the shortened
      list, so the loop ends: the list loses at least one element per failed attempt.
      `failedRepairs` counts those attempts. The result has no equal neighbours, holds every
      value of the input and no more copies of any value; it is a permutation of the input when
      no repair failed. */
  method ShuffleMotifs(motifList: seq<string>, shuffles: nat -> nat -> nat)
    returns (r: seq<string>, ghost failedRepairs: nat)
    ensures NoAdjacentEqual(r)
    ensures multiset(r) <= multiset(motifList)
    ensures forall v :: v in r <==> v in motifList
    ensures |r| + failedRepairs <= |motifList|
    ensures failedRepairs == 0 ==> multiset(r) == multiset(motifList)
  {
    var motifs := motifList;
    var x := 0;
    failedRepairs := 0;
    while true
      invariant multiset(motifs) <= multiset(motifList)
      invariant forall v :: v in motifs <==> v in motifList
      invariant |motifs| + failedRepairs <= |motifList|
      invariant failedRepairs == 0 ==> multiset(motifs) == multiset(motifList)
      decreases |motifs|
    {
      x := x + 1;
      var shuffled := Shuffle(motifs, shuffles(x));
      forall v ensures v in shuffled <==> v in motifs {
        assert v in shuffled <==> v in multiset(shuffled);
      }
      var done;
      done, motifs := Repair(shuffled);
      if done {
        return motifs, failedRepairs;
      }
      failedRepairs := failedRepairs + 1;
    }
  }
}
