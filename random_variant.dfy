/** One random concrete variant of a sequence (`deambigulate_random`). The random source is an
    oracle: `roll(i)` is the number `random.choice` draws at position `i`, and the base chosen
    from a list `xs` is `xs[roll(i) % |xs|]`. Every property is proved for every oracle. */
module RandomVariant {
  import opened Outcome
  import opened SeqUtil
  import opened Iupac
  import opened Variants

  /** One position of `deambigulate_random`: a member of `dnc['N']` (a concrete base) is kept,
      any other key of the table becomes one of its bases, anything else raises KeyError. */
  function RandomSymbol(n: char, roll: nat): Result<char> {
    DncWellFormed();
    if n in Dnc['N'] then Success(n)
    else if n in Dnc then Success(Dnc[n][roll % |Dnc[n]|])
    else Failure(KeyError(n))
  }

  /** What one position yields: a base from the symbol's options, or KeyError for anything
      that is neither a base nor a code. */
  lemma RandomSymbolFacts(n: char, roll: nat)
    ensures RandomSymbol(n, roll).Success? <==> IsSymbol(n)
    ensures RandomSymbol(n, roll).Success? ==>
              IsBase(RandomSymbol(n, roll).value) && RandomSymbol(n, roll).value in Options(n)
    ensures RandomSymbol(n, roll).Failure? ==> RandomSymbol(n, roll).error == KeyError(n)
  {
    DncWellFormed();
  }

  /** `deambigulate_random(seq)`: the upper-cased input, position by position through
      `RandomSymbol`, left to right, so that the first offending symbol raises. */
  function DeambigulateRandom(s: string, roll: nat -> nat): (r: Result<string>)
    ensures r.Success? <==> forall i :: 0 <= i < |s| ==> IsSymbol(Upper(s[i]))
    ensures r.Success? ==>
              && |r.value| == |s|
              && forall i :: 0 <= i < |s| ==> IsBase(r.value[i]) && r.value[i] in Options(Upper(s[i]))
    ensures r.Failure? ==> r.error.KeyError?
  {
    if s == [] then Success([])
    else
      var n := |s| - 1;
      assert forall j :: 0 <= j < n ==> s[..n][j] == s[j];
      RandomSymbolFacts(Upper(s[n]), roll(n));
      match DeambigulateRandom(s[..n], roll)
      case Failure(e) => Failure(e)
      case Success(prefix) =>
        match RandomSymbol(Upper(s[n]), roll(n))
        case Failure(e) => Failure(e)
        case Success(c) => Success(prefix + [c])
  }

  /** A failure is the KeyError of the first symbol that is neither a base nor a code. */
  lemma {:induction false} RandomFailsAtFirstBadSymbol(s: string, roll: nat -> nat)
    requires DeambigulateRandom(s, roll).Failure?
    ensures exists i :: && 0 <= i < |s|
                        && DeambigulateRandom(s, roll).error == KeyError(Upper(s[i]))
                        && !IsSymbol(Upper(s[i]))
                        && forall j :: 0 <= j < i ==> IsSymbol(Upper(s[j]))
  {
    var n := |s| - 1;
    var prefix := s[..n];
    assert forall j :: 0 <= j < n ==> prefix[j] == s[j];
    if DeambigulateRandom(prefix, roll).Failure? {
      RandomFailsAtFirstBadSymbol(prefix, roll);
      var i :| && 0 <= i < |prefix|
               && DeambigulateRandom(prefix, roll).error == KeyError(Upper(prefix[i]))
               && !IsSymbol(Upper(prefix[i]))
               && forall j :: 0 <= j < i ==> IsSymbol(Upper(prefix[j]));
      assert prefix[i] == s[i];
    } else {
      RandomSymbolFacts(Upper(s[n]), roll(n));
    }
  }

  /** For upper-case input, every successful random variant is one of the strings
      `deambigulate_all` lists. */
  lemma RandomIsListed(s: string, roll: nat -> nat)
    requires IsUpper(s)
    requires DeambigulateRandom(s, roll).Success?
    ensures DeambigulateRandom(s, roll).value in DeambigulateAll(s)
  {
    var t := DeambigulateRandom(s, roll).value;
    DeambigulateAllSpec(s);
    assert IsVariantOf(s, t);
  }

  /** Position of `x` in `xs` (or `|xs|` when absent). */
  function IndexOf(xs: string, x: char): (k: nat)
    ensures x in xs ==> k < |xs| && xs[k] == x
  {
    if xs == [] || xs[0] == x then 0 else 1 + IndexOf(xs[1..], x)
  }

  /** The rolls that steer `deambigulate_random` to the reading `t` of `s`. */
  function RollsFor(s: string, t: string): nat -> nat {
    (i: nat) => if i < |s| && i < |t| && s[i] in Dnc then IndexOf(Dnc[s[i]], t[i]) else 0
  }

  lemma SmallModulus(j: nat, n: nat)
    requires j < n
    ensures j % n == j
  {
  }

  lemma RandomSymbolHits(c: char, x: char)
    requires IsSymbol(c) && x in Options(c)
    ensures RandomSymbol(c, if c in Dnc then IndexOf(Dnc[c], x) else 0) == Success(x)
  {
    if c in Dnc {
      var xs := Dnc[c];
      var j := IndexOf(xs, x);
      SmallModulus(j, |xs|);
      assert c !in Dnc['N'] by { DncWellFormed(); }
    }
  }

  /** One more position: when the prefix and the next symbol both succeed, the longer prefix
      yields their concatenation. */
  lemma RandomSnoc(s: string, roll: nat -> nat, k: nat)
    requires k < |s|
    requires DeambigulateRandom(s[..k], roll).Success?
    requires RandomSymbol(Upper(s[k]), roll(k)).Success?
    ensures DeambigulateRandom(s[..k + 1], roll)
            == Success(DeambigulateRandom(s[..k], roll).value + [RandomSymbol(Upper(s[k]), roll(k)).value])
  {
    assert s[..k + 1][..k] == s[..k];
    assert s[..k + 1][k] == s[k];
  }

  lemma {:induction false} RandomPrefix(s: string, roll: nat -> nat, t: string, k: nat)
    requires |t| == |s| && k <= |s|
    requires forall i :: 0 <= i < |s| ==> RandomSymbol(Upper(s[i]), roll(i)) == Success(t[i])
    ensures DeambigulateRandom(s[..k], roll) == Success(t[..k])
  {
    if k > 0 {
      var p := t[..k - 1];
      assert DeambigulateRandom(s[..k], roll) == Success(p + [t[k - 1]]) by {
        RandomPrefix(s, roll, t, k - 1);
        RandomSnoc(s, roll, k - 1);
      }
      PrefixSnoc(t, k);
    }
  }

  lemma RollsForHits(s: string, t: string, i: nat)
    requires IsUpper(s) && IsVariantOf(s, t)
    requires i < |s| && IsSymbol(s[i])
    ensures RandomSymbol(Upper(s[i]), RollsFor(s, t)(i)) == Success(t[i])
  {
    var c := s[i];
    assert Upper(c) == c;
    RandomSymbolHits(c, t[i]);
  }

  lemma RollsForVariant(s: string, t: string)
    requires IsUpper(s) && IsVariantOf(s, t)
    requires forall i :: 0 <= i < |s| ==> IsSymbol(s[i])
    ensures DeambigulateRandom(s, RollsFor(s, t)) == Success(t)
  {
    forall i | 0 <= i < |s| ensures RandomSymbol(Upper(s[i]), RollsFor(s, t)(i)) == Success(t[i]) {
      RollsForHits(s, t, i);
    }
    RandomPrefix(s, RollsFor(s, t), t, |s|);
    assert s[..|s|] == s && t[..|t|] == t;
  }

  /** Conversely, when every symbol of an upper-case input is a base or a code, each string
      `deambigulate_all` lists is the outcome of some rolls: random expansion can reach every
      variant. */
  lemma RandomReachesEveryVariant(s: string, t: string)
    requires IsUpper(s)
    requires forall i :: 0 <= i < |s| ==> IsSymbol(s[i])
    requires t in DeambigulateAll(s)
    ensures DeambigulateRandom(s, RollsFor(s, t)) == Success(t)
  {
    DeambigulateAllOrder(s);
    ProductMembers(s, t);
    RollsForVariant(s, t);
  }
}
