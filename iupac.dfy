/** The nucleotide ambiguity table of metmap (the symbol table of the NC-IUB 1985
    recommendations "Nomenclature for Incompletely Specified Bases in Nucleic Acid
    Sequences", without U and gap symbols) and the character helpers around it. */
module Iupac {
  import opened SeqUtil

  /** `dnc`: each ambiguity code and the bases it stands for, in the table's own order. */
  const Dnc: map<char, string> := map[
    'R' := "AG",
    'Y' := "CT",
    'S' := "GC",
    'W' := "AT",
    'K' := "GT",
    'M' := "AC",
    'B' := "CGT",
    'D' := "AGT",
    'H' := "ACT",
    'V' := "ACG",
    'N' := "ATCG"
  ]

  predicate IsBase(c: char) {
    c == 'A' || c == 'C' || c == 'G' || c == 'T'
  }

  /** The symbols `deambigulate_random` accepts: a concrete base (a member of `dnc['N']`) or a key. */
  predicate IsSymbol(c: char) {
    c in Dnc['N'] || c in Dnc
  }

  /** What one position of a sequence may become: its code's bases, or itself when it is no code. */
  function Options(c: char): string {
    if c in Dnc then Dnc[c] else [c]
  }

  /** `str.upper` on one character (ASCII letters). */
  function Upper(c: char): char {
    if 'a' <= c <= 'z' then (c as int - 32) as char else c
  }

  predicate IsUpper(s: string) {
    forall i :: 0 <= i < |s| ==> Upper(s[i]) == s[i]
  }

  /** The table is well formed: every code stands for two to four distinct concrete bases,
      no code is itself a base or changes under upper-casing, and `N` stands for all four. */
  lemma DncWellFormed()
    ensures forall c :: c in Dnc ==>
              && 2 <= |Dnc[c]| <= 4
              && Distinct(Dnc[c])
              && (forall i :: 0 <= i < |Dnc[c]| ==> IsBase(Dnc[c][i]))
              && !IsBase(c)
              && Upper(c) == c
    ensures forall b :: IsBase(b) <==> b in Dnc['N']
  {
  }

  /** A position's options are distinct, and for a code they are concrete bases. */
  lemma OptionsFacts(c: char)
    ensures |Options(c)| >= 1 && Distinct(Options(c))
    ensures c in Dnc ==> |Options(c)| >= 2 && forall i :: 0 <= i < |Options(c)| ==> IsBase(Options(c)[i])
  {
    DncWellFormed();
  }
}
