/** Levenshtein distance, standing in for the `editdistance.eval` library
    call of `untriseptium/backend/tesseract.py`: the least number of
    single-character insertions, deletions and substitutions turning one
    string into the other. */
module EditDistance {

  function Min3(a: nat, b: nat, c: nat): nat {
    if a <= b && a <= c then a else if b <= c then b else c
  }

  function MaxLen(a: string, b: string): nat {
    if |a| >= |b| then |a| else |b|
  }

  /** The distance, by recursion on the last characters. */
  function Levenshtein(a: string, b: string): nat
    decreases |a| + |b|
  {
    if |a| == 0 then |b|
    else if |b| == 0 then |a|
    else
      Min3(Levenshtein(a[..|a| - 1], b) + 1,
           Levenshtein(a, b[..|b| - 1]) + 1,
           Levenshtein(a[..|a| - 1], b[..|b| - 1]) + (if a[|a| - 1] == b[|b| - 1] then 0 else 1))
  }

  /** The distance never exceeds the longer length: substitute along the
      shorter string and insert the rest. */
  lemma {:induction false} LevenshteinAtMostMaxLen(a: string, b: string)
    ensures Levenshtein(a, b) <= MaxLen(a, b)
    decreases |a| + |b|
  {
    if |a| != 0 && |b| != 0 {
      LevenshteinAtMostMaxLen(a[..|a| - 1], b[..|b| - 1]);
    }
  }

  /** ... and is at least the difference of the lengths. */
  lemma {:induction false} LevenshteinAtLeastLengthGap(a: string, b: string)
    ensures Levenshtein(a, b) >= |a| - |b| && Levenshtein(a, b) >= |b| - |a|
    decreases |a| + |b|
  {
    if |a| != 0 && |b| != 0 {
      LevenshteinAtLeastLengthGap(a[..|a| - 1], b);
      LevenshteinAtLeastLengthGap(a, b[..|b| - 1]);
      LevenshteinAtLeastLengthGap(a[..|a| - 1], b[..|b| - 1]);
    }
  }

  /** The distance is 0 exactly when the strings are equal. */
  lemma {:induction false} LevenshteinZeroIffEqual(a: string, b: string)
    ensures Levenshtein(a, b) == 0 <==> a == b
    decreases |a| + |b|
  {
    LevenshteinAtLeastLengthGap(a, b);
    if |a| != 0 && |b| != 0 {
      LevenshteinZeroIffEqual(a[..|a| - 1], b[..|b| - 1]);
      LevenshteinAtLeastLengthGap(a[..|a| - 1], b);
      LevenshteinAtLeastLengthGap(a, b[..|b| - 1]);
      if a == b {
        assert a[..|a| - 1] == b[..|b| - 1];
      }
      if Levenshtein(a, b) == 0 {
        assert a == a[..|a| - 1] + [a[|a| - 1]];
        assert b == b[..|b| - 1] + [b[|b| - 1]];
      }
    }
  }
}
