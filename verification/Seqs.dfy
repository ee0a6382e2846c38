/** Rearrangements of sequences. */
module Seqs {

  lemma Assoc<T>(a: seq<T>, b: seq<T>, c: seq<T>)
    ensures a + (b + c) == a + b + c
  {
  }

  lemma HeadOfConcat<T>(a: seq<T>, b: seq<T>)
    requires a != []
    ensures (a + b)[0] == a[0] && (a + b)[1..] == a[1..] + b
  {
  }

  lemma Parts<T>(a: seq<T>, b: seq<T>, c: seq<T>)
    ensures var f := a + b + c;
            f[..|a|] == a && f[|a|..|a| + |b|] == b && f[|a| + |b|..] == c
  {
  }

  lemma UpdateMiddle<T>(a: seq<T>, b: seq<T>, c: seq<T>, i: nat, v: T)
    requires i < |b|
    ensures (a + b + c)[|a| + i := v] == a + b[i := v] + c
  {
  }

  lemma Take<T>(s: seq<T>, k: nat)
    requires k < |s|
    ensures s[..k + 1] == s[..k] + [s[k]] && s[k..] == [s[k]] + s[k + 1..]
  {
  }
}
