/** Small sequence helpers shared by the models. */
module Seqs {

  function Min(a: int, b: int): int {
    if a <= b then a else b
  }

  /** Python's `s[:n]` for a count `n`; a count of zero or less takes nothing. */
  function Take<T>(s: seq<T>, n: int): seq<T> {
    if n <= 0 then [] else if n >= |s| then s else s[..n]
  }

  /** For a count that is not negative, `Take` is a prefix. */
  lemma TakeIsPrefix<X>(s: seq<X>, n: nat)
    ensures Take(s, n) == s[..Min(n, |s|)]
  {
  }

  /** Python's `list(reversed(s))`. */
  function Reverse<T>(s: seq<T>): (r: seq<T>)
    ensures |r| == |s|
    ensures forall i :: 0 <= i < |s| ==> r[i] == s[|s| - 1 - i]
  {
    if s == [] then [] else Reverse(s[1..]) + [s[0]]
  }

  /** Reversing a concatenation reverses the order of the parts. */
  lemma ReverseAppend<T>(a: seq<T>, b: seq<T>)
    ensures Reverse(a + b) == Reverse(b) + Reverse(a)
  {
    var l := Reverse(a + b);
    var r := Reverse(b) + Reverse(a);
    forall i | 0 <= i < |l| ensures l[i] == r[i] {
      if i < |b| {
        assert r[i] == b[|b| - 1 - i];
      } else {
        assert r[i] == Reverse(a)[i - |b|];
      }
    }
  }

  /** Reversing twice gives the sequence back. */
  lemma ReverseReverse<T>(s: seq<T>)
    ensures Reverse(Reverse(s)) == s
  {
  }
}
