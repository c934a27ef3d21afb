/** Rearranging concatenations, away from everything else the solver would look at. */
module Sequences {

  lemma Empty<T>(a: seq<T>)
    ensures [] + a == a && a + [] == a
  {
  }

  lemma Assoc<T>(a: seq<T>, b: seq<T>, c: seq<T>)
    ensures (a + b) + c == a + (b + c)
  {
  }

  lemma Assoc4<T>(a: seq<T>, b: seq<T>, c: seq<T>, d: seq<T>)
    ensures a + (b + (c + d)) == (a + b) + c + d
  {
  }

  lemma Assoc5<T>(a: seq<T>, b: seq<T>, c: seq<T>, d: seq<T>, e: seq<T>)
    ensures a + (b + (c + (d + e))) == (a + b) + c + d + e
  {
  }

  lemma Halves<T>(whole: seq<T>, a: seq<T>, b: seq<T>)
    requires whole == a + b
    ensures a == whole[..|a|] && b == whole[|a|..]
  {
  }

  lemma Cut<T>(p: seq<T>, n: nat, used: nat, later: seq<T>)
    requires used <= n <= |p|
    ensures p + later == p[..n] + (p[n..] + later)
    ensures p[used..] + later == p[..n][used..] + (p[n..] + later)
  {
  }
}
