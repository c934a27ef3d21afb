/** Big-endian bit strings: the common ground on which 16-bit units and 6-bit digits are compared. */
module Bits {
  import opened Sequences

  function Pow2(n: nat): (p: nat)
    ensures p >= 1
  {
    if n == 0 then 1 else 2 * Pow2(n - 1)
  }

  /** The `w` low bits of `v`, most significant first. */
  function ToBits(w: nat, v: nat): (b: seq<bool>)
    ensures |b| == w
  {
    if w == 0 then [] else ToBits(w - 1, v / 2) + [v % 2 == 1]
  }

  /** The number a bit string denotes. */
  function Num(b: seq<bool>): nat {
    if b == [] then 0 else 2 * Num(b[..|b| - 1]) + (if b[|b| - 1] then 1 else 0)
  }

  function Zeros(n: nat): (z: seq<bool>)
    ensures |z| == n && forall i :: 0 <= i < n ==> !z[i]
  {
    seq(n, _ => false)
  }

  /** The bit strings of `vs`, each `w` bits wide, one after the other. */
  function Flat(w: nat, vs: seq<nat>): (b: seq<bool>) {
    if vs == [] then [] else ToBits(w, vs[0]) + Flat(w, vs[1..])
  }

  /** Cuts a bit string into 6-bit digits; the last one is filled up with zero bits. */
  function Sextets(b: seq<bool>): (ds: seq<nat>) {
    if b == [] then []
    else if |b| < 6 then [Num(b + Zeros(6 - |b|))]
    else [Num(b[..6])] + Sextets(b[6..])
  }

  /** How many zero bits fill up the last digit of `n` bits. */
  function Pad(n: nat): (p: nat)
    ensures p < 6 && (n + p) % 6 == 0
  {
    (6 - n % 6) % 6
  }

  // ----- single numbers

  lemma {:induction false} JoinBits(m: nat, n: nat, hi: nat, lo: nat)
    requires lo < Pow2(n)
    ensures ToBits(m + n, hi * Pow2(n) + lo) == ToBits(m, hi) + ToBits(n, lo)
  {
    if n != 0 {
      var p := hi * Pow2(n - 1);
      assert hi * Pow2(n) == 2 * p;
      assert (2 * p + lo) / 2 == p + lo / 2;
      JoinBits(m, n - 1, hi, lo / 2);
    }
  }

  /** `JoinBits` for a power of two given as a number. */
  lemma SplitBits(m: nat, n: nat, v: nat, p: nat, hi: nat, lo: nat)
    requires p == Pow2(n) && lo < p && v == hi * p + lo
    ensures ToBits(m + n, v) == ToBits(m, hi) + ToBits(n, lo)
  {
    JoinBits(m, n, hi, lo);
  }

  lemma {:induction false} NumToBits(w: nat, v: nat)
    requires v < Pow2(w)
    ensures Num(ToBits(w, v)) == v
  {
    if w != 0 {
      NumToBits(w - 1, v / 2);
      assert ToBits(w, v)[..w - 1] == ToBits(w - 1, v / 2);
    }
  }

  lemma {:induction false} ToBitsNum(b: seq<bool>)
    ensures Num(b) < Pow2(|b|)
    ensures ToBits(|b|, Num(b)) == b
  {
    if b != [] {
      ToBitsNum(b[..|b| - 1]);
      assert b == b[..|b| - 1] + [b[|b| - 1]];
    }
  }

  lemma {:induction false} ZeroBits(k: nat)
    ensures ToBits(k, 0) == Zeros(k)
  {
    if k != 0 {
      ZeroBits(k - 1);
    }
  }

  lemma Powers()
    ensures Pow2(2) == 4 && Pow2(4) == 16 && Pow2(6) == 64 && Pow2(8) == 256 && Pow2(10) == 1024
    ensures Pow2(12) == 4096 && Pow2(14) == 16384 && Pow2(16) == 65536
  {
  }

  // ----- sequences of numbers

  lemma {:induction false} FlatLength(w: nat, vs: seq<nat>)
    ensures |Flat(w, vs)| == w * |vs|
  {
    if vs != [] {
      FlatLength(w, vs[1..]);
      assert w * |vs| == w + w * (|vs| - 1);
    }
  }

  lemma {:induction false} FlatConcat(w: nat, a: seq<nat>, b: seq<nat>)
    ensures Flat(w, a + b) == Flat(w, a) + Flat(w, b)
  {
    hide ToBits;
    if a == [] {
      Empty(b);
      Empty(Flat(w, b));
    } else {
      FlatConcat(w, a[1..], b);
      assert (a + b)[1..] == a[1..] + b;
      Assoc(ToBits(w, a[0]), Flat(w, a[1..]), Flat(w, b));
    }
  }

  lemma {:induction false} FlatInjective(w: nat, a: seq<nat>, b: seq<nat>)
    requires |a| == |b| && Flat(w, a) == Flat(w, b)
    requires forall i :: 0 <= i < |a| ==> a[i] < Pow2(w)
    requires forall i :: 0 <= i < |b| ==> b[i] < Pow2(w)
    ensures a == b
  {
    hide ToBits;
    if a != [] {
      assert ToBits(w, a[0]) == Flat(w, a)[..w] == ToBits(w, b[0]);
      NumToBits(w, a[0]);
      NumToBits(w, b[0]);
      assert Flat(w, a[1..]) == Flat(w, a)[w..] == Flat(w, b[1..]);
      FlatInjective(w, a[1..], b[1..]);
    }
  }

  /** A bit string that agrees with itself moved to the right, with zeros coming in, consists of zeros. */
  lemma ShiftFixed(b: seq<bool>, p: nat)
    ensures (Zeros(p) + b)[..|b|] == b <==> p == 0 || b == Zeros(|b|)
  {
    if p > 0 && (Zeros(p) + b)[..|b|] == b {
      forall i | 0 <= i < |b| ensures !b[i] {
        NoBit(b, p, i);
      }
    }
  }

  lemma {:induction false} NoBit(b: seq<bool>, p: nat, i: nat)
    requires p > 0 && i < |b| && (Zeros(p) + b)[..|b|] == b
    ensures !b[i]
    decreases i
  {
    assert b[i] == (Zeros(p) + b)[i];
    if i >= p {
      NoBit(b, p, i - p);
    }
  }

  lemma {:induction false} FlatZeros(w: nat, vs: seq<nat>)
    requires w > 0 && forall i :: 0 <= i < |vs| ==> vs[i] < Pow2(w)
    ensures Flat(w, vs) == Zeros(w * |vs|) <==> forall i :: 0 <= i < |vs| ==> vs[i] == 0
  {
    hide ToBits, Zeros;
    var zeros := seq(|vs|, _ => 0);
    FlatOfZeros(w, |vs|);
    if Flat(w, vs) == Zeros(w * |vs|) {
      FlatInjective(w, vs, zeros);
    } else {
      assert (forall i :: 0 <= i < |vs| ==> vs[i] == 0) ==> vs == zeros;
    }
  }

  lemma {:induction false} FlatOfZeros(w: nat, n: nat)
    ensures Flat(w, seq(n, _ => 0)) == Zeros(w * n)
  {
    hide ToBits;
    if n != 0 {
      var zeros := seq(n, _ => 0);
      assert zeros[1..] == seq(n - 1, _ => 0);
      FlatOfZeros(w, n - 1);
      ZeroBits(w);
      assert w * n == w + w * (n - 1);
      assert Zeros(w) + Zeros(w * (n - 1)) == Zeros(w * n);
    }
  }

  lemma FlatCons(w: nat, v: nat, vs: seq<nat>)
    ensures Flat(w, [v] + vs) == ToBits(w, v) + Flat(w, vs)
  {
    assert ([v] + vs)[1..] == vs;
  }

  lemma FlatTwo(w: nat, a: nat, b: nat)
    ensures Flat(w, [a, b]) == ToBits(w, a) + ToBits(w, b)
  {
    FlatCons(w, a, [b]);
    FlatCons(w, b, []);
    assert [a] + [b] == [a, b] && [b] + [] == [b];
  }

  lemma FlatThree(w: nat, a: nat, b: nat, c: nat)
    ensures Flat(w, [a, b, c]) == ToBits(w, a) + ToBits(w, b) + ToBits(w, c)
  {
    FlatCons(w, a, [b, c]);
    FlatTwo(w, b, c);
    assert [a] + [b, c] == [a, b, c];
  }

  // ----- six-bit digits

  lemma {:induction false} SextetsCount(b: seq<bool>)
    ensures |Sextets(b)| == (|b| + 5) / 6
    ensures forall i :: 0 <= i < |Sextets(b)| ==> Sextets(b)[i] < 64
  {
    assert Pow2(6) == 64;
    if 0 < |b| < 6 {
      ToBitsNum(b + Zeros(6 - |b|));
    } else if b != [] {
      ToBitsNum(b[..6]);
      SextetsCount(b[6..]);
    }
  }

  lemma FlatDigit(b: seq<bool>, ds: seq<nat>)
    requires |b| == 6
    ensures Flat(6, [Num(b)] + ds) == b + Flat(6, ds)
  {
    ToBitsNum(b);
    FlatCons(|b|, Num(b), ds);
  }

  lemma {:induction false} SextetsFlat(b: seq<bool>)
    ensures Flat(6, Sextets(b)) == b + Zeros(Pad(|b|))
  {
    hide ToBits, Num;
    if b == [] {
      assert Zeros(0) == [];
    } else if |b| < 6 {
      var full := b + Zeros(6 - |b|);
      FlatDigit(full, []);
      Empty([Num(full)]);
      Empty(full);
    } else {
      var tail := b[6..];
      SextetsFlat(tail);
      FlatDigit(b[..6], Sextets(tail));
      assert Pad(|tail|) == Pad(|b|);
      Assoc(b[..6], tail, Zeros(Pad(|b|)));
      assert b[..6] + tail == b;
    }
  }

  /** Digits whose bits are `b` followed by fewer than six zeros are the digits of `b`. */
  lemma {:induction false} SextetsUnique(ds: seq<nat>, b: seq<bool>, pad: nat)
    requires Flat(6, ds) == b + Zeros(pad) && pad < 6
    requires forall i :: 0 <= i < |ds| ==> ds[i] < 64
    ensures ds == Sextets(b)
  {
    SextetsFlat(b);
    SextetsCount(b);
    FlatLength(6, ds);
    FlatLength(6, Sextets(b));
    assert Pow2(6) == 64;
    FlatInjective(6, ds, Sextets(b));
  }

  lemma {:induction false} SextetsPrefix(ds: seq<nat>, b: seq<bool>)
    requires forall i :: 0 <= i < |ds| ==> ds[i] < 64
    ensures Sextets(Flat(6, ds) + b) == ds + Sextets(b)
  {
    hide ToBits, Num;
    if ds == [] {
      assert Flat(6, ds) + b == b;
    } else {
      var all := Flat(6, ds) + b;
      assert Pow2(6) == 64;
      NumToBits(6, ds[0]);
      assert all[..6] == ToBits(6, ds[0]);
      assert all[6..] == Flat(6, ds[1..]) + b;
      SextetsPrefix(ds[1..], b);
    }
  }
}
