/** A caller's output buffer: an array that is filled from a given position on. */
module Buffers {

  /** `now` is `was`, overwritten with `out` from position `at` on. */
  predicate Overlaid(now: seq<int>, was: seq<int>, at: nat, out: seq<int>) {
    |was| == |now| && at + |out| <= |now| && now == was[..at] + out + was[at + |out|..]
  }

  /** The array `dest` is `was`, overwritten in the same way. */
  ghost predicate Written(dest: array<int>, was: seq<int>, at: nat, out: seq<int>)
    reads dest
  {
    Overlaid(dest[..], was, at, out)
  }

  /** Writes one element behind those already written. */
  method Put(dest: array<int>, d: nat, x: int, ghost was: seq<int>, ghost at: nat, ghost out: seq<int>)
    requires Written(dest, was, at, out) && d == at + |out| < dest.Length
    modifies dest
    ensures Written(dest, was, at, out + [x])
  {
    dest[d] := x;
  }

  lemma NothingWritten(dest: array<int>, at: nat)
    requires at <= dest.Length
    ensures Written(dest, dest[..], at, [])
  {
    assert dest[..] == dest[..at] + dest[at..];
  }

  /** Writing twice in a row is writing once. */
  lemma WrittenTwice(dest: array<int>, was: seq<int>, mid: seq<int>, at: nat, a: seq<int>, b: seq<int>)
    requires Overlaid(mid, was, at, a)
    requires Written(dest, mid, at + |a|, b)
    ensures Written(dest, was, at, a + b)
  {
    var n := at + |a|;
    assert mid[..n] == was[..at] + a;
    assert mid[n + |b|..] == was[n + |b|..];
    assert was[..at] + a + b + was[n + |b|..] == was[..at] + (a + b) + was[at + |a + b|..];
  }
}
