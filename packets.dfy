/**
 * Cutting a byte stream into fixed-size packets: the packets handed to the
 * flush handler and the partial packet left in the buffer.
 */
module Packets {
  import opened Arith

  /** The whole packets of `n` elements at the front of `s`, in order. */
  function Chunks<T>(s: seq<T>, n: nat): (cs: seq<seq<T>>)
    requires n > 0
    ensures |cs| == |s| / n
    ensures forall i :: 0 <= i < |cs| ==> |cs[i]| == n
    decreases |s|
  {
    if |s| < n then [] else
      var tail := Chunks(s[n..], n);
      assert |s| / n == 1 + |s[n..]| / n by { DivStep(|s|, n); }
      [s[..n]] + tail
  }

  /** What is left of `s` after its whole packets. */
  function Rest<T>(s: seq<T>, n: nat): (r: seq<T>)
    requires n > 0
    ensures |r| < n
    decreases |s|
  {
    if |s| < n then s else Rest(s[n..], n)
  }

  /** The packets laid end to end. */
  function Flatten<T>(ss: seq<seq<T>>): seq<T> {
    if ss == [] then [] else ss[0] + Flatten(ss[1..])
  }

  lemma DivStep(a: nat, n: nat)
    requires n > 0 && a >= n
    ensures a / n == 1 + (a - n) / n
  {
    var q, r := (a - n) / n, (a - n) % n;
    assert a == (q + 1) * n + r;
    DivModUnique(a, n, q + 1, r);
  }

  /** The packets followed by the remainder are the stream again. */
  lemma {:induction false} ChunksRest<T>(s: seq<T>, n: nat)
    requires n > 0
    ensures Flatten(Chunks(s, n)) + Rest(s, n) == s
    decreases |s|
  {
    if |s| >= n {
      ChunksRest(s[n..], n);
      var tail := Chunks(s[n..], n);
      assert Chunks(s, n) == [s[..n]] + tail;
      assert ([s[..n]] + tail)[1..] == tail;
      assert s == s[..n] + s[n..];
    }
  }

  /**
   * Appending a piece that does not overfill the pending packet either
   * completes that packet, which joins the whole packets, or extends it.
   */
  lemma {:induction false} ChunksSnoc<T>(s: seq<T>, x: seq<T>, n: nat)
    requires n > 0 && |Rest(s, n)| + |x| <= n
    ensures |Rest(s, n)| + |x| == n ==>
      Chunks(s + x, n) == Chunks(s, n) + [Rest(s, n) + x] && Rest(s + x, n) == []
    ensures |Rest(s, n)| + |x| < n ==>
      Chunks(s + x, n) == Chunks(s, n) && Rest(s + x, n) == Rest(s, n) + x
    decreases |s|
  {
    if |s| >= n {
      assert (s + x)[n..] == s[n..] + x;
      assert (s + x)[..n] == s[..n];
      ChunksSnoc(s[n..], x, n);
    } else if |s| + |x| == n {
      assert (s + x)[n..] == [];
      assert (s + x)[..n] == s + x;
    }
  }

  /** Flattening distributes over concatenation. */
  lemma {:induction false} FlattenAppend<T>(a: seq<seq<T>>, b: seq<seq<T>>)
    ensures Flatten(a + b) == Flatten(a) + Flatten(b)
    decreases |a|
  {
    if a != [] {
      assert (a + b)[0] == a[0] && (a + b)[1..] == a[1..] + b;
      FlattenAppend(a[1..], b);
    } else {
      assert a + b == b;
    }
  }

  /** Packets flushed earlier, then the packets and the remainder of `s`: the earlier bytes followed by `s`. */
  lemma FlushedThenPending<T>(flushed: seq<seq<T>>, s: seq<T>, n: nat)
    requires n > 0
    ensures Flatten(flushed + Chunks(s, n)) + Rest(s, n) == Flatten(flushed) + s
  {
    FlattenAppend(flushed, Chunks(s, n));
    ChunksRest(s, n);
  }
}
