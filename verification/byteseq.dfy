/** Byte strings, and the two list idioms the repository uses on them:
    `b"".join(parts)` and `[s[i:i+n] for i in range(0, len(s), n)]`. */
module ByteSeq {

  import Arith

  /** A Python byte value, 0 to 255. */
  newtype byte = x: int | 0 <= x < 256

  function Min(a: int, b: int): int {
    if a <= b then a else b
  }

  /** `s[lo:hi]` for `0 <= lo <= hi`: Python clips both bounds to the length. */
  function Slice<T>(s: seq<T>, lo: nat, hi: nat): (r: seq<T>)
    requires lo <= hi
    ensures |r| == Min(hi, |s|) - Min(lo, |s|)
    ensures forall k | 0 <= k < |r| :: r[k] == s[lo + k]
  {
    s[Min(lo, |s|) .. Min(hi, |s|)]
  }

  /** `s[lo:]` */
  function Drop<T>(s: seq<T>, lo: nat): (r: seq<T>)
    ensures |s| <= lo ==> r == []
    ensures lo <= |s| ==> r == s[lo..]
  {
    s[Min(lo, |s|)..]
  }

  /** Cutting at any point and joining the two sides gives the sequence
      back: `s[:lo] + s[lo:] == s`, the head holding `min(lo, len(s))`
      elements. */
  lemma SliceDrop<T>(s: seq<T>, lo: nat)
    ensures |Slice(s, 0, lo)| == Min(lo, |s|)
    ensures Slice(s, 0, lo) + Drop(s, lo) == s
  {
    if lo <= |s| {
      assert Slice(s, 0, lo) == s[..lo];
    } else {
      assert Slice(s, 0, lo) == s;
    }
  }

  /** `b"".join(parts)` */
  function Flatten<T>(parts: seq<seq<T>>): seq<T> {
    if |parts| == 0 then [] else parts[0] + Flatten(parts[1..])
  }

  lemma {:induction false} FlattenAppend<T>(a: seq<seq<T>>, b: seq<seq<T>>)
    ensures Flatten(a + b) == Flatten(a) + Flatten(b)
    decreases |a|
  {
    if |a| == 0 {
      assert a + b == b;
    } else {
      assert (a + b)[1..] == a[1..] + b;
      FlattenAppend(a[1..], b);
    }
  }

  /** `[s[i:i+n] for i in range(0, len(s), n)]`: consecutive pieces of
      length `n`, the last one possibly shorter. */
  function Chunks<T>(s: seq<T>, n: nat): (r: seq<seq<T>>)
    requires n >= 1
    ensures |r| == (|s| + n - 1) / n
    ensures forall k | 0 <= k < |r| :: 0 < |r[k]| <= n
    ensures forall k | 0 <= k < |r| - 1 :: |r[k]| == n
    ensures Flatten(r) == s
    decreases |s|
  {
    if |s| == 0 then []
    else if |s| <= n then
      assert (|s| + n - 1) / n == 1 by {
        Arith.ModUnique(|s| + n - 1, n, 1, |s| - 1);
      }
      [s]
    else
      var rest := Chunks(s[n..], n);
      Arith.DivSubOne(|s| + n - 1, n);
      var r := [s[..n]] + rest;
      assert r[1..] == rest;
      r
  }

  /** Cutting a join of `n`-long pieces every `n` elements gives the pieces back. */
  lemma {:induction false} ChunksOfFlatten<T>(parts: seq<seq<T>>, n: nat)
    requires n >= 1
    requires forall k | 0 <= k < |parts| :: |parts[k]| == n
    ensures Chunks(Flatten(parts), n) == parts
    decreases |parts|
  {
    if |parts| > 0 {
      var rest := parts[1..];
      ChunksOfFlatten(rest, n);
      var f := Flatten(parts);
      assert f == parts[0] + Flatten(rest);
      if |rest| > 0 {
        assert |Flatten(rest)| >= |rest[0]| by {
          assert Flatten(rest) == rest[0] + Flatten(rest[1..]);
        }
        assert f[..n] == parts[0];
        assert f[n..] == Flatten(rest);
      } else {
        assert f == parts[0];
      }
    }
  }

  /** A length that is a multiple of `n` is cut into full pieces only. */
  lemma ChunksAligned<T>(s: seq<T>, n: nat)
    requires n >= 1 && |s| % n == 0
    ensures |Chunks(s, n)| == |s| / n
    ensures forall k | 0 <= k < |Chunks(s, n)| :: |Chunks(s, n)[k]| == n
  {
    ChunksFull(s, n, |s| / n);
  }

  /** `q` pieces of `n` elements are cut into `q` full pieces. */
  lemma {:induction false} ChunksFull<T>(s: seq<T>, n: nat, q: nat)
    requires n >= 1 && |s| == n * q
    ensures |Chunks(s, n)| == q
    ensures forall k | 0 <= k < |Chunks(s, n)| :: |Chunks(s, n)[k]| == n
    decreases q
  {
    if q == 1 {
      assert Chunks(s, n) == [s];
    } else if q > 1 {
      Arith.MulSucc(n, q - 1);
      Arith.MulAtLeast(n, q - 1);
      ChunksFull(s[n..], n, q - 1);
      assert Chunks(s, n) == [s[..n]] + Chunks(s[n..], n);
    }
  }

  /** The first piece of a non-empty input, and the only one when the input
      fits in one piece. */
  lemma FirstBlock<T>(c: seq<T>, n: nat)
    requires n >= 1
    ensures |c| > 0 ==> |Chunks(c, n)| >= 1 && |Chunks(c, n)[0]| == Min(|c|, n)
    ensures 0 < |c| <= n ==> |Chunks(c, n)| == 1
  {
  }

  /** A join of `n`-long pieces is `n` times as long as the list of pieces. */
  lemma {:induction false} FlattenLength<T>(parts: seq<seq<T>>, n: nat)
    requires forall k | 0 <= k < |parts| :: |parts[k]| == n
    ensures |Flatten(parts)| == n * |parts|
    decreases |parts|
  {
    if |parts| > 0 {
      FlattenLength(parts[1..], n);
    }
  }

  /** When the length is not a multiple of `n`, the last piece holds the
      remainder. */
  lemma {:induction false} ChunkLast<T>(s: seq<T>, n: nat)
    requires n >= 1 && |s| % n != 0
    ensures |Chunks(s, n)| >= 1
    ensures |Chunks(s, n)[|Chunks(s, n)| - 1]| == |s| % n
    decreases |s|
  {
    if |s| < n {
      Arith.ModUnique(|s|, n, 0, |s|);
      assert Chunks(s, n) == [s];
    } else if |s| == n {
      Arith.ModUnique(|s|, n, 1, 0);
    } else {
      var rest := Chunks(s[n..], n);
      Arith.DivSubOne(|s|, n);
      assert |s[n..]| % n == |s| % n;
      ChunkLast(s[n..], n);
      assert Chunks(s, n) == [s[..n]] + rest;
      assert Chunks(s, n)[|Chunks(s, n)| - 1] == rest[|rest| - 1];
    }
  }

  /** Cutting every `n` elements leaves a short piece exactly when the length
      is not a multiple of `n`. */
  lemma ChunksShort<T>(c: seq<T>, n: nat)
    requires n >= 1
    ensures |c| % n == 0 <==> forall k | 0 <= k < |Chunks(c, n)| :: |Chunks(c, n)[k]| == n
  {
    var blocks := Chunks(c, n);
    if |c| % n == 0 {
      ChunksAligned(c, n);
    } else {
      ChunkLast(c, n);
      assert |blocks[|blocks| - 1]| != n;
    }
  }
}
