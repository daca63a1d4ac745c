/** Index arithmetic of a ring of cells, free of any object: what the modular
    expressions of src/pdsh/cbuf.c mean as contiguous stretches of bytes. */
module Ring {

  type Byte = x: int | 0 <= x < 256

  const NEWLINE: Byte := 10

  function Min(a: int, b: int): (r: int)
    ensures r <= a && r <= b && (r == a || r == b)
  {
    if a <= b then a else b
  }

  function Max(a: int, b: int): (r: int)
    ensures r >= a && r >= b && (r == a || r == b)
  {
    if a >= b then a else b
  }

  /** What `x % n` is for an index that has passed the end at most once. */
  function Wrap(x: nat, n: nat): (r: nat)
    requires 0 < n && x < 2 * n
  {
    if x < n then x else x - n
  }

  lemma WrapIsModulo(x: nat, n: nat)
    requires 0 < n && x < 2 * n
    ensures Wrap(x, n) == x % n
  {
    if x >= n {
      assert x == n * 1 + (x - n);
    }
  }

  lemma WrapSame(i: nat, n: nat)
    requires i < n
    ensures Wrap(i, n) == i
  {
  }

  lemma WrapBack(i: nat, n: nat)
    requires i < n
    ensures Wrap(i - 0 + n, n) == i
  {
  }

  /** One more contiguous copy of `m` cells moves an index on. */
  lemma WrapStep(i: nat, w: nat, m: nat, n: nat)
    requires i < n && w < n
    requires Wrap(i + w, n) + m <= n
    ensures Wrap(Wrap(i + w, n) + m, n) < n
    ensures w + m < n ==> Wrap(Wrap(i + w, n) + m, n) == Wrap(i + (w + m), n)
  {
  }

  /** The last `n` elements of `s`. */
  function Last<T>(s: seq<T>, n: nat): (r: seq<T>)
    requires n <= |s|
    ensures |r| == n
  {
    s[|s| - n..]
  }

  /** The `n` cells of the ring `d` starting at cell `i`. */
  function Slice<T>(d: seq<T>, i: nat, n: nat): (r: seq<T>)
    requires i < |d| && n <= |d|
    ensures |r| == n
  {
    seq(n, k requires 0 <= k < n => if i + k < |d| then d[i + k] else d[i + k - |d|])
  }

  /** The `n` cells of the ring `d` ending just before cell `e`. */
  function Before<T>(d: seq<T>, e: nat, n: nat): (r: seq<T>)
    requires e < |d| && n <= |d|
    ensures |r| == n
  {
    Slice(d, Wrap(e + |d| - n, |d|), n)
  }

  lemma SliceSplit<T>(d: seq<T>, i: nat, a: nat, b: nat)
    requires i < |d| && a + b <= |d|
    ensures Slice(d, i, a + b) == Slice(d, i, a) + Slice(d, Wrap(i + a, |d|), b)
  {
  }

  /** Moving the border between two neighbouring stretches by `n` cells. */
  lemma SliceShift<T>(d: seq<T>, i: nat, a: nat, b: nat, n: nat)
    requires i < |d| && a + b <= |d| && n <= b && a < |d|
    requires a + n < |d|
    ensures Slice(d, i, a + n) == Slice(d, i, a) + Slice(d, Wrap(i + a, |d|), b)[..n]
    ensures Slice(d, Wrap(i + (a + n), |d|), b - n) == Slice(d, Wrap(i + a, |d|), b)[n..]
  {
    var r := Slice(d, Wrap(i + a, |d|), b);
    SliceSplit(d, i, a, n);
    SliceSplit(d, Wrap(i + a, |d|), n, b - n);
    assert Slice(d, Wrap(i + a, |d|), n) == r[..n];
  }

  /** The cell that lies `back` steps before cell `e`. */
  function Back(n: nat, e: nat, back: nat): (r: nat)
    requires e < n && 1 <= back <= n
    ensures r < n
  {
    if back <= e then e - back else e - back + n
  }

  lemma BeforeAt<T>(d: seq<T>, e: nat, n: nat, back: nat)
    requires e < |d| && 1 <= back <= n <= |d|
    ensures Before(d, e, n)[n - back] == d[Back(|d|, e, back)]
  {
  }

  /** A contiguous copy of `x` to cell `e` appends `x` to whatever ended there,
      and pushes out the oldest cells once the ring is full. */
  lemma BeforeAppend<T>(d: seq<T>, d': seq<T>, e: nat, x: seq<T>, h: seq<T>)
    requires e + |x| <= |d| && e < |d|
    requires d' == d[..e] + x + d[e + |x|..]
    requires Before(d, e, Min(|h|, |d|)) == Last(h, Min(|h|, |d|))
    ensures Before(d', Wrap(e + |x|, |d|), Min(|h + x|, |d|)) == Last(h + x, Min(|h + x|, |d|))
  {
    var m := Min(|h + x|, |d|);
    var p := Before(d', Wrap(e + |x|, |d|), m);
    forall k | 0 <= k < m
      ensures p[k] == Last(h + x, m)[k]
    {
      BeforeAppendAt(d, d', e, x, h, Min(|h|, |d|), m, m - k);
    }
  }

  lemma BeforeAppendAt<T>(d: seq<T>, d': seq<T>, e: nat, x: seq<T>, h: seq<T>, was: nat, m: nat, back: nat)
    requires e + |x| <= |d| && e < |d|
    requires d' == d[..e] + x + d[e + |x|..]
    requires was <= |h| && was <= |d| && m <= |d| && m <= was + |x|
    requires Before(d, e, was) == Last(h, was)
    requires 1 <= back <= m
    ensures Before(d', Wrap(e + |x|, |d|), m)[m - back] == (h + x)[|h + x| - back]
  {
    var n := |d|;
    BeforeAt(d', Wrap(e + |x|, n), m, back);
    var cell := Back(n, Wrap(e + |x|, n), back);
    if back > |x| {
      var b := back - |x|;
      BeforeAt(d, e, was, b);
      assert Last(h, was)[was - b] == h[|h| - b];
      assert cell == Back(n, e, b);
      assert d'[cell] == d[cell];
    } else {
      assert cell == e + |x| - back;
      assert d'[cell] == x[|x| - back];
    }
  }
}
