/** Bytes at a place: concatenations, what a sequence holds where, and little-endian integers. */
module ByteSpans {
  import opened Bits

  type Bytes = seq<byte>

  // ----- What is where -----

  /** `d` holds `x` at `p`. */
  predicate At(d: Bytes, p: nat, x: Bytes) {
    p + |x| <= |d| && forall i :: 0 <= i < |x| ==> d[p + i] == x[i]
  }

  lemma AtIs(d: Bytes, p: nat, x: Bytes)
    ensures At(d, p, x) <==> p + |x| <= |d| && d[p..p + |x|] == x
  {
  }

  // The places are parameters, so that they can be given as they are needed.

  lemma AtPart(d: Bytes, p: nat, x: Bytes, from: nat, to: nat, q: nat)
    requires At(d, p, x) && from <= to <= |x| && q == p + from
    ensures At(d, q, x[from..to])
  {
    AtIs(d, p, x);
    AtIs(d, q, x[from..to]);
    var y := d[q..q + (to - from)];
    assert forall k :: 0 <= k < to - from ==> y[k] == d[p..p + |x|][from + k];
    assert y == x[from..to];
  }

  lemma AtSplit(d: Bytes, p: nat, x: Bytes, q: nat, y: Bytes)
    requires At(d, p, x + y) && q == p + |x|
    ensures At(d, p, x) && At(d, q, y)
  {
    assert (x + y)[0..|x|] == x && (x + y)[|x|..|x + y|] == y;
    AtPart(d, p, x + y, 0, |x|, p);
    AtPart(d, p, x + y, |x|, |x + y|, q);
  }

  lemma AtSplit3(d: Bytes, p: nat, a: Bytes, q: nat, b: Bytes, r: nat, c: Bytes)
    requires At(d, p, a + b + c) && q == p + |a| && r == q + |b|
    ensures At(d, p, a) && At(d, q, b) && At(d, r, c)
  {
    AtSplit(d, p, a + b, r, c);
    AtSplit(d, p, a, q, b);
  }

  lemma AtSplit5(d: Bytes, p: nat, a: Bytes, q: nat, b: Bytes, r: nat, c: Bytes, s: nat, e: Bytes, t: nat, f: Bytes)
    requires At(d, p, a + b + c + e + f) && q == p + |a| && r == q + |b| && s == r + |c| && t == s + |e|
    ensures At(d, p, a) && At(d, q, b) && At(d, r, c) && At(d, s, e) && At(d, t, f)
  {
    AtSplit3(d, p, a + b + c, s, e, t, f);
    AtSplit3(d, p, a, q, b, r, c);
  }

  lemma AtSelf(d: Bytes)
    ensures At(d, 0, d)
  {
    AtIs(d, 0, d);
  }

  /** What is in a part is in the whole. */
  lemma AtInside(d: Bytes, p: nat, x: Bytes, q: nat, y: Bytes, r: nat)
    requires At(d, p, x) && At(x, q, y) && r == p + q
    ensures At(d, r, y)
  {
    AtIs(x, q, y);
    AtPart(d, p, x, q, q + |y|, r);
  }

  // ----- Concatenations -----

  /** The first `n` parts in a row. */
  function Flat(parts: seq<Bytes>, n: nat): Bytes
    requires n <= |parts|
  {
    if n == 0 then seq(n, _ => 0) else Flat(parts, n - 1) + parts[n - 1]
  }

  lemma {:induction false} FlatAt(parts: seq<Bytes>, n: nat, i: nat, p: nat)
    requires i < n <= |parts| && p == |Flat(parts, i)|
    ensures At(Flat(parts, n), p, parts[i])
  {
    var d, before := Flat(parts, n), Flat(parts, n - 1);
    AtSelf(d);
    AtSplit(d, 0, before, |before|, parts[n - 1]);
    if i < n - 1 {
      FlatAt(parts, n - 1, i, p);
      AtInside(d, 0, before, p, parts[i], p);
    }
  }

  lemma FlatInside(d: Bytes, at: nat, parts: seq<Bytes>, i: nat, off: nat, q: nat)
    requires At(d, at, Flat(parts, |parts|)) && i < |parts| && off == |Flat(parts, i)| && q == at + off
    ensures At(d, q, parts[i])
  {
    FlatAt(parts, |parts|, i, off);
    AtInside(d, at, Flat(parts, |parts|), off, parts[i], q);
  }

  lemma FlatFive(a: Bytes, b: Bytes, c: Bytes, d: Bytes, e: Bytes)
    ensures Flat([a, b, c, d, e], 5) == a + b + c + d + e
  {
    var parts := [a, b, c, d, e];
    assert Flat(parts, 1) == [] + a == a;
    assert Flat(parts, 2) == a + b;
    assert Flat(parts, 3) == a + b + c;
    assert Flat(parts, 4) == a + b + c + d;
  }

  lemma {:induction false} FlatEven(parts: seq<Bytes>, n: nat, size: nat)
    requires n <= |parts| && forall i :: 0 <= i < |parts| ==> |parts[i]| == size
    ensures |Flat(parts, n)| == n * size
  {
    if n > 0 {
      FlatEven(parts, n - 1, size);
    }
  }

  // ----- Integers -----

  function Digit(v: int, i: nat): byte
    decreases i
  {
    if i == 0 then v % 256 else Digit(v / 256, i - 1)
  }

  /** The low `k` bytes of `v` in two's complement. */
  function LE(k: nat, v: int): (b: Bytes)
    ensures |b| == k
  {
    seq(k, i requires 0 <= i => Digit(v, i))
  }

  function FromLE(b: Bytes): nat {
    if |b| == 0 then 0 else b[0] + 256 * FromLE(b[1..])
  }

  function Pow256(k: nat): nat {
    if k == 0 then 1 else 256 * Pow256(k - 1)
  }

  lemma {:induction false} FromToLE(k: nat, v: nat)
    requires v < Pow256(k)
    ensures FromLE(LE(k, v)) == v
  {
    if k > 0 {
      FromToLE(k - 1, v / 256);
      assert LE(k, v)[1..] == LE(k - 1, v / 256);
    }
  }

  lemma {:induction false} FromLEBound(b: Bytes)
    ensures FromLE(b) < Pow256(|b|)
  {
    if |b| > 0 {
      FromLEBound(b[1..]);
    }
  }

  lemma Powers()
    ensures Pow256(4) == 0x1_0000_0000 && Pow256(8) == 0x1_0000_0000_0000_0000
  {
    assert Pow256(2) == 256 * Pow256(1) && Pow256(4) == 256 * Pow256(3) && Pow256(3) == 256 * Pow256(2);
    assert Pow256(8) == 256 * Pow256(7) && Pow256(7) == 256 * Pow256(6) && Pow256(6) == 256 * Pow256(5)
        && Pow256(5) == 256 * Pow256(4);
  }

  function ReadInt(k: nat, d: Bytes, p: nat): nat
    requires p + k <= |d|
  {
    FromLE(d[p..p + k])
  }

  lemma ReadInt4(v: nat, d: Bytes, p: nat)
    requires v < 0x1_0000_0000 && At(d, p, LE(4, v))
    ensures p + 4 <= |d| && ReadInt(4, d, p) == v
  {
    AtIs(d, p, LE(4, v));
    Powers();
    FromToLE(4, v);
  }

  lemma ReadInt8(v: nat, d: Bytes, p: nat)
    requires v < 0x1_0000_0000_0000_0000 && At(d, p, LE(8, v))
    ensures p + 8 <= |d| && ReadInt(8, d, p) == v
  {
    AtIs(d, p, LE(8, v));
    Powers();
    FromToLE(8, v);
  }
}
