/** Byte strings and the big-endian reading of them. */
module Bytes {
  type byte = x: int | 0 <= x < 256

  function Pow256(w: nat): (r: nat)
    ensures r > 0
  {
    if w == 0 then 1 else 256 * Pow256(w - 1)
  }

  lemma Pow256Grows(w: nat)
    requires w > 0
    ensures Pow256(w) >= 256
  {
    assert Pow256(w) == 256 * Pow256(w - 1);
  }

  /** The number a byte string denotes, most significant byte first. */
  function ToNat(b: seq<byte>): nat {
    if b == [] then 0 else ToNat(b[..|b| - 1]) * 256 + b[|b| - 1]
  }

  /** The low `w` bytes of `v`, most significant byte first. */
  function Fixed(v: nat, w: nat): (b: seq<byte>)
    ensures |b| == w
  {
    if w == 0 then [] else Fixed(v / 256, w - 1) + [v % 256]
  }

  /** The shortest big-endian form of `v`; the empty string for zero. */
  function Minimal(v: nat): seq<byte> {
    if v == 0 then [] else Minimal(v / 256) + [v % 256]
  }

  function Zeros(n: nat): (b: seq<byte>)
    ensures |b| == n
  {
    seq(n, i => 0)
  }

  /** Zero bytes in front up to width `w`; a longer string is left alone. */
  function LeftPad(b: seq<byte>, w: nat): seq<byte> {
    if |b| >= w then b else Zeros(w - |b|) + b
  }

  lemma {:induction false} ToNatBound(b: seq<byte>)
    ensures ToNat(b) < Pow256(|b|)
  {
    if b != [] {
      ToNatBound(b[..|b| - 1]);
    }
  }

  lemma {:induction false} ToNatFixed(v: nat, w: nat)
    requires v < Pow256(w)
    ensures ToNat(Fixed(v, w)) == v
  {
    if w > 0 {
      ToNatFixed(v / 256, w - 1);
      assert Fixed(v, w)[..w - 1] == Fixed(v / 256, w - 1);
    }
  }

  lemma {:induction false} FixedToNat(b: seq<byte>)
    ensures Fixed(ToNat(b), |b|) == b
  {
    if b != [] {
      var front := b[..|b| - 1];
      FixedToNat(front);
      assert ToNat(b) / 256 == ToNat(front) && ToNat(b) % 256 == b[|b| - 1];
      assert b == front + [b[|b| - 1]];
    }
  }

  /** The shortest form fits in `w` bytes exactly when the number is below 256^w. */
  lemma {:induction false} MinimalFits(v: nat, w: nat)
    ensures |Minimal(v)| <= w <==> v < Pow256(w)
    decreases w
  {
    if v != 0 && w > 0 {
      MinimalFits(v / 256, w - 1);
    }
  }

  lemma {:induction false} FixedZero(w: nat)
    ensures Fixed(0, w) == Zeros(w)
  {
    if w > 0 {
      FixedZero(w - 1);
      assert Zeros(w) == Zeros(w - 1) + [0];
    }
  }

  /** Padding the shortest form gives the fixed-width form whenever it fits. */
  lemma {:induction false} PadMinimal(v: nat, w: nat)
    requires v < Pow256(w)
    ensures LeftPad(Minimal(v), w) == Fixed(v, w)
    decreases w
  {
    MinimalFits(v, w);
    if v == 0 {
      FixedZero(w);
      assert Zeros(w) + [] == Zeros(w);
    } else {
      PadMinimal(v / 256, w - 1);
      MinimalFits(v / 256, w - 1);
      assert LeftPad(Minimal(v), w) == LeftPad(Minimal(v / 256), w - 1) + [v % 256];
    }
  }
}
