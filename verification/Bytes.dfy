/** Machine integers, byte strings and the few facts about slices that every other module uses. */
module Bytes {
  type u8 = x: int | 0 <= x < 0x100
  type u16 = x: int | 0 <= x < 0x1_0000
  type u32 = x: int | 0 <= x < 0x1_0000_0000

  /** A byte range whose length fits the 16-bit length fields used throughout the firmware. */
  type Span = s: seq<u8> | |s| <= 0xFFFF

  datatype Option<+T> = None | Some(value: T)

  function Min(a: int, b: int): int { if a <= b then a else b }

  function Max(a: int, b: int): int { if a >= b then a else b }

  /** The number of `unit`-sized units needed for `n` bytes. */
  function CeilDiv(n: nat, unit: nat): nat
    requires unit > 0
  {
    (n + unit - 1) / unit
  }

  /** Big-endian composition of bytes. */
  function Be16(a: u8, b: u8): u16 { a as int * 0x100 + b as int }

  function Be32(a: u8, b: u8, c: u8, d: u8): u32 {
    a as int * 0x100_0000 + b as int * 0x1_0000 + c as int * 0x100 + d as int
  }

  /** The four big-endian bytes of a 32-bit value. */
  function Bytes32(v: u32): (s: seq<u8>)
    ensures |s| == 4
  {
    [v / 0x100_0000, v / 0x1_0000 % 0x100, v / 0x100 % 0x100, v % 0x100]
  }

  /** The two big-endian bytes of a 16-bit value. */
  function Bytes16(v: u16): (s: seq<u8>)
    ensures |s| == 2
  {
    [v / 0x100, v % 0x100]
  }

  lemma Split8(q: nat, r: u8)
    ensures (q * 0x100 + r) / 0x100 == q && (q * 0x100 + r) % 0x100 == r
  {
  }

  lemma Split16(q: nat, r: u16)
    ensures (q * 0x1_0000 + r) / 0x1_0000 == q
  {
  }

  lemma Split24(q: nat, r: nat)
    requires r < 0x100_0000
    ensures (q * 0x100_0000 + r) / 0x100_0000 == q
  {
  }

  lemma Be16Inverse(v: u16)
    ensures Be16(Bytes16(v)[0], Bytes16(v)[1]) == v
  {
  }

  lemma Bytes16Inverse(a: u8, b: u8)
    ensures Bytes16(Be16(a, b)) == [a, b]
  {
    Split8(a, b);
  }

  lemma Be32Groups(a: u8, b: u8, c: u8, d: u8)
    ensures var v, ab := Be32(a, b, c, d), a * 0x100 + b;
            && v == (ab * 0x100 + c) * 0x100 + d && v == ab * 0x1_0000 + (c * 0x100 + d)
            && v == a * 0x100_0000 + (b * 0x1_0000 + c * 0x100 + d)
  {
  }

  lemma Bytes32Inverse(a: u8, b: u8, c: u8, d: u8)
    ensures Bytes32(Be32(a, b, c, d)) == [a, b, c, d]
  {
    hide Be32;
    var ab: nat := a * 0x100 + b;
    Be32Groups(a, b, c, d);
    Split8(ab * 0x100 + c, d);
    Split8(ab, c);
    Split8(a, b);
    Split16(ab, c * 0x100 + d);
    Split24(a, b * 0x1_0000 + c * 0x100 + d);
  }

  lemma Be32Inverse(v: u32)
    ensures var s := Bytes32(v); Be32(s[0], s[1], s[2], s[3]) == v
  {
    var abc, d := v / 0x100, v % 0x100;
    var ab, c := abc / 0x100, abc % 0x100;
    var a, b := ab / 0x100, ab % 0x100;
    assert v == abc * 0x100 + d && abc == ab * 0x100 + c && ab == a * 0x100 + b;
    assert v == Be32(a, b, c, d);
    Bytes32Inverse(a, b, c, d);
  }

  function Zeros(n: nat): (z: seq<u8>)
    ensures |z| == n && forall i :: 0 <= i < n ==> z[i] == 0
  {
    seq(n, i => 0)
  }

  /** `s` occurs in `d` at position `p`. */
  predicate At(d: seq<u8>, p: nat, s: seq<u8>) {
    p + |s| <= |d| && d[p..p + |s|] == s
  }

  lemma AtConcat(d: seq<u8>, p: nat, a: seq<u8>, b: seq<u8>)
    ensures At(d, p, a + b) <==> At(d, p, a) && At(d, p + |a|, b)
  {
    var n, m := |a|, |b|;
    if p + n + m <= |d| {
      var w := d[p..p + n + m];
      assert w[..n] == d[p..p + n] && w[n..] == d[p + n..p + n + m];
      if w == a + b {
        assert w[..n] == a && w[n..] == b;
      }
      if w[..n] == a && w[n..] == b {
        assert w == w[..n] + w[n..];
      }
    }
  }

  lemma AtByte(d: seq<u8>, p: nat, b: u8)
    ensures At(d, p, [b]) <==> p < |d| && d[p] == b
  {
    if p < |d| {
      assert d[p..p + 1] == [d[p]];
    }
  }

  lemma AtFits(d: seq<u8>, p: nat, s: seq<u8>)
    requires At(d, p, s)
    ensures p + |s| <= |d| && d[p..p + |s|] == s
  {
  }

  lemma SliceOfPrefix(d: seq<u8>, n: nat, from: nat, to: nat)
    requires from <= to <= n <= |d|
    ensures d[..n][from..to] == d[from..to]
    ensures to == n ==> d[..n][from..] == d[from..to]
  {
    forall i | 0 <= i < to - from ensures d[..n][from..to][i] == d[from..to][i] {
    }
  }

  lemma SliceGrows(d: seq<u8>, from: nat, mid: nat, to: nat)
    requires from <= mid <= to <= |d|
    ensures d[from..mid] + d[mid..to] == d[from..to]
  {
  }

  lemma AtSlice(d: seq<u8>, p: nat, q: nat)
    requires p <= q <= |d|
    ensures At(d, p, d[p..q])
  {
  }

  lemma AtParts(a: seq<u8>, b: seq<u8>, c: seq<u8>)
    ensures At(a + b + c, 0, a) && At(a + b + c, |a|, b)
  {
  }

  /** Copies `s` into `out` at `p`, as every emitter does. */
  method Put(out: array<u8>, p: nat, s: seq<u8>) returns (next: nat)
    requires p + |s| <= out.Length
    modifies out
    ensures next == p + |s| && out[..next] == old(out[..p]) + s
    ensures forall k :: next <= k < out.Length ==> out[k] == old(out[k])
  {
    var i := 0;
    while i < |s|
      invariant 0 <= i <= |s| && out[..p + i] == old(out[..p]) + s[..i]
      invariant forall k :: p + i <= k < out.Length ==> out[k] == old(out[k])
    {
      out[p + i] := s[i];
      i := i + 1;
    }
    next := p + |s|;
  }
}
