/** Digit loops of parse_number: the integer loop with its overflow test, and the
    fixed-width big number of hexadecimal and binary floating constants. */
module Numbers {
  const TWO_32 := 0x1_0000_0000
  const TWO_64 := 0x1_0000_0000_0000_0000

  /** The number a digit string writes. */
  function Value(b: nat, ds: seq<nat>): nat {
    if ds == [] then 0 else b * Value(b, ds[..|ds| - 1]) + ds[|ds| - 1]
  }

  function Pow(b: nat, n: nat): (p: nat)
    ensures b > 0 ==> p > 0
  {
    if n == 0 then 1 else b * Pow(b, n - 1)
  }

  predicate Digits(b: nat, ds: seq<nat>) { forall i :: 0 <= i < |ds| ==> ds[i] < b }

  // ---- integer constants ------------------------------------------------------------

  /** Digit by place: each counts as many times the power of its distance from the end. */
  lemma {:induction false} ValueByPlace(b: nat, d: nat, ds: seq<nat>)
    ensures Value(b, [d] + ds) == d * Pow(b, |ds|) + Value(b, ds)
  {
    var n := |ds| - 1;
    if ds == [] {
      assert ([d] + ds)[..0] == [];
      assert Value(b, []) == 0 && b * 0 == 0;
    } else {
      assert ([d] + ds)[..|ds|] == [d] + ds[..n];
      ValueByPlace(b, d, ds[..n]);
      Distribute(b, d, Pow(b, n), Value(b, ds[..n]));
    }
  }

  lemma Distribute(b: nat, d: nat, p: nat, v: nat)
    ensures b * (d * p + v) == d * (b * p) + b * v
  {}

  /** The wrapped sum still divides back exactly when nothing was lost. */
  lemma OverflowTest(b: nat, n1: nat, t: nat)
    requires b in {2, 8, 10, 16} && n1 < TWO_64 && t < b
    ensures b * n1 + t < TWO_64 <==> n1 < 0x1000_0000_0000_0000 || (b * n1 + t) % TWO_64 / b == n1
  {
    var m := b * n1 + t;
    var n := m % TWO_64;
    if m < TWO_64 {
      Divides(b, n1, t);
    } else {
      assert n <= m - TWO_64;
      assert n1 >= 0x1000_0000_0000_0000;
      Below(b, n1, n);
    }
  }

  lemma Divides(b: nat, n1: nat, t: nat)
    requires b in {2, 8, 10, 16} && t < b
    ensures (b * n1 + t) / b == n1
  {}

  lemma Below(b: nat, n1: nat, n: nat)
    requires b in {2, 8, 10, 16} && n < b * n1
    ensures n / b < n1
  {}

  lemma WrapStep(b: nat, v: nat, t: nat)
    requires b in {2, 8, 10, 16}
    ensures (b * (v % TWO_64) + t) % TWO_64 == (b * v + t) % TWO_64
  {
    var q, r := v / TWO_64, v % TWO_64;
    assert v == TWO_64 * q + r;
    Times(b, q, r);
    WholeWraps(b * q, b * r + t);
  }

  lemma Times(b: nat, q: nat, r: nat)
    ensures b * (TWO_64 * q + r) == TWO_64 * (b * q) + b * r
  {}

  lemma WholeWraps(k: nat, r: nat)
    ensures (TWO_64 * k + r) % TWO_64 == r % TWO_64
  {}

  /** n * b + t in 64 bits. */
  function Next(n: nat, b: nat, t: nat): (r: nat)
    ensures r < TWO_64
  {
    (b * n + t) % TWO_64
  }

  lemma IntegerStep(b: nat, v: nat, n: nat, t: nat)
    requires b in {2, 8, 10, 16} && t < b && n == v % TWO_64
    ensures Next(n, b, t) == (b * v + t) % TWO_64
    ensures b * v + t >= v
    ensures v < TWO_64 ==> n == v && (b * v + t < TWO_64 <==> v < 0x1000_0000_0000_0000 || Next(n, b, t) / b == v)
  {
    WrapStep(b, v, t);
    Grows(b, v);
    if v < TWO_64 {
      OverflowTest(b, v, t);
    }
  }

  /** The integer loop: the overflow flag is set exactly when the written number
      does not fit in 64 bits, and the number is kept modulo 2^64 in any case. */
  method ParseInteger(base: nat, buf: seq<nat>) returns (ok: bool, n: nat, ov: bool)
    requires base in {2, 10, 16}
    ensures var b := if base == 10 && buf != [] && buf[0] == 0 then 8 else base;
            && (ok <==> Digits(b, buf))
            && (ok ==> (ov <==> Value(b, buf) >= TWO_64) && n == Value(b, buf) % TWO_64)
  {
    hide Next, Value;
    var b, q := base, 0;
    ValueNone(base);
    ValueNone(8);
    if b == 10 && buf != [] && buf[0] == 0 {
      b, q := 8, 1;
    }
    ghost var ds := buf[q..];
    var n1 := 0;
    ok, n, ov := true, 0, false;
    for i := 0 to |buf| - q
      invariant Digits(b, ds[..i]) && n == Value(b, ds[..i]) % TWO_64
      invariant ov <==> Value(b, ds[..i]) >= TWO_64
      invariant !ov ==> n1 == n
    {
      var t := buf[q + i];
      assert t == ds[i];
      if t >= b {
        ok := false;
        return;
      }
      ghost var v, w := Value(b, ds[..i]), Value(b, ds[..i + 1]);
      ValueSnoc(b, ds, i);
      DigitsSnoc(b, ds, i);
      IntegerStep(b, v, n, t);
      n := Next(n, b, t);
      assert w == b * v + t && n == w % TWO_64 && w >= v;
      if !ov {
        if n1 >= 0x1000_0000_0000_0000 && n / b != n1 {
          ov := true;
        } else {
          n1 := n;
        }
      }
    }
    assert ds[..|ds|] == ds;
    if q == 1 {
      LeadingZero(b, ds);
      assert buf == [0] + ds;
    }
  }

  lemma DigitsSnoc(b: nat, ds: seq<nat>, i: nat)
    requires i < |ds| && Digits(b, ds[..i]) && ds[i] < b
    ensures Digits(b, ds[..i + 1])
  {
    assert ds[..i + 1] == ds[..i] + [ds[i]];
  }

  lemma LeadingZero(b: nat, ds: seq<nat>)
    ensures Value(b, [0] + ds) == Value(b, ds)
  {
    ValueByPlace(b, 0, ds);
  }

  lemma ValueNone(b: nat)
    ensures Value(b, []) == 0
  {}

  lemma ValueSnoc(b: nat, ds: seq<nat>, i: nat)
    requires i < |ds|
    ensures Value(b, ds[..i + 1]) == b * Value(b, ds[..i]) + ds[i]
    ensures b > 0 ==> Value(b, ds[..i + 1]) >= Value(b, ds[..i])
  {
    assert ds[..i + 1][..i] == ds[..i];
    Grows(b, Value(b, ds[..i]));
  }

  lemma Grows(b: nat, v: nat)
    ensures b > 0 ==> b * v >= v
  {}

  // ---- hexadecimal and binary floating constants ----------------------------------------

  /** The number held by words of 32 bits, lowest first. */
  function Held(bn: seq<nat>): nat {
    if bn == [] then 0 else Held(bn[..|bn| - 1]) + Pow(TWO_32, |bn| - 1) * bn[|bn| - 1]
  }

  predicate WordsOk(bn: seq<nat>) { bn != [] && Digits(TWO_32, bn) }

  lemma PowersInUse()
    ensures Pow(2, 1) == 2 && Pow(2, 4) == 16
  {
    assert Pow(2, 0) == 1 && Pow(2, 1) == 2 && Pow(2, 2) == 4 && Pow(2, 3) == 8;
  }

  /** 2^shift, for the two shifts in use. */
  function Radix2(shift: nat): (p: nat)
    requires shift in {1, 4}
    ensures p in {2, 16} && p == Pow(2, shift)
  {
    PowersInUse();
    if shift == 1 then 2 else 16
  }

  /** The bits a shift would push out of a word: v >> (32 - shift). */
  function Out(v: nat, p: nat): nat
    requires p in {2, 16}
  {
    v / (TWO_32 / p)
  }

  /** v << shift in 32 bits, without the incoming bits. */
  function Stay(v: nat, p: nat): nat
    requires p in {2, 16}
  {
    v * p % TWO_32
  }

  lemma ShiftWord(v: nat, p: nat, carry: nat)
    requires p in {2, 16} && v < TWO_32 && carry < p
    ensures Stay(v, p) + carry < TWO_32 && Out(v, p) < p
    ensures v * p == Stay(v, p) + TWO_32 * Out(v, p)
  {
    if p == 2 {
      var q := v / 0x8000_0000;
      assert v == 0x8000_0000 * q + v % 0x8000_0000;
    } else {
      var q := v / 0x1000_0000;
      assert v == 0x1000_0000 * q + v % 0x1000_0000;
    }
  }

  lemma ShiftStep(scale: nat, was: nat, done: nat, v: nat, p: nat, carry: nat, t: nat)
    requires p in {2, 16} && v < TWO_32 && carry < p
    requires done + scale * carry == was * p + t
    ensures (done + scale * (Stay(v, p) + carry)) + TWO_32 * scale * Out(v, p) == (was + scale * v) * p + t
  {
    ShiftWord(v, p, carry);
    var lo, hi := Stay(v, p), Out(v, p);
    assert scale * (v * p) == scale * (lo + TWO_32 * hi) == scale * lo + TWO_32 * scale * hi;
    assert scale * (lo + carry) == scale * lo + scale * carry;
    assert (was + scale * v) * p == was * p + scale * (v * p);
  }

  /** bn_lshift: one more digit, or nothing when the top word would lose bits. The
      incoming bits are below 2^shift, so setting them is adding them. */
  method Shift(bn: array<nat>, shift: nat, t: nat) returns (dropped: nat)
    requires WordsOk(bn[..]) && shift in {1, 4} && t < Radix2(shift)
    modifies bn
    ensures WordsOk(bn[..])
    ensures dropped in {0, shift}
    ensures dropped == 0 ==> Held(bn[..]) == Radix2(shift) * Held(old(bn[..])) + t
    ensures dropped != 0 ==> bn[..] == old(bn[..]) && Radix2(shift) * Held(bn[..]) >= Pow(TWO_32, bn.Length)
  {
    hide Out, Stay, Pow, Held;
    var n, p := bn.Length, Radix2(shift);
    ghost var was := bn[..];
    if Out(bn[n - 1], p) != 0 {
      dropped := shift;
      TopWord(was, p);
      return;
    }
    var carry := t;
    HeldNone();
    assert was[..0] == bn[..0] == [];
    for i := 0 to n
      invariant carry < p && (i == n ==> carry == 0)
      invariant forall j :: 0 <= j < i ==> bn[j] < TWO_32
      invariant forall j :: i <= j < n ==> bn[j] == was[j]
      invariant Held(bn[..i]) + Pow(TWO_32, i) * carry == Held(was[..i]) * p + t
    {
      var v := bn[i];
      ghost var low := bn[..i];
      ShiftWord(v, p, carry);
      ShiftStep(Pow(TWO_32, i), Held(was[..i]), Held(low), v, p, carry, t);
      bn[i] := Stay(v, p) + carry;
      assert bn[..i] == low;
      HeldSnoc(bn[..], i);
      HeldSnoc(was, i);
      carry := Out(v, p);
    }
    assert bn[..n] == bn[..] && was[..n] == was;
    dropped := 0;
  }

  lemma HeldNone()
    ensures Held([]) == 0 && Pow(TWO_32, 0) == 1
  {}

  lemma HeldSnoc(bn: seq<nat>, i: nat)
    requires i < |bn|
    ensures Held(bn[..i + 1]) == Held(bn[..i]) + Pow(TWO_32, i) * bn[i]
    ensures Pow(TWO_32, i + 1) == TWO_32 * Pow(TWO_32, i)
  {
    assert bn[..i + 1][..i] == bn[..i];
  }

  /** A top word that would lose bits makes the number too big to shift. */
  lemma TopWord(bn: seq<nat>, p: nat)
    requires WordsOk(bn) && p in {2, 16} && Out(bn[|bn| - 1], p) != 0
    ensures p * Held(bn) >= Pow(TWO_32, |bn|)
  {
    var n := |bn| - 1;
    OutIsBig(bn[n], p);
    TopStep(Held(bn[..n]), Pow(TWO_32, n), bn[n], p);
  }

  lemma OutIsBig(v: nat, p: nat)
    requires p in {2, 16} && Out(v, p) != 0
    ensures v * p >= TWO_32
  {}

  lemma TopStep(h: nat, scale: nat, v: nat, p: nat)
    requires v * p >= TWO_32
    ensures p * (h + scale * v) >= TWO_32 * scale
  {
    assert p * (h + scale * v) == p * h + scale * (v * p);
    MulMono(scale, TWO_32, v * p);
  }

  /** The significand loops: integer digits, then the digits after the point. The
      number keeps a prefix of all digits, and each dropped digit moves the scale. */
  method Significand(shift: nat, ip: seq<nat>, fp: seq<nat>, size: nat)
    returns (ok: bool, bn: array<nat>, fracBits: int, ghost kept: nat)
    requires shift in {1, 4} && Digits(Pow(2, shift), ip) && size > 0
    ensures fresh(bn) && (ok <==> Digits(Pow(2, shift), fp))
    ensures ok ==> KeptPrefix(Pow(2, shift), ip + fp, bn[..], kept) && |bn[..]| == size
    ensures ok ==> fracBits == shift * (|fp| - (|ip| + |fp| - kept))
  {
    hide Pow, Held, Value;
    var p := Radix2(shift);
    ValueNone(p);
    bn := new nat[size];
    for i := 0 to size
      invariant forall j :: 0 <= j < i ==> bn[j] == 0
    {
      bn[i] := 0;
    }
    HeldZero(bn[..]);
    ghost var all := ip + fp;
    ok, fracBits, kept := true, 0, 0;
    assert all[..0] == [];
    for i := 0 to |ip|
      invariant KeptPrefix(p, all[..i], bn[..], kept) && |bn[..]| == size
      invariant fracBits == shift * (0 - (i - kept))
    {
      var dropped;
      dropped, kept := Take(bn, shift, all, i, ip[i], kept);
      fracBits := fracBits - dropped;
    }
    for i := 0 to |fp|
      invariant KeptPrefix(p, all[..|ip| + i], bn[..], kept) && |bn[..]| == size
      invariant fracBits == shift * (i - (|ip| + i - kept))
      invariant Digits(p, fp[..i])
    {
      if fp[i] >= p {
        ok := false;
        return;
      }
      var dropped;
      dropped, kept := Take(bn, shift, all, |ip| + i, fp[i], kept);
      fracBits := fracBits - dropped;
      fracBits := fracBits + shift;
    }
    assert all[..|all|] == all;
  }

  /** The words hold exactly the first digits; if any digit was left out, one more
      would not have fitted. */
  ghost predicate KeptPrefix(p: nat, ds: seq<nat>, bn: seq<nat>, kept: nat) {
    && WordsOk(bn) && kept <= |ds|
    && Held(bn) == Value(p, ds[..kept])
    && (kept < |ds| ==> p * Held(bn) >= Pow(TWO_32, |bn|))
  }

  method Take(bn: array<nat>, shift: nat, ghost all: seq<nat>, ghost i: nat, t: nat, ghost kept0: nat)
    returns (dropped: nat, ghost kept: nat)
    requires shift in {1, 4} && i < |all| && t == all[i] < Radix2(shift)
    requires KeptPrefix(Radix2(shift), all[..i], bn[..], kept0)
    modifies bn
    ensures KeptPrefix(Radix2(shift), all[..i + 1], bn[..], kept)
    ensures if dropped == 0 then kept == kept0 + 1 else dropped == shift && kept == kept0
    ensures kept0 < i ==> dropped != 0
  {
    hide Pow, Held, Value;
    ghost var was := bn[..];
    assert all[..i][..kept0] == all[..kept0] == all[..i + 1][..kept0];
    dropped := Shift(bn, shift, t);
    if dropped == 0 {
      HeldBound(bn[..]);
      kept := kept0 + 1;
      if kept0 < i {
        assert false;
      }
      ValueSnoc(Radix2(shift), all, i);
      assert all[..i + 1][..kept] == all[..i + 1];
    } else {
      kept := kept0;
    }
  }

  lemma {:induction false} HeldBound(bn: seq<nat>)
    requires Digits(TWO_32, bn)
    ensures Held(bn) < Pow(TWO_32, |bn|)
  {
    if bn != [] {
      var n := |bn| - 1;
      HeldBound(bn[..n]);
      BoundStep(Held(bn[..n]), Pow(TWO_32, n), bn[n]);
    }
  }

  lemma MulMono(a: nat, x: nat, y: nat)
    requires x <= y
    ensures a * x <= a * y
  {}

  lemma BoundStep(h: nat, scale: nat, v: nat)
    requires h < scale && v < TWO_32
    ensures h + scale * v < TWO_32 * scale
  {
    MulMono(scale, v, TWO_32 - 1);
  }

  lemma {:induction false} HeldZero(bn: seq<nat>)
    requires forall j :: 0 <= j < |bn| ==> bn[j] == 0
    ensures Held(bn) == 0
  {
    if bn != [] {
      HeldZero(bn[..|bn| - 1]);
    }
  }

  /** Truncation: the kept prefix, scaled back, is at most the written number and
      less than one unit below it. */
  lemma {:induction false} PrefixIsTruncation(p: nat, ds: seq<nat>, kept: nat)
    requires p > 0 && Digits(p, ds) && kept <= |ds|
    ensures var head, unit := Value(p, ds[..kept]), Pow(p, |ds| - kept);
            head * unit <= Value(p, ds) < (head + 1) * unit
  {
    if kept == |ds| {
      assert ds[..kept] == ds;
    } else {
      var n := |ds| - 1;
      PrefixIsTruncation(p, ds[..n], kept);
      assert ds[..n][..kept] == ds[..kept];
      TruncationStep(p, Value(p, ds[..kept]), Pow(p, n - kept), Value(p, ds[..n]), ds[n]);
    }
  }

  lemma TruncationStep(p: nat, head: nat, unit: nat, v: nat, t: nat)
    requires head * unit <= v < (head + 1) * unit && t < p
    ensures head * (p * unit) <= p * v + t < (head + 1) * (p * unit)
  {
    assert p * (head * unit) <= p * v;
    assert p * (v + 1) <= p * ((head + 1) * unit);
    assert p * (head * unit) == head * (p * unit) && p * ((head + 1) * unit) == (head + 1) * (p * unit);
    assert p * (v + 1) == p * v + p;
  }

  /** What the significand loops leave, as a statement about the written number:
      exact if every digit was kept; otherwise truncated by less than one unit of
      the number kept, which then nearly fills its words. */
  lemma SignificandIsTruncation(p: nat, ds: seq<nat>, bn: seq<nat>, kept: nat)
    requires p in {2, 16} && Digits(p, ds) && KeptPrefix(p, ds, bn, kept)
    ensures var unit := Pow(p, |ds| - kept); Held(bn) * unit <= Value(p, ds) < (Held(bn) + 1) * unit
    ensures kept == |ds| ==> Held(bn) == Value(p, ds)
    ensures kept < |ds| ==> p * Held(bn) >= Pow(TWO_32, |bn|)
    ensures Value(p, ds) < Pow(TWO_32, |bn|) ==> Held(bn) == Value(p, ds)
  {
    hide Pow, Held, Value;
    PrefixIsTruncation(p, ds, kept);
    if kept == |ds| {
      assert ds[..kept] == ds;
    } else {
      PowStep(p, |ds| - kept);
      var unit := Pow(p, |ds| - kept);
      MulMono(Held(bn), p, unit);
    }
  }

  lemma {:induction false} PowStep(p: nat, n: nat)
    requires p > 0 && n > 0
    ensures Pow(p, n) >= p
  {
    if n > 1 {
      PowStep(p, n - 1);
      assert p * Pow(p, n - 1) >= p * 1;
    }
  }
}
