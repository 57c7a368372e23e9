/** The multi-word Montgomery arithmetic of avb_rsa.c: 32-bit words, 64-bit
    accumulators, word arrays updated in place. */
module Montgomery {
  import opened Words

  /** IAvbKey: the modulus and R^2 as little-endian words; `len` is |n|. */
  datatype Key = Key(n0inv: u32, n: seq<u32>, rr: seq<u32>)
  {
    ghost function Modulus(): nat { Val(n) }

    /** R, the Montgomery radix 2^(32*len). */
    ghost function Radix(): int { Weight(|n|) }

    ghost function Value(): Numbers { Numbers(n0inv, Val(n), Val(rr), |n|) }
  }

  /** The numbers a key stands for, whatever they are. */
  datatype Numbers = Numbers(n0inv: u32, n: nat, rr: nat, len: nat)
  {
    ghost function Radix(): int { Weight(len) }

    /** n0inv is -1/n mod 2^32 (so n is odd). */
    ghost predicate Inverse()
    {
      (n0inv * n + 1) % B32 == 0
    }

    /** What the key format promises: n0inv is -1/n mod 2^32 and rr is R^2 mod n. */
    ghost predicate WellFormed()
    {
      Inverse() && Cong(rr, Radix() * Radix(), n)
    }
  }

  // ------------------------------------------------------------ subM and geM

  lemma SubStep(w: int, carry: int, x: int, y: int, carry': int, low: int)
    requires carry + x - y == carry' * B32 + low
    ensures x * w - y * w + carry * w == carry' * (B32 * w) + low * w
  {
    calc {
      x * w - y * w + carry * w;
      (carry + x - y) * w;
      (carry' * B32 + low) * w;
      carry' * (B32 * w) + low * w;
    }
  }

  /** The first i words hold was - n so far; `carry` is the borrow owed by the rest. */
  ghost predicate Subtracted(was: seq<u32>, n: seq<u32>, now: seq<u32>, i: nat, carry: int)
  {
    && |was| == |n| == |now| && i <= |n|
    && (carry == 0 || carry == -1)
    && now[i..] == was[i..]
    && Val(now[..i]) + carry * Weight(i) == Val(was[..i]) - Val(n[..i])
  }

  lemma SubtractedStep(was: seq<u32>, n: seq<u32>, now: seq<u32>, i: nat, carry: int, sum: int)
    requires Subtracted(was, n, now, i, carry) && i < |n|
    requires sum == carry + was[i] - n[i]
    ensures Subtracted(was, n, now[i := sum % B32], i + 1, sum / B32)
  {
    var now' := now[i := sum % B32];
    SubStep(Weight(i), carry, was[i], n[i], sum / B32, sum % B32);
    ValStep(was, i);
    ValStep(n, i);
    ValStep(now', i);
    assert now'[..i] == now[..i];
    assert now'[i + 1..] == now[i..][1..] == was[i..][1..] == was[i + 1..];
  }

  lemma BorrowOut(x: int, y: int, z: int, w: int, carry: int)
    requires 0 <= z < w
    requires carry == 0 || carry == -1
    requires z + carry * w == x - y
    requires 0 <= x < w && 0 <= y
    ensures z == x - y + (if x >= y then 0 else w)
  {
  }

  lemma SubtractedDone(was: seq<u32>, n: seq<u32>, now: seq<u32>, carry: int)
    requires Subtracted(was, n, now, |n|, carry)
    ensures Val(now) == Val(was) - Val(n) + (if Val(was) >= Val(n) then 0 else Weight(|n|))
  {
    hide Val, Weight;
    assert now[..|n|] == now && was[..|n|] == was && n[..|n|] == n;
    BorrowOut(Val(was), Val(n), Val(now), Weight(|n|), carry);
  }

  /** Subtracts the modulus, modulo R: the borrow out of the top word is dropped. */
  method SubM(key: Key, a: array<u32>)
    requires a.Length == |key.n|
    modifies a
    ensures var x := old(Val(a[..]));
            Val(a[..]) == if x >= key.Modulus() then x - key.Modulus() else x - key.Modulus() + key.Radix()
  {
    ghost var was := a[..];
    var A: i64 := 0;
    var i := 0;
    while i < |key.n|
      invariant 0 <= i <= |key.n|
      invariant Subtracted(was, key.n, a[..], i, A)
    {
      assert a[i] == a[..][i..][0] == was[i];
      // Computed modulo 2^64 (the operands are unsigned), then read back as int64_t.
      var sum := ToI64(A + a[i] - key.n[i]);
      SubtractedStep(was, key.n, a[..], i, A, sum);
      a[i] := sum % B32;
      A := sum / B32;
      i := i + 1;
    }
    SubtractedDone(was, key.n, a[..], A);
  }

  /** Compares with the modulus, most significant word first. */
  method GeM(key: Key, a: array<u32>) returns (ge: bool)
    requires a.Length == |key.n|
    ensures ge <==> Val(a[..]) >= key.Modulus()
  {
    var i := |key.n|;
    while i != 0
      invariant 0 <= i <= |key.n|
      invariant a[i..] == key.n[i..]
    {
      i := i - 1;
      assert forall j :: i < j < a.Length ==> a[j] == a[i + 1..][j - i - 1] == key.n[j];
      if a[i] < key.n[i] {
        ValOrder(a[..], key.n, i);
        return false;
      }
      if a[i] > key.n[i] {
        ValOrder(key.n, a[..], i);
        return true;
      }
      assert a[i..] == [a[i]] + a[i + 1..] == key.n[i..];
    }
    assert a[..] == key.n;
    return true;
  }

  // ------------------------------------------------------------ montMulAdd

  /** Neither accumulator can wrap: a product of two words plus two words fits 64 bits. */
  lemma MulAddFits(x: u32, y: u32, c: int, d: int)
    requires 0 <= c < B32 && 0 <= d < B32
    ensures 0 <= x * y + c + d < B64
  {
    MulMonotone(x, B32 - 1, y);
    MulMonotone(0, x, y);
    MulMonotone(y, B32 - 1, B32 - 1);
  }

  /** The multiple of the modulus that a pass adds. */
  ghost function Multiple(k: Numbers, t: int): (d: u32)
  {
    t % B32 * k.n0inv % B32
  }

  /** One pass of Montgomery multiplication on numbers, whatever the key: a multiple of the modulus
      is added, the low word dropped, and the modulus subtracted once if the sum overflows R. */
  ghost function Pass(k: Numbers, a: int, b: int, c: int): int
  {
    var t := a * b + c;
    var y := (t + Multiple(k, t) * k.n) / B32;
    if y < k.Radix() then y else y - k.n
  }

  /** After index i - 1: the words below i of a*b + c + d0*n, but for the lowest, r0, are in
      now[..i - 1]; the two accumulators carry the rest. */
  ghost predicate Accumulated(a: u32, b: seq<u32>, c: seq<u32>, d0: u32, n: seq<u32>, r0: u32,
                              now: seq<u32>, i: nat, hiA: int, hiB: int)
  {
    && |b| == |c| == |n| == |now| && 1 <= i <= |n|
    && 0 <= hiA < B32 && 0 <= hiB < B32
    && now[i..] == c[i..]
    && a * Val(b[..i]) + Val(c[..i]) + d0 * Val(n[..i]) == r0 + B32 * Val(now[..i - 1]) + (hiA + hiB) * Weight(i)
  }

  lemma AccumulatedInit(a: u32, b: seq<u32>, c: seq<u32>, d0: u32, n: seq<u32>, A: int, B: int)
    requires |b| == |c| == |n| && |n| > 0
    requires A == a * b[0] + c[0] && 0 <= A < B64
    requires B == d0 * n[0] + A % B32 && 0 <= B < B64
    ensures Accumulated(a, b, c, d0, n, B % B32, c, 1, A / B32, B / B32)
  {
    ValStep(b, 0);
    ValStep(c, 0);
    ValStep(n, 0);
    assert Weight(0) == 1 && Weight(1) == B32;
  }

  lemma AccumulateColumn(w: int, hiA: int, hiB: int, ab: int, c: int, dn: int, A: int, B: int)
    requires A == hiA + ab + c
    requires B == hiB + dn + A % B32
    ensures (hiA + hiB) * w + ab * w + c * w + dn * w
         == (B % B32) * w + (A / B32 + B / B32) * (B32 * w)
  {
    calc {
      (hiA + hiB) * w + ab * w + c * w + dn * w;
      (hiA + hiB + ab + c + dn) * w;
      (B % B32 + (A / B32 + B / B32) * B32) * w;
      (B % B32) * w + (A / B32 + B / B32) * (B32 * w);
    }
  }

  lemma AccumulatedStep(a: u32, b: seq<u32>, c: seq<u32>, d0: u32, n: seq<u32>, r0: u32,
                        now: seq<u32>, i: nat, hiA: int, hiB: int, A: int, B: int)
    requires Accumulated(a, b, c, d0, n, r0, now, i, hiA, hiB) && i < |n|
    requires A == hiA + a * b[i] + c[i] && 0 <= A < B64
    requires B == hiB + d0 * n[i] + A % B32 && 0 <= B < B64
    ensures Accumulated(a, b, c, d0, n, r0, now[i - 1 := B % B32], i + 1, A / B32, B / B32)
  {
    var w := Weight(i);
    var now' := now[i - 1 := B % B32];
    assert Weight(i + 1) == B32 * w;
    hide Val, Weight;
    ValStep(b, i);
    ValStep(c, i);
    ValStep(n, i);
    ValStep(now', i - 1);
    NextWord(now, c, i, B % B32);
    ShiftedDigit(B % B32, i);
    ColumnSum(a, Val(b[..i]), b[i], Val(c[..i]), c[i], d0, Val(n[..i]), n[i], w, r0 + B32 * Val(now[..i - 1]), hiA, hiB, A, B);
  }

  lemma NextWord(now: seq<u32>, c: seq<u32>, i: nat, digit: u32)
    requires |now| == |c| && 0 < i < |now| && now[i..] == c[i..]
    ensures var now' := now[i - 1 := digit];
            now'[..i - 1] == now[..i - 1] && now'[i + 1..] == c[i + 1..] && now'[..i] == now[..i - 1] + [digit]
  {
    assert now[i - 1 := digit][i + 1..] == now[i..][1..] == c[i..][1..] == c[i + 1..];
  }

  lemma ColumnSum(a: int, vb: int, b: int, vc: int, c: int, d0: int, vn: int, n: int, w: int, low: int,
                  hiA: int, hiB: int, A: int, B: int)
    requires a * vb + vc + d0 * vn == low + (hiA + hiB) * w
    requires A == hiA + a * b + c && B == hiB + d0 * n + A % B32
    ensures a * (vb + b * w) + (vc + c * w) + d0 * (vn + n * w)
         == low + (B % B32) * w + (A / B32 + B / B32) * (B32 * w)
  {
    AccumulateColumn(w, hiA, hiB, a * b, c, d0 * n, A, B);
    Distribute(a, vb, b, w);
    Distribute(d0, vn, n, w);
  }

  lemma Untouched(a: u32, b: seq<u32>, c: seq<u32>, d0: u32, n: seq<u32>, r0: u32, now: seq<u32>, i: nat, hiA: int, hiB: int)
    requires Accumulated(a, b, c, d0, n, r0, now, i, hiA, hiB) && i < |n|
    ensures now[i] == c[i] && 0 <= hiA < B32 && 0 <= hiB < B32
  {
    assert now[i] == now[i..][0] == c[i..][0];
  }

  lemma ShiftedDigit(digit: int, i: nat)
    requires i > 0
    ensures B32 * (digit * Weight(i - 1)) == digit * Weight(i)
  {
    assert Weight(i) == B32 * Weight(i - 1);
  }

  lemma Distribute(x: int, low: int, digit: int, w: int)
    ensures x * (low + digit * w) == x * low + (x * digit) * w
  {
  }

  lemma TopWord(low: int, A: int, w: int)
    ensures B32 * (low + (A % B32) * w + (A / B32) * (B32 * w)) == B32 * low + A * (B32 * w)
  {
    calc {
      (A % B32) * w + (A / B32) * (B32 * w);
      (A % B32 + (A / B32) * B32) * w;
      A * w;
    }
  }

  /** The top word takes the sum of both carries; what is left over is 0 or 1. */
  lemma AccumulatedDone(a: u32, b: seq<u32>, c: seq<u32>, d0: u32, n: seq<u32>, r0: u32,
                        now: seq<u32>, hiA: int, hiB: int)
    requires Accumulated(a, b, c, d0, n, r0, now, |n|, hiA, hiB)
    ensures var now' := now[|n| - 1 := (hiA + hiB) % B32];
            var top := (hiA + hiB) / B32;
            && (top == 0 || top == 1)
            && a * Val(b) + Val(c) + d0 * Val(n) == r0 + B32 * (Val(now') + top * Weight(|n|))
  {
    var len := |n|;
    var now' := now[len - 1 := (hiA + hiB) % B32];
    assert Weight(len) == B32 * Weight(len - 1);
    hide Val, Weight;
    assert b[..len] == b && c[..len] == c && n[..len] == n;
    ValLast(now');
    assert now'[..len - 1] == now[..len - 1];
    TopWord(Val(now[..len - 1]), hiA + hiB, Weight(len - 1));
  }

  /** Before the conditional subtraction the pass is below R + n. */
  lemma PassBound(a: int, b: int, c: int, d0: int, n: int, R: int, y: int)
    requires 0 <= a < B32 && 0 <= b < R && 0 <= c < R && 0 <= d0 < B32 && 0 <= n
    requires B32 * y <= a * b + c + d0 * n
    ensures y < R + n
  {
    MulMonotone(a, B32 - 1, b);
    MulMonotone(b, R - 1, B32 - 1);
    MulMonotone(d0, B32 - 1, n);
  }

  lemma PassDone(k: Numbers, a: int, b: int, c: int, r0: u32, x: int, top: int, x': int)
    requires 0 <= a < B32 && 0 <= b < k.Radix() && 0 <= c < k.Radix() && k.n < k.Radix() && 0 <= x < k.Radix()
    requires top == 0 || top == 1
    requires a * b + c + Multiple(k, a * b + c) * k.n == r0 + B32 * (x + top * k.Radix())
    requires x' == if top == 0 then x else if x >= k.n then x - k.n else x - k.n + k.Radix()
    ensures x' == Pass(k, a, b, c)
  {
    hide Multiple;
    PassBound(a, b, c, Multiple(k, a * b + c), k.n, k.Radix(), x + top * k.Radix());
    DropLow(r0, x + top * k.Radix());
  }

  lemma DropLow(low: u32, y: int)
    ensures (low + B32 * y) / B32 == y
  {
  }

  /** The low word of a*b + c is that of a*b[0] + c[0]. */
  lemma LowWord(a: int, b: seq<u32>, c: seq<u32>)
    requires |b| > 0 && |c| > 0
    ensures (a * Val(b) + Val(c)) % B32 == (a * b[0] + c[0]) % B32
  {
    hide Val;
    var h := ValLowWord(b);
    var l := ValLowWord(c);
    LowSum(a, b[0], h, c[0], l);
  }

  lemma LowSum(a: int, b: int, h: int, c: int, l: int)
    ensures (a * (b + h * B32) + (c + l * B32)) % B32 == (a * b + c) % B32
  {
    Distribute(a, b, h, B32);
    SameLow(a * b + c, a * h + l);
    assert a * (b + h * B32) + (c + l * B32) == a * b + c + (a * h + l) * B32;
  }

  lemma SameLow(x: int, h: int)
    ensures (x + h * B32) % B32 == x % B32
  {
  }

  /** montMulAdd, for one word of the multiplier: the word array holds the pass, for every key. */
  method MontMulAdd(key: Key, c: array<u32>, a: u32, b: seq<u32>)
    requires |key.n| > 0
    requires c.Length == |b| == |key.n|
    modifies c
    ensures Val(c[..]) == Pass(key.Value(), a, Val(b), old(Val(c[..])))
  {
    hide Pass, Val, Weight, Accumulated;
    ghost var was := c[..];
    MulAddFits(a, b[0], c[0], 0);
    var A: u64 := a * b[0] + c[0];
    var d0: u32 := (A % B32) * key.n0inv % B32;
    LowWord(a, b, was);
    MulAddFits(d0, key.n[0], A % B32, 0);
    var B: u64 := d0 * key.n[0] + A % B32;
    ghost var r0 := B % B32;
    AccumulatedInit(a, b, was, d0, key.n, A, B);
    var i := 1;
    while i < |key.n|
      invariant 1 <= i <= |key.n|
      invariant Accumulated(a, b, was, d0, key.n, r0, c[..], i, A / B32, B / B32)
    {
      Untouched(a, b, was, d0, key.n, r0, c[..], i, A / B32, B / B32);
      MulAddFits(a, b[i], A / B32, c[i]);
      var A': u64 := A / B32 + a * b[i] + c[i];
      MulAddFits(d0, key.n[i], B / B32, A' % B32);
      var B': u64 := B / B32 + d0 * key.n[i] + A' % B32;
      AccumulatedStep(a, b, was, d0, key.n, r0, c[..], i, A / B32, B / B32, A', B');
      A, B := A', B';
      c[i - 1] := B % B32;
      i := i + 1;
    }
    AccumulatedDone(a, b, was, d0, key.n, r0, c[..], A / B32, B / B32);
    A := A / B32 + B / B32;
    c[i - 1] := A % B32;
    ghost var x, top := Val(c[..]), A / B32;
    if A / B32 != 0 {
      SubM(key, c);
    }
    PassDone(key.Value(), a, Val(b), Val(was), r0, x, top, Val(c[..]));
  }

  /** The multiple is chosen so that adding it clears the low word. */
  lemma LowWordCancels(k: Numbers, t: int)
    requires k.Inverse()
    ensures (t + Multiple(k, t) * k.n) % B32 == 0
  {
    var u, low := (k.n0inv * k.n + 1) / B32, t % B32;
    var q := low * k.n0inv / B32;
    calc {
      t + Multiple(k, t) * k.n;
      t + (low * k.n0inv - q * B32) * k.n;
      t - low + low * (k.n0inv * k.n + 1) - q * B32 * k.n;
      t / B32 * B32 + low * (u * B32) - q * B32 * k.n;
      (t / B32 + low * u - q * k.n) * B32;
    }
  }

  /** For a documented key the pass is exactly (a*b + c + e*n) / 2^32. The bound on e keeps the
      result small over all passes. */
  lemma PassEquation(k: Numbers, a: int, b: int, c: int) returns (e: int)
    requires k.Inverse()
    ensures e < B32 && B32 * Pass(k, a, b, c) == a * b + c + e * k.n
  {
    var t := a * b + c;
    var d0 := Multiple(k, t);
    LowWordCancels(k, t);
    hide Multiple;
    var y := (t + d0 * k.n) / B32;
    assert B32 * y == t + d0 * k.n;
    e := if y < k.Radix() then d0 else d0 - B32;
    assert (d0 - B32) * k.n == d0 * k.n - B32 * k.n;
  }

  lemma PassRange(k: Numbers, a: int, b: int, c: int)
    requires 0 <= a < B32 && 0 <= b < k.Radix() && 0 <= c < k.Radix() && k.n < k.Radix()
    ensures 0 <= Pass(k, a, b, c) < k.Radix()
  {
    var t := a * b + c;
    MulMonotone(0, a, b);
    hide Multiple;
    MulMonotone(0, Multiple(k, t), k.n);
    PassBound(a, b, c, Multiple(k, t), k.n, k.Radix(), (t + Multiple(k, t) * k.n) / B32);
  }

  // ---------------------------------------------------- montMul and modpowF4

  lemma {:induction false} ValZero(s: seq<u32>)
    requires forall i :: 0 <= i < |s| ==> s[i] == 0
    ensures Val(s) == 0
  {
    if |s| > 0 {
      ValLast(s);
      ValZero(s[..|s| - 1]);
    }
  }

  /** Word i of a number. */
  ghost function Digit(v: int, i: nat): u32
  {
    v / Weight(i) % B32
  }

  lemma {:induction false} ValSplit(s: seq<u32>, i: nat) returns (h: int)
    requires i < |s|
    ensures Val(s) == Val(s[..i]) + (s[i] + h * B32) * Weight(i)
  {
    ValLast(s);
    var k := |s| - 1;
    if i == k {
      h := 0;
    } else {
      var h' := ValSplit(s[..k], i);
      assert s[..k][..i] == s[..i];
      var g := WeightAbove(i, k);
      h := h' + s[k] * g;
      AboveDigit(s[i], h', s[k], g, Weight(i));
    }
  }

  lemma AboveDigit(digit: int, h: int, top: int, g: int, w: int)
    ensures (digit + h * B32) * w + top * (g * (B32 * w)) == (digit + (h + top * g) * B32) * w
  {
  }

  lemma {:induction false} WeightAbove(i: nat, k: nat) returns (g: int)
    requires i < k
    ensures Weight(k) == g * (B32 * Weight(i))
    decreases k
  {
    if i + 1 == k {
      g := 1;
    } else {
      var g' := WeightAbove(i, k - 1);
      g := B32 * g';
      MoveFactor(g', B32 * Weight(i));
    }
  }

  lemma MoveFactor(g: int, w: int)
    ensures B32 * (g * w) == (B32 * g) * w
  {
  }

  lemma DigitOfVal(s: seq<u32>, i: nat)
    requires i < |s|
    ensures Digit(Val(s), i) == s[i]
  {
    hide Val, Weight;
    var h := ValSplit(s, i);
    QuotientIs(Val(s), s[i] + h * B32, Weight(i), Val(s[..i]));
    SameLow(s[i], h);
  }

  lemma QuotientIs(v: int, q: int, w: int, r: int)
    requires v == r + q * w && 0 <= r < w
    ensures v / w == q && v % w == r
  {
    var q', r' := v / w, v % w;
    assert v == q' * w + r';
    assert (q - q') * w == r' - r;
    if q - q' >= 1 {
      MulMonotone(1, q - q', w);
    } else if q - q' <= -1 {
      MulMonotone(q - q', -1, w);
    }
  }

  /** The result of the first i passes of multiplying a and b. */
  ghost function Passes(k: Numbers, a: int, b: int, i: nat): int
  {
    if i == 0 then 0 else Pass(k, Digit(a, i - 1), b, Passes(k, a, b, i - 1))
  }

  /** Montgomery multiplication on numbers. */
  ghost function Mont(k: Numbers, a: int, b: int): int
  {
    Passes(k, a, b, k.len)
  }

  /** montMul: the word array holds the Montgomery product, for every key. */
  method MontMul(key: Key, c: array<u32>, a: seq<u32>, b: seq<u32>)
    requires |key.n| > 0
    requires c.Length == |a| == |b| == |key.n|
    modifies c
    ensures Val(c[..]) == Mont(key.Value(), Val(a), Val(b))
  {
    hide Pass;
    var i := 0;
    while i < |key.n|
      invariant 0 <= i <= |key.n|
      invariant forall j :: 0 <= j < i ==> c[j] == 0
    {
      c[i] := 0;
      i := i + 1;
    }
    ValZero(c[..]);
    i := 0;
    while i < |key.n|
      invariant 0 <= i <= |key.n|
      invariant Val(c[..]) == Passes(key.Value(), Val(a), Val(b), i)
    {
      DigitOfVal(a, i);
      MontMulAdd(key, c, a[i], b);
      i := i + 1;
    }
  }

  lemma {:induction false} PassesRange(k: Numbers, a: int, b: int, i: nat)
    requires 0 <= b < k.Radix() && k.n < k.Radix()
    ensures 0 <= Passes(k, a, b, i) < k.Radix()
  {
    hide Pass;
    if i > 0 {
      PassesRange(k, a, b, i - 1);
      PassRange(k, Digit(a, i - 1), b, Passes(k, a, b, i - 1));
    }
  }

  lemma PassStep(w: int, x: int, x': int, low: int, digit: int, b: int, n: int, q: int, e: int)
    requires w > 0
    requires x * w == low * b + q * n && q < w
    requires B32 * x' == digit * b + x + e * n && e < B32
    ensures x' * (B32 * w) == (low + digit * w) * b + (q + e * w) * n
    ensures q + e * w < B32 * w
  {
    calc {
      x' * (B32 * w);
      (B32 * x') * w;
      (digit * b + x + e * n) * w;
      digit * b * w + x * w + e * n * w;
      (low + digit * w) * b + (q + e * w) * n;
    }
    MulMonotone(e, B32 - 1, w);
  }

  /** One more digit. */
  lemma LowDigits(a: int, i: nat)
    ensures a % Weight(i + 1) == a % Weight(i) + Digit(a, i) * Weight(i)
  {
    var w := Weight(i);
    var q, r := a / w, a % w;
    var h, d := q / B32, q % B32;
    assert a == q * w + r && q == h * B32 + d;
    assert Weight(i + 1) == B32 * w;
    calc {
      a;
      (h * B32 + d) * w + r;
      (d * w + r) + h * (B32 * w);
    }
    MulMonotone(d, B32 - 1, w);
    MulMonotone(0, d, w);
    QuotientIs(a, h, B32 * w, d * w + r);
  }

  lemma {:induction false} PassesEquation(k: Numbers, a: int, b: int, i: nat) returns (q: int)
    requires k.Inverse()
    ensures Passes(k, a, b, i) * Weight(i) == (a % Weight(i)) * b + q * k.n && q < Weight(i)
  {
    hide Pass, Digit;
    if i == 0 {
      q := 0;
      assert Weight(0) == 1 && a % 1 == 0;
    } else {
      var q' := PassesEquation(k, a, b, i - 1);
      var e := PassEquation(k, Digit(a, i - 1), b, Passes(k, a, b, i - 1));
      LowDigits(a, i - 1);
      PassStep(Weight(i - 1), Passes(k, a, b, i - 1), Passes(k, a, b, i), a % Weight(i - 1), Digit(a, i - 1), b, k.n, q', e);
      q := q' + e * Weight(i - 1);
    }
  }

  /** A full Montgomery multiplication with a documented key. The result is below R, not
      necessarily below the modulus; q < R bounds it by a*b/R + n. */
  lemma MontEquation(k: Numbers, a: int, b: int) returns (q: int)
    requires k.Inverse() && 0 <= a < k.Radix()
    ensures Mont(k, a, b) * k.Radix() == a * b + q * k.n && q < k.Radix()
  {
    hide Passes;
    q := PassesEquation(k, a, b, k.len);
    SmallRemainder(a, k.Radix());
  }

  lemma SmallRemainder(a: int, w: int)
    requires 0 <= a < w
    ensures a % w == a
  {
  }

  lemma HigherDigit(v: int, low: int, h: int, digit: int, w: int)
    requires v == low + h * B32
    ensures v + digit * (B32 * w) == low + (h + digit * w) * B32
  {
  }

  /** A word array is congruent to its low word. */
  lemma {:induction false} ValLowWord(s: seq<u32>) returns (h: int)
    requires |s| > 0
    ensures Val(s) == s[0] + h * B32
  {
    ValLast(s);
    var k := |s| - 1;
    if k == 0 {
      h := 0;
    } else {
      var h' := ValLowWord(s[..k]);
      HigherDigit(Val(s[..k]), s[0], h', s[k], Weight(k - 1));
      h := h' + s[k] * Weight(k - 1);
    }
  }

  /** The inverse of the low word is the inverse of the modulus. */
  lemma InverseOfLowWord(key: Key)
    requires |key.n| > 0
    ensures (key.n0inv * key.n[0] + 1) % B32 == 0 <==> key.Value().Inverse()
  {
    hide Val, Weight;
    var h := ValLowWord(key.n);
    Distribute(key.n0inv, key.n[0], h, B32);
    SameLow(key.n0inv * key.n[0] + 1, key.n0inv * h);
  }

  /** 2^32 has an inverse modulo n, hence so has R. */
  lemma WordInvertible(k: Numbers) returns (u: int)
    requires k.Inverse()
    ensures Cong(u * B32, 1, k.n)
  {
    u := (k.n0inv * k.n + 1) / B32;
    CongIntro(u * B32, 1, k.n, k.n0inv);
  }

  lemma {:induction false} WeightInvertible(n: int, u: int, k: nat) returns (v: int)
    requires Cong(u * B32, 1, n)
    ensures Cong(v * Weight(k), 1, n)
  {
    if k == 0 {
      v := 1;
      CongRefl(1, n);
    } else {
      var v' := WeightInvertible(n, u, k - 1);
      v := v' * u;
      var w := Weight(k - 1);
      CongMul(v' * w, 1, u * B32, 1, n);
      FourFactors(v', u, w);
    }
  }

  lemma FourFactors(v: int, u: int, w: int)
    ensures v * u * (B32 * w) == (v * w) * (u * B32)
  {
  }

  /** R may be cancelled modulo n. */
  lemma CancelRadix(k: Numbers, x: int, y: int)
    requires k.Inverse()
    requires Cong(x * k.Radix(), y * k.Radix(), k.n)
    ensures Cong(x, y, k.n)
  {
    hide Cong, Weight;
    var u := WordInvertible(k);
    var v := WeightInvertible(k.n, u, k.len);
    Cancelled(x, v, k.Radix(), k.n);
    Cancelled(y, v, k.Radix(), k.n);
    CongRefl(v, k.n);
    CongMul(x * k.Radix(), y * k.Radix(), v, v, k.n);
    CongSym(x * k.Radix() * v, x, k.n);
    CongTrans(x, x * k.Radix() * v, y * k.Radix() * v, k.n);
    CongTrans(x, y * k.Radix() * v, y, k.n);
  }

  lemma Cancelled(x: int, v: int, R: int, n: int)
    requires Cong(v * R, 1, n)
    ensures Cong(x * R * v, x, n)
  {
    CongRefl(x, n);
    CongMul(x, x, v * R, 1, n);
    assert x * (v * R) == x * R * v;
  }

  /** Whatever the product of the operands is R times, the result is. */
  lemma MontReduces(k: Numbers, a: int, b: int, z: int)
    requires k.Inverse() && 0 <= a < k.Radix() && Cong(a * b, z * k.Radix(), k.n)
    ensures Cong(Mont(k, a, b), z, k.n)
  {
    hide Mont, Cong;
    var q := MontEquation(k, a, b);
    var c, R := Mont(k, a, b), k.Radix();
    CongIntro(c * R, a * b, k.n, q);
    CongTrans(c * R, a * b, z * R, k.n);
    CancelRadix(k, c, z);
  }

  /** Montgomery multiplication is multiplication of the represented residues. */
  lemma MontProduct(k: Numbers, a: int, b: int, x: int, y: int)
    requires k.Inverse() && 0 <= a < k.Radix()
    requires Cong(a, x * k.Radix(), k.n)
    requires Cong(b, y, k.n)
    ensures Cong(Mont(k, a, b), x * y, k.n)
  {
    hide Mont, Cong;
    var R := k.Radix();
    CongMul(a, x * R, b, y, k.n);
    assert x * R * y == (x * y) * R;
    MontReduces(k, a, b, x * y);
  }

  lemma {:induction false} ByteWeight(i: nat)
    ensures Pow(B8, 4 * i) == Weight(i)
  {
    if i > 0 {
      ByteWeight(i - 1);
      var k := 4 * i - 4;
      assert Pow(B8, k + 1) == B8 * Pow(B8, k);
      assert Pow(B8, k + 2) == B8 * Pow(B8, k + 1);
      assert Pow(B8, k + 3) == B8 * Pow(B8, k + 2);
      assert Pow(B8, k + 4) == B8 * Pow(B8, k + 3);
    }
  }

  /** Four big-endian bytes make a word. */
  function Word(b0: byte, b1: byte, b2: byte, b3: byte): u32
  {
    b0 * 0x100_0000 + b1 * 0x1_0000 + b2 * 0x100 + b3
  }

  lemma BigEndianWord(s: seq<byte>)
    requires |s| == 4
    ensures BigEndian(s) == Word(s[0], s[1], s[2], s[3])
  {
    assert s[..3][..2][..1][..0] == [];
    assert s[..3][..2] == s[..2] && s[..2][..1] == s[..1];
    assert BigEndian(s[..1]) == s[0];
    assert BigEndian(s[..2]) == BigEndian(s[..1]) * B8 + s[1];
    assert BigEndian(s[..3]) == BigEndian(s[..2]) * B8 + s[2];
  }

  lemma ReadWord(bytes: seq<byte>, words: seq<u32>, k: nat, i: nat)
    requires k + 4 <= |bytes| && |bytes| - k - 4 == 4 * i && i < |words|
    requires words[i] == Word(bytes[k], bytes[k + 1], bytes[k + 2], bytes[k + 3])
    requires Val(words[..i]) == BigEndian(bytes[k + 4..])
    ensures Val(words[..i + 1]) == BigEndian(bytes[k..])
  {
    assert bytes[k..] == bytes[k..k + 4] + bytes[k + 4..];
    BigEndianConcat(bytes[k..k + 4], bytes[k + 4..]);
    BigEndianWord(bytes[k..k + 4]);
    ByteWeight(i);
    ValStep(words, i);
  }

  lemma AppendWord(bytes: seq<byte>, p: nat)
    requires p + 4 <= |bytes|
    ensures BigEndian(bytes[..p + 4])
         == BigEndian(bytes[..p]) * B32 + Word(bytes[p], bytes[p + 1], bytes[p + 2], bytes[p + 3])
  {
    assert bytes[..p + 4] == bytes[..p] + bytes[p..p + 4];
    BigEndianConcat(bytes[..p], bytes[p..p + 4]);
    BigEndianWord(bytes[p..p + 4]);
    ByteWeight(1);
    assert Weight(1) == B32;
  }

  lemma AppendDigit(h: int, digit: int, w: int)
    ensures (h * B32 + digit) * w == h * (B32 * w) + digit * w
  {
  }

  lemma WordSplit(w: u32)
    ensures Word(w / 0x100_0000, w / 0x1_0000 % 0x100, w / 0x100 % 0x100, w % 0x100) == w
  {
    assert w / 0x1_0000 == w / 0x100 / 0x100;
    assert w / 0x100_0000 == w / 0x1_0000 / 0x100;
  }

  lemma WrittenWord(now: seq<byte>, p: nat, words: seq<u32>, i: nat, was: seq<byte>)
    requires i < |words| && p + 4 <= |now| == |was|
    requires now[..p] == was[..p]
    requires words[i] == Word(now[p], now[p + 1], now[p + 2], now[p + 3])
    requires Val(words) == Val(words[..i + 1]) + BigEndian(was[..p]) * Weight(i + 1)
    ensures Val(words) == Val(words[..i]) + BigEndian(now[..p + 4]) * Weight(i)
  {
    AppendWord(now, p);
    ValStep(words, i);
    AppendDigit(BigEndian(now[..p]), words[i], Weight(i));
    assert Weight(i + 1) == B32 * Weight(i);
  }

  /** Big-endian bytes to little-endian words. */
  method WordsFromBytes(bytes: seq<byte>, a: array<u32>)
    requires |bytes| == 4 * a.Length
    modifies a
    ensures Val(a[..]) == BigEndian(bytes)
  {
    var i := 0;
    assert bytes[4 * a.Length..] == [];
    while i < a.Length
      invariant 0 <= i <= a.Length
      invariant Val(a[..i]) == BigEndian(bytes[4 * (a.Length - i)..])
    {
      var k := (a.Length - 1 - i) * 4;
      ghost var before := a[..i];
      a[i] := Word(bytes[k], bytes[k + 1], bytes[k + 2], bytes[k + 3]);
      assert a[..][..i] == before && a[..][..i + 1] == a[..i + 1];
      ReadWord(bytes, a[..], k, i);
      i := i + 1;
    }
    assert a[..i] == a[..] && bytes[0..] == bytes;
  }

  /** Little-endian words back to big-endian bytes. */
  method BytesFromWords(words: seq<u32>, inout: array<byte>)
    requires inout.Length == 4 * |words|
    modifies inout
    ensures BigEndian(inout[..]) == Val(words)
  {
    var i := |words| - 1;
    var p := 0;
    assert words[..i + 1] == words && inout[..][..0] == [];
    while i >= 0
      invariant -1 <= i < |words| && p == 4 * (|words| - 1 - i)
      invariant Val(words) == Val(words[..i + 1]) + BigEndian(inout[..][..p]) * Weight(i + 1)
    {
      var tmp := words[i];
      ghost var was := inout[..];
      inout[p] := tmp / 0x100_0000;
      inout[p + 1] := tmp / 0x1_0000 % 0x100;
      inout[p + 2] := tmp / 0x100 % 0x100;
      inout[p + 3] := tmp % 0x100;
      WordSplit(tmp);
      WrittenWord(inout[..], p, words, i, was);
      i, p := i - 1, p + 4;
    }
    WrittenAll(words, inout[..], p);
  }

  lemma WrittenAll(words: seq<u32>, bytes: seq<byte>, p: nat)
    requires p == |bytes|
    requires Val(words) == Val(words[..0]) + BigEndian(bytes[..p]) * Weight(0)
    ensures BigEndian(bytes) == Val(words)
  {
    assert bytes[..p] == bytes;
  }
}
