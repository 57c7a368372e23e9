/** Machine words and positional numbers: the integer widths used by the C code,
    little-endian word arrays and big-endian byte strings, with the few facts about
    powers and congruences that the other modules need. */
module Words {

  const B8 := 0x100
  const B16 := 0x1_0000
  const B32 := 0x1_0000_0000
  const B64 := 0x1_0000_0000_0000_0000

  type byte = x: int | 0 <= x < B8
  type u16 = x: int | 0 <= x < B16
  type u32 = x: int | 0 <= x < B32
  type u64 = x: int | 0 <= x < B64
  type i64 = x: int | -0x8000_0000_0000_0000 <= x < 0x8000_0000_0000_0000

  datatype Option<T> = None | Some(value: T)

  /** The C conversion from an integer to int64_t (two's complement). */
  function ToI64(x: int): (r: i64)
    ensures -0x8000_0000_0000_0000 <= x < 0x8000_0000_0000_0000 ==> r == x
  {
    var m := x % B64;
    if m < 0x8000_0000_0000_0000 then m else m - B64
  }

  /** The C conversion from uint32_t to int. */
  function ToI32(x: u32): (r: int)
    ensures r == 0 <==> x == 0
    ensures r % B32 == x
    ensures x < 0x8000_0000 ==> r == x
  {
    if x < 0x8000_0000 then x else x - B32
  }

  // ---------------------------------------------------------------- powers

  ghost function Pow(b: int, e: nat): int
  {
    if e == 0 then 1 else b * Pow(b, e - 1)
  }

  lemma {:induction false} PowPositive(b: int, e: nat)
    requires b > 0
    ensures Pow(b, e) > 0
  {
    if e > 0 {
      PowPositive(b, e - 1);
      MulPositive(b, Pow(b, e - 1));
    }
  }

  lemma MulPositive(x: int, y: int)
    requires x > 0 && y > 0
    ensures x * y > 0
  {
  }

  lemma MulMonotone(x: int, y: int, z: int)
    requires x <= y && 0 <= z
    ensures x * z <= y * z
  {
  }

  lemma MulAssociative(x: int, y: int, z: int)
    ensures x * (y * z) == (x * y) * z
  {
  }

  lemma {:induction false} PowAdd(b: int, d: nat, e: nat)
    ensures Pow(b, d + e) == Pow(b, d) * Pow(b, e)
  {
    if d > 0 {
      PowAdd(b, d - 1, e);
      MulAssociative(b, Pow(b, d - 1), Pow(b, e));
    }
  }

  lemma Powers()
    ensures Pow(B8, 4) == B32 && Pow(B8, 8) == B64
  {
    assert Pow(B8, 2) == B8 * (B8 * Pow(B8, 0)) == B16;
    PowAdd(B8, 2, 2);
    PowAdd(B8, 4, 4);
  }

  // ----------------------------------------- little-endian 32-bit word arrays

  /** The weight of word k. */
  ghost function Weight(k: nat): (r: int)
    ensures r > 0
  {
    if k == 0 then 1 else B32 * Weight(k - 1)
  }

  /** The number a little-endian word array stands for. */
  ghost function Val(s: seq<u32>): (v: nat)
    ensures v < Weight(|s|)
  {
    if |s| == 0 then 0
    else
      var k := |s| - 1;
      MulMonotone(s[k], B32 - 1, Weight(k));
      MulMonotone(0, s[k], Weight(k));
      Val(s[..k]) + s[k] * Weight(k)
  }

  /** One more word. */
  lemma ValStep(s: seq<u32>, i: nat)
    requires i < |s|
    ensures Val(s[..i + 1]) == Val(s[..i]) + s[i] * Weight(i)
  {
    assert s[..i + 1][..i] == s[..i];
  }

  lemma ValLast(s: seq<u32>)
    requires |s| > 0
    ensures Val(s) == Val(s[..|s| - 1]) + s[|s| - 1] * Weight(|s| - 1)
  {
  }

  /** The most significant differing word decides the order. */
  lemma {:induction false} ValOrder(s: seq<u32>, t: seq<u32>, i: nat)
    requires |s| == |t| && i < |s|
    requires forall j :: i < j < |s| ==> s[j] == t[j]
    requires s[i] < t[i]
    ensures Val(s) < Val(t)
  {
    var k := |s| - 1;
    ValLast(s);
    ValLast(t);
    hide Val, Weight;
    if i == k {
      MulMonotone(s[k] + 1, t[k], Weight(k));
      assert (s[k] + 1) * Weight(k) == s[k] * Weight(k) + Weight(k);
    } else {
      ValOrder(s[..k], t[..k], i);
    }
  }

  // ------------------------------------------------ big-endian byte strings

  /** The number a big-endian byte string stands for (OS2IP of RFC 8017). */
  function BigEndian(s: seq<byte>): (v: nat)
    ensures v < Pow(B8, |s|)
  {
    if |s| == 0 then 0 else BigEndian(s[..|s| - 1]) * B8 + s[|s| - 1]
  }

  lemma {:induction false} BigEndianConcat(s: seq<byte>, t: seq<byte>)
    ensures BigEndian(s + t) == BigEndian(s) * Pow(B8, |t|) + BigEndian(t)
  {
    if |t| == 0 {
      assert s + t == s;
    } else {
      var k := |t| - 1;
      assert (s + t)[..|s + t| - 1] == s + t[..k];
      BigEndianConcat(s, t[..k]);
      assert (s + t)[|s + t| - 1] == t[k];
      ShiftByte(BigEndian(s), Pow(B8, k), BigEndian(t[..k]), t[k]);
    }
  }

  lemma ShiftByte(x: int, y: int, z: int, last: int)
    ensures (x * y + z) * B8 + last == x * (B8 * y) + (z * B8 + last)
  {
  }

  /** Strings of one length are determined by their number. */
  lemma {:induction false} BigEndianInjective(s: seq<byte>, t: seq<byte>)
    requires |s| == |t| && BigEndian(s) == BigEndian(t)
    ensures s == t
  {
    if |s| > 0 {
      var k := |s| - 1;
      assert s[k] == t[k] && BigEndian(s[..k]) == BigEndian(t[..k]);
      BigEndianInjective(s[..k], t[..k]);
      assert s == s[..k] + [s[k]] && t == t[..k] + [t[k]];
    }
  }

  function Zeros(n: nat): (z: seq<byte>)
    ensures |z| == n
  {
    seq(n, i => 0)
  }

  /** x as n big-endian bytes, modulo 256^n. */
  function BigEndianBytes(x: nat, n: nat): (s: seq<byte>)
    ensures |s| == n
    decreases n
  {
    if n == 0 then [] else BigEndianBytes(x / B8, n - 1) + [x % B8]
  }

  lemma {:induction false} LeadingZeros(x: nat, n: nat, k: nat)
    requires x < Pow(B8, n)
    ensures BigEndianBytes(x, k + n) == Zeros(k) + BigEndianBytes(x, n)
    decreases n
  {
    if n == 0 {
      ZeroBytes(k);
    } else {
      assert Pow(B8, n) == B8 * Pow(B8, n - 1);
      LeadingZeros(x / B8, n - 1, k);
    }
  }

  lemma {:induction false} ZeroBytes(k: nat)
    ensures BigEndianBytes(0, k) == Zeros(k)
  {
    if k > 0 {
      ZeroBytes(k - 1);
    }
  }

  lemma {:induction false} BigEndianOfBytes(x: nat, n: nat)
    requires x < Pow(B8, n)
    ensures BigEndian(BigEndianBytes(x, n)) == x
  {
    if n > 0 {
      var s := BigEndianBytes(x, n);
      assert Pow(B8, n) == B8 * Pow(B8, n - 1);
      BigEndianOfBytes(x / B8, n - 1);
      assert s[..n - 1] == BigEndianBytes(x / B8, n - 1);
    }
  }

  // ----------------------------------------------------------------- strings

  /** The C string at the start of s. */
  function CString(s: seq<byte>): seq<byte>
  {
    if s == [] || s[0] == 0 then [] else [s[0]] + CString(s[1..])
  }

  predicate NoNul(s: seq<byte>)
  {
    forall i :: 0 <= i < |s| ==> s[i] != 0
  }

  /** A string without NUL bytes is what its zero-filled field holds. */
  lemma {:induction false} CStringOfField(s: seq<byte>, k: nat)
    requires NoNul(s)
    ensures CString(s + Zeros(k)) == s
  {
    if s == [] {
      assert s + Zeros(k) == Zeros(k);
    } else {
      assert (s + Zeros(k))[1..] == s[1..] + Zeros(k);
      CStringOfField(s[1..], k);
      assert s == [s[0]] + s[1..];
    }
  }

  // ------------------------------------------------------------ congruences

  ghost predicate Cong(x: int, y: int, n: int)
  {
    exists k: int :: Shifted(x, y, n, k)
  }

  ghost predicate Shifted(x: int, y: int, n: int, k: int)
  {
    x == y + k * n
  }

  lemma CongIntro(x: int, y: int, n: int, k: int)
    requires x == y + k * n
    ensures Cong(x, y, n)
  {
    assert Shifted(x, y, n, k);
  }

  lemma CongSym(x: int, y: int, n: int)
    requires Cong(x, y, n)
    ensures Cong(y, x, n)
  {
    var k :| Shifted(x, y, n, k);
    assert (-k) * n == -(k * n);
    CongIntro(y, x, n, -k);
  }

  lemma CongTrans(x: int, y: int, z: int, n: int)
    requires Cong(x, y, n) && Cong(y, z, n)
    ensures Cong(x, z, n)
  {
    var k :| Shifted(x, y, n, k);
    var l :| Shifted(y, z, n, l);
    assert (k + l) * n == k * n + l * n;
    CongIntro(x, z, n, k + l);
  }

  lemma CongMul(x: int, y: int, u: int, v: int, n: int)
    requires Cong(x, y, n) && Cong(u, v, n)
    ensures Cong(x * u, y * v, n)
  {
    var k :| Shifted(x, y, n, k);
    var l :| Shifted(u, v, n, l);
    calc {
      x * u;
      (y + k * n) * (v + l * n);
      y * v + y * (l * n) + (k * n) * v + (k * n) * (l * n);
      y * v + (y * l + k * v + k * l * n) * n;
    }
    CongIntro(x * u, y * v, n, y * l + k * v + k * l * n);
  }

  lemma CongRefl(x: int, n: int)
    ensures Cong(x, x, n)
  {
    CongIntro(x, x, n, 0);
  }

  /** The reduced representative is the remainder. */
  lemma CongMod(x: int, y: int, n: int)
    requires n > 0 && 0 <= x < n && Cong(x, y, n)
    ensures x == y % n
  {
    var k :| Shifted(x, y, n, k);
    var q, r := y / n, y % n;
    assert y == q * n + r;
    assert x - r == (q + k) * n by {
      assert (q + k) * n == q * n + k * n;
    }
    if q + k >= 1 {
      MulMonotone(1, q + k, n);
    } else if q + k <= -1 {
      MulMonotone(q + k, -1, n);
    }
  }
}
