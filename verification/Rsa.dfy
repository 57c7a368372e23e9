/** RSA signature checking of avb_rsa.c: exponentiation by 65537 on Montgomery residues,
    parsing of the serialized public key, and the padding-and-hash comparison. */
module Rsa {
  import opened Words
  import opened Montgomery

  const KEY_HEADER := 8
  const EXPONENT := 65537

  // ---------------------------------------------------------------- modpowF4

  lemma {:induction false} PowSquare(b: int, e: nat)
    ensures Pow(b, 2 * e) == Pow(b, e) * Pow(b, e)
  {
    PowAdd(b, e, e);
  }

  /** x is the Montgomery form of a^e. */
  ghost predicate HoldsPower(k: Numbers, x: int, a: int, e: nat)
  {
    Cong(x, Pow(a, e) * k.Radix(), k.n)
  }

  lemma EnterMontgomery(k: Numbers, a: int)
    requires k.WellFormed() && 0 <= a < k.Radix()
    ensures HoldsPower(k, Mont(k, a, k.rr), a, 1)
  {
    hide Mont, Cong;
    var R := k.Radix();
    CongRefl(a, k.n);
    CongMul(a, a, k.rr, R * R, k.n);
    assert a * (R * R) == (a * R) * R;
    MontReduces(k, a, k.rr, a * R);
    assert Pow(a, 1) == a * Pow(a, 0);
  }

  lemma Square(k: Numbers, x: int, a: int, e: nat)
    requires k.Inverse() && 0 <= x < k.Radix() && HoldsPower(k, x, a, e)
    ensures HoldsPower(k, Mont(k, x, x), a, 2 * e)
  {
    hide Mont, Cong;
    var p, R := Pow(a, e), k.Radix();
    MontProduct(k, x, x, p, p * R);
    assert Pow(a, 2 * e) * R == p * (p * R) by {
      PowSquare(a, e);
      MulAssociative(p, p, R);
    }
  }

  lemma LeaveMontgomery(k: Numbers, x: int, a: int, e: nat)
    requires k.Inverse() && 0 <= x < k.Radix() && HoldsPower(k, x, a, e)
    ensures Cong(Mont(k, x, a), Pow(a, e + 1), k.n)
  {
    hide Mont, Cong;
    CongRefl(a, k.n);
    MontProduct(k, x, a, Pow(a, e), a);
    assert Pow(a, e) * a == a * Pow(a, e) == Pow(a, e + 1);
  }

  /** The result exceeds the modulus at most once over: true when the modulus fills its words, and also
      whenever the input was already reduced. */
  ghost predicate OneSubtractionReduces(k: Numbers, a: int)
  {
    a < k.n || k.Radix() <= 2 * k.n
  }

  lemma QuotientBound(v: int, R: int, x: int, a: int, q: int, n: int)
    requires 0 <= x < R && 0 <= a < n && q < R
    requires v * R == x * a + q * n
    ensures v < 2 * n
  {
    MulMonotone(x, R, a);
    MulMonotone(a, n - 1, R);
    MulMonotone(q, R, n);
    assert v * R <= (n - 1) * R + R * n;
    assert (2 * n) * R == n * R + R * n && (n - 1) * R == n * R - R;
    if v >= 2 * n {
      MulMonotone(2 * n, v, R);
    }
  }

  lemma BelowTwiceModulus(k: Numbers, x: int, a: int)
    requires k.Inverse() && OneSubtractionReduces(k, a) && k.n < k.Radix()
    requires 0 <= x < k.Radix() && 0 <= a < k.Radix()
    ensures Mont(k, x, a) < 2 * k.n
  {
    if a < k.n {
      var q := MontEquation(k, x, a);
      QuotientBound(Mont(k, x, a), k.Radix(), x, a, q, k.n);
    } else {
      PassesRange(k, x, a, k.len);
    }
  }

  /** Repeated Montgomery squaring. */
  ghost function Squared(k: Numbers, x: int, times: nat): int
  {
    if times == 0 then x else Mont(k, Squared(k, x, times - 1), Squared(k, x, times - 1))
  }

  /** modpowF4 on numbers, whatever the key. */
  ghost function PowF4(k: Numbers, a: int): int
  {
    var c := Mont(k, Squared(k, Mont(k, a, k.rr), 16), a);
    if c >= k.n then c - k.n else c
  }

  ghost function TwoTo(k: nat): nat
  {
    if k == 0 then 1 else 2 * TwoTo(k - 1)
  }

  lemma {:induction false} SquaredHoldsPower(k: Numbers, x: int, a: int, times: nat)
    requires k.Inverse() && k.n < k.Radix() && 0 <= x < k.Radix() && HoldsPower(k, x, a, 1)
    ensures 0 <= Squared(k, x, times) < k.Radix() && HoldsPower(k, Squared(k, x, times), a, TwoTo(times))
  {
    hide Passes, HoldsPower;
    if times > 0 {
      SquaredHoldsPower(k, x, a, times - 1);
      var y := Squared(k, x, times - 1);
      PassesRange(k, y, y, k.len);
      Square(k, y, a, TwoTo(times - 1));
    }
  }

  /** For a key as documented the result is the reduced 65537th power; no bound on the modulus'
      bit pattern is needed when the input is below the modulus. */
  lemma PowF4Correct(k: Numbers, a: int)
    requires k.WellFormed() && k.n < k.Radix() && k.rr < k.Radix() && 0 <= a < k.Radix() && OneSubtractionReduces(k, a)
    ensures k.n > 0 && PowF4(k, a) == Pow(a, EXPONENT) % k.n
  {
    hide Cong, HoldsPower, Pow, Squared, Passes, OneSubtractionReduces;
    var x := Mont(k, a, k.rr);
    PassesRange(k, a, k.rr, k.len);
    EnterMontgomery(k, a);
    SquaredHoldsPower(k, x, a, 16);
    assert TwoTo(8) == 256 && TwoTo(16) == 65536;
    var p := Squared(k, x, 16);
    LeaveMontgomery(k, p, a, 65536);
    BelowTwiceModulus(k, p, a);
    PassesRange(k, p, a, k.len);
    Reduced(Mont(k, p, a), PowF4(k, a), Pow(a, EXPONENT), k.n);
  }

  /** One round of the squaring loop. */
  method SquareTwice(key: Key, aR: array<u32>, aaR: array<u32>)
    requires |key.n| > 0 && aR != aaR && aR.Length == aaR.Length == |key.n|
    modifies aR, aaR
    ensures Val(aR[..]) == Squared(key.Value(), old(Val(aR[..])), 2)
  {
    hide Mont;
    ghost var k, x := key.Value(), Val(aR[..]);
    MontMul(key, aaR, aR[..], aR[..]);
    MontMul(key, aR, aaR[..], aaR[..]);
    assert Squared(k, x, 1) == Mont(k, x, x) by {
      assert Squared(k, x, 0) == x;
    }
  }

  /** In-place public exponentiation on big-endian bytes, for every key. */
  method ModPowF4(key: Key, inout: array<byte>)
    requires |key.n| > 0 && |key.rr| == |key.n|
    requires inout.Length == 4 * |key.n|
    modifies inout
    ensures var a := old(BigEndian(inout[..]));
            && BigEndian(inout[..]) == PowF4(key.Value(), a)
            && (key.Value().WellFormed() && OneSubtractionReduces(key.Value(), a) ==>
                  key.Modulus() > 0 && BigEndian(inout[..]) == Pow(a, EXPONENT) % key.Modulus())
  {
    hide Mont, Squared, OneSubtractionReduces, Numbers.WellFormed, Val, BigEndian;
    var len := |key.n|;
    var a := new u32[len];
    var aR := new u32[len];
    var aaR := new u32[len];
    WordsFromBytes(inout[..], a);
    ghost var v, k := Val(a[..]), key.Value();
    MontMul(key, aR, a[..], key.rr);
    var i := 0;
    NotSquared(k, Mont(k, v, k.rr));
    while i < 16
      invariant 0 <= i <= 16 && i % 2 == 0 && Val(a[..]) == v
      invariant Val(aR[..]) == Squared(k, Mont(k, v, k.rr), i)
    {
      SquareTwice(key, aR, aaR);
      SquaredAgain(k, Mont(k, v, k.rr), i, 2);
      i := i + 2;
    }
    MontMul(key, aaR, aR[..], a[..]);
    var ge := GeM(key, aaR);
    if ge {
      SubM(key, aaR);
    }
    BytesFromWords(aaR[..], inout);
    if k.WellFormed() && OneSubtractionReduces(k, v) {
      PowF4Correct(k, v);
    }
  }

  lemma NotSquared(k: Numbers, x: int)
    ensures Squared(k, x, 0) == x
  {
  }

  lemma {:induction false} SquaredAgain(k: Numbers, x: int, i: nat, j: nat)
    ensures Squared(k, Squared(k, x, i), j) == Squared(k, x, i + j)
  {
    if j > 0 {
      SquaredAgain(k, x, i, j - 1);
    }
  }

  lemma Reduced(c: int, c': int, p: int, n: int)
    requires 0 <= c < 2 * n && Cong(c, p, n)
    requires c' == if c >= n then c - n else c
    ensures c' == p % n
  {
    CongIntro(c', c, n, if c >= n then -1 else 0);
    CongTrans(c', c, p, n);
    CongMod(c', p, n);
  }

  // ------------------------------------------------- iavb_parse_key_data

  /** The `key_num_bits` field of the serialized key. */
  ghost function KeyBits(mem: seq<byte>): nat
    requires |mem| >= KEY_HEADER
  {
    BigEndian(mem[..4])
  }

  /** The key is one of the three supported sizes and `length` is exactly that of the
      header, the modulus and R^2. `mem` is the memory readable from the key pointer. */
  ghost predicate KeyAccepted(mem: seq<byte>, length: nat)
    requires |mem| >= KEY_HEADER
  {
    var bits := KeyBits(mem);
    (bits == 2048 || bits == 4096 || bits == 8192) && length == KEY_HEADER + 2 * bits / 8
  }

  /** The modulus stored behind the header. */
  ghost function StoredModulus(mem: seq<byte>, length: nat): nat
    requires KEY_HEADER <= |mem| && length <= |mem| && KeyAccepted(mem, length)
  {
    BigEndian(mem[KEY_HEADER..KEY_HEADER + KeyBits(mem) / 8])
  }

  ghost function StoredRR(mem: seq<byte>, length: nat): nat
    requires KEY_HEADER <= |mem| && length <= |mem| && KeyAccepted(mem, length)
  {
    BigEndian(mem[KEY_HEADER + KeyBits(mem) / 8..length])
  }

  method ParseKeyData(mem: seq<byte>, length: nat) returns (key: Option<Key>)
    requires KEY_HEADER <= |mem| && length <= |mem|
    ensures key.Some? <==> KeyAccepted(mem, length)
    ensures key.Some? ==> Parsed(mem, length, key.value)
  {
    hide Val, BigEndian, Weight, Word;
    var bits := Word(mem[0], mem[1], mem[2], mem[3]);
    var n0inv := Word(mem[4], mem[5], mem[6], mem[7]);
    BigEndianWord(mem[..4]);
    BigEndianWord(mem[4..8]);
    if !(bits == 2048 || bits == 4096 || bits == 8192) {
      return None;
    }
    assert KeyBits(mem) == bits && BigEndian(mem[4..8]) == n0inv;
    var expected := KEY_HEADER + 2 * bits / 8;
    if length != expected {
      return None;
    }
    var len := bits / 32;
    var n := new u32[len];
    var rr := new u32[len];
    WordsFromBytes(mem[KEY_HEADER..KEY_HEADER + bits / 8], n);
    WordsFromBytes(mem[KEY_HEADER + bits / 8..length], rr);
    key := Some(Key(n0inv, n[..], rr[..]));
  }

  // --------------------------------------------------------- avb_rsa_verify

  /** The lengths avb_rsa_verify insists on before it computes anything. */
  ghost predicate LengthsAgree(mem: seq<byte>, length: nat, sig: seq<byte>, hash: seq<byte>, padding: seq<byte>)
    requires |mem| >= KEY_HEADER
  {
    KeyAccepted(mem, length) && |sig| == KeyBits(mem) / 8 && |padding| + |hash| == |sig|
  }

  /** The key's precomputed fields are as the format documents them, and either the modulus
      has its top bit set or the signature is below it. */
  ghost predicate DocumentedKey(mem: seq<byte>, length: nat, sig: seq<byte>)
    requires KEY_HEADER <= |mem| && length <= |mem| && KeyAccepted(mem, length)
  {
    var n := StoredModulus(mem, length);
    var R := Weight(KeyBits(mem) / 32);
    && (BigEndian(mem[4..8]) * n + 1) % B32 == 0
    && Cong(StoredRR(mem, length), R * R, n)
    && (BigEndian(sig) < n || R <= 2 * n)
  }

  /** A serialized key: the number of bits, n0inv, the modulus, R^2, each in big-endian form. */
  lemma KeyOfBytes(bits: nat, n0inv: u32, n: nat, rr: nat)
    requires bits in {2048, 4096, 8192} && n < Pow(B8, bits / 8) && rr < Pow(B8, bits / 8)
    ensures var mem := BigEndianBytes(bits, 4) + BigEndianBytes(n0inv, 4) + BigEndianBytes(n, bits / 8) + BigEndianBytes(rr, bits / 8);
            && KeyAccepted(mem, |mem|) && KeyNumbers(mem, |mem|) == Numbers(n0inv, n, rr, bits / 32)
            && StoredModulus(mem, |mem|) == n && KeyBits(mem) == bits
  {
    hide BigEndian, BigEndianBytes, Pow;
    var a, b, c, d := BigEndianBytes(bits, 4), BigEndianBytes(n0inv, 4), BigEndianBytes(n, bits / 8), BigEndianBytes(rr, bits / 8);
    var mem, m := a + b + c + d, bits / 8;
    FourParts(a, b, c, d);
    Powers();
    BigEndianOfBytes(bits, 4);
    assert KeyBits(mem) == bits && |mem| == KEY_HEADER + 2 * m && 2 * bits / 8 == 2 * m;
    hide KeyBits;
    BigEndianOfBytes(n0inv, 4);
    BigEndianOfBytes(n, m);
    BigEndianOfBytes(rr, m);
  }

  lemma FourParts(a: seq<byte>, b: seq<byte>, c: seq<byte>, d: seq<byte>)
    ensures var s := a + b + c + d;
            && s[..|a|] == a && s[|a|..|a| + |b|] == b && s[|a| + |b|..|a| + |b| + |c|] == c && s[|a| + |b| + |c|..|s|] == d
  {
  }

  /** The numbers of a serialized key. */
  ghost function KeyNumbers(mem: seq<byte>, length: nat): Numbers
    requires KEY_HEADER <= |mem| && length <= |mem| && KeyAccepted(mem, length)
  {
    Powers();
    Numbers(BigEndian(mem[4..8]), StoredModulus(mem, length), StoredRR(mem, length), KeyBits(mem) / 32)
  }

  /** Section 8.2.2 of RFC 8017: the public power of the signature, as an octet string, is
      the encoded message. (The range check of RSAVP1 is not part of the C code.) */
  ghost predicate SignatureOf(n: nat, sig: seq<byte>, message: seq<byte>)
  {
    n > 0 && |message| == |sig| && BigEndian(message) == Pow(BigEndian(sig), EXPONENT) % n
  }

  /** avb_safe_memcmp on equal-length ranges. */
  method SameBytes(a: seq<byte>, b: seq<byte>) returns (same: bool)
    requires |a| == |b|
    ensures same <==> a == b
  {
    same := true;
    var i := 0;
    while i < |a|
      invariant 0 <= i <= |a|
      invariant same <==> a[..i] == b[..i]
    {
      assert a[..i + 1] == a[..i] + [a[i]] && b[..i + 1] == b[..i] + [b[i]];
      same := same && a[i] == b[i];
      i := i + 1;
    }
    assert a[..i] == a && b[..i] == b;
  }

  /** The padding check followed by the hash check. */
  method PaddedHashIs(buf: seq<byte>, padding: seq<byte>, hash: seq<byte>) returns (success: bool)
    requires |buf| == |padding| + |hash|
    ensures success <==> buf == padding + hash
  {
    assert (padding + hash)[..|padding|] == padding && (padding + hash)[|padding|..] == hash;
    assert buf == buf[..|padding|] + buf[|padding|..];
    success := SameBytes(buf[..|padding|], padding);
    if success {
      success := SameBytes(buf[|padding|..], hash);
    }
  }

  /** The parsed form of a serialized key. */
  ghost predicate Parsed(mem: seq<byte>, length: nat, key: Key)
    requires KEY_HEADER <= |mem| && length <= |mem|
  {
    && KeyAccepted(mem, length)
    && |key.n| == |key.rr| == KeyBits(mem) / 32
    && key.Value() == KeyNumbers(mem, length)
  }

  /** The power of the signature is padding followed by hash: what avb_rsa_verify decides for
      every key, documented or not. */
  ghost predicate RsaAccepts(mem: seq<byte>, length: nat, sig: seq<byte>, hash: seq<byte>, padding: seq<byte>)
    requires KEY_HEADER <= |mem| && length <= |mem|
  {
    && LengthsAgree(mem, length, sig, hash, padding)
    && BigEndian(padding + hash) == PowF4(KeyNumbers(mem, length), BigEndian(sig))
  }

  /** For documented keys, that is a signature in the sense of the standard. */
  lemma AcceptsIffSignature(mem: seq<byte>, length: nat, sig: seq<byte>, hash: seq<byte>, padding: seq<byte>)
    requires KEY_HEADER <= |mem| && length <= |mem|
    requires LengthsAgree(mem, length, sig, hash, padding) && DocumentedKey(mem, length, sig)
    ensures RsaAccepts(mem, length, sig, hash, padding) <==> SignatureOf(StoredModulus(mem, length), sig, padding + hash)
  {
    hide BigEndian, Pow, PowF4, Cong;
    NumbersInRange(mem, length);
    ByteWeight(KeyBits(mem) / 32);
    PowF4Correct(KeyNumbers(mem, length), BigEndian(sig));
  }

  lemma NumbersInRange(mem: seq<byte>, length: nat)
    requires KEY_HEADER <= |mem| && length <= |mem| && KeyAccepted(mem, length)
    ensures var k := KeyNumbers(mem, length); k.n < k.Radix() && k.rr < k.Radix()
  {
    hide BigEndian, Pow;
    ByteWeight(KeyBits(mem) / 32);
  }

  /** Raises a copy of the signature to the public exponent and compares. */
  method PowerIs(key: Key, sig: seq<byte>, hash: seq<byte>, padding: seq<byte>) returns (success: bool)
    requires |key.n| > 0 && |key.rr| == |key.n| && |sig| == 4 * |key.n| == |padding| + |hash|
    ensures success <==> BigEndian(padding + hash) == PowF4(key.Value(), BigEndian(sig))
  {
    hide PowF4, BigEndian;
    var buf := new byte[|sig|](i requires 0 <= i < |sig| => sig[i]);
    assert buf[..] == sig;
    ModPowF4(key, buf);
    success := PaddedHashIs(buf[..], padding, hash);
    if BigEndian(buf[..]) == BigEndian(padding + hash) {
      BigEndianInjective(buf[..], padding + hash);
    }
  }

  /** size_t subtraction: for buffers that fit the address space the wrap-around never
      makes the padding length agree by accident. */
  lemma SizeDifference(padding: nat, sig: nat, hash: nat)
    requires padding == (sig - hash) % B64 && padding + hash < B64 && sig < B64
    ensures padding + hash == sig
  {
  }

  /** Accepts exactly the signatures whose 65537th power is padding followed by hash. */
  method RsaVerify(mem: seq<byte>, length: nat, sig: seq<byte>, hash: seq<byte>, padding: seq<byte>)
    returns (success: bool)
    requires KEY_HEADER <= |mem| && length <= |mem|
    requires |sig| < B64 && |padding| + |hash| < B64
    ensures success <==> RsaAccepts(mem, length, sig, hash, padding)
    ensures LengthsAgree(mem, length, sig, hash, padding) && DocumentedKey(mem, length, sig) ==>
              (success <==> SignatureOf(StoredModulus(mem, length), sig, padding + hash))
  {
    hide BigEndian, SignatureOf, DocumentedKey, StoredModulus, Val, Weight, PowF4, KeyNumbers;
    var parsed := ParseKeyData(mem, length);
    if parsed.None? {
      return false;
    }
    var key := parsed.value;
    if |sig| != |key.n| * 4 {
      return false;
    }
    if |padding| != (|sig| - |hash|) % B64 {
      return false;
    }
    SizeDifference(|padding|, |sig|, |hash|);
    success := PowerIs(key, sig, hash, padding);
    if DocumentedKey(mem, length, sig) {
      AcceptsIffSignature(mem, length, sig, hash, padding);
    }
  }
}
