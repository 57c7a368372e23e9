/** Packing and unpacking of binary records, cfig.io.Struct3, for the big-endian formats made
    of x (padding), b (bytes), s (string), L (32 bits) and Q (64 bits). */
module Struct {
  import opened Words

  datatype Item = Pad(n: nat) | Raw(n: nat) | Text(n: nat) | Word32 | Word64
  {
    function Size(): nat
    {
      match this
      case Pad(n) => n
      case Raw(n) => n
      case Text(n) => n
      case Word32 => 4
      case Word64 => 8
    }
  }

  datatype Value = Fill(b: byte) | Bytes(s: seq<byte>) | Str(s: seq<byte>) | Number(v: nat)

  // ------------------------------------------------------ the format string

  /** One count-and-letter pair of a format string. */
  datatype Token = Token(count: nat, letter: char)

  predicate Supported(t: Token)
  {
    t.letter in {'x', 'b', 's', 'L', 'Q'}
  }

  /** "4L" is four items, "10x" is one. */
  function ItemsOf(t: Token): seq<Item>
    requires Supported(t)
  {
    match t.letter
    case 'x' => [Pad(t.count)]
    case 'b' => [Raw(t.count)]
    case 's' => [Text(t.count)]
    case 'L' => seq(t.count, i => Word32)
    case _ => seq(t.count, i => Word64)
  }

  function Expanded(tokens: seq<Token>): seq<Item>
    requires forall t :: t in tokens ==> Supported(t)
  {
    if tokens == [] then []
    else Expanded(tokens[..|tokens| - 1]) + ItemsOf(tokens[|tokens| - 1])
  }

  /** The constructor: grows the list of items token by token. */
  method Expand(tokens: seq<Token>) returns (formats: Option<seq<Item>>)
    ensures formats.Some? <==> forall t :: t in tokens ==> Supported(t)
    ensures formats.Some? ==> formats.value == Expanded(tokens)
  {
    var items := [];
    var n := 0;
    assert tokens[..0] == [];
    while n < |tokens|
      invariant 0 <= n <= |tokens|
      invariant forall t :: t in tokens[..n] ==> Supported(t)
      invariant items == Expanded(tokens[..n])
    {
      if !Supported(tokens[n]) {
        return None;
      }
      assert tokens[..n + 1][..n] == tokens[..n];
      items := items + ItemsOf(tokens[n]);
      n := n + 1;
    }
    assert tokens[..n] == tokens;
    formats := Some(items);
  }

  lemma ExpandedOne(t: Token)
    requires Supported(t)
    ensures Expanded([t]) == ItemsOf(t)
  {
    assert [t][..0] == [];
  }

  lemma {:induction false} ExpandedConcat(a: seq<Token>, b: seq<Token>)
    requires (forall t :: t in a ==> Supported(t)) && (forall t :: t in b ==> Supported(t))
    ensures Expanded(a + b) == Expanded(a) + Expanded(b)
    decreases |b|
  {
    hide ItemsOf;
    if b == [] {
      assert a + b == a;
    } else {
      var k := |b| - 1;
      assert (a + b)[..|a + b| - 1] == a + b[..k];
      ExpandedConcat(a, b[..k]);
    }
  }

  /** Where item k begins; for k == |items| this is calcSize. */
  function Offset(items: seq<Item>, k: nat): nat
    requires k <= |items|
  {
    if k == 0 then 0 else Offset(items, k - 1) + items[k - 1].Size()
  }

  function UnitSize(letter: char): nat
  {
    if letter == 'L' then 4 else if letter == 'Q' then 8 else 1
  }

  function TokensSize(tokens: seq<Token>): nat
  {
    if tokens == [] then 0
    else
      var t := tokens[|tokens| - 1];
      TokensSize(tokens[..|tokens| - 1]) + t.count * UnitSize(t.letter)
  }

  lemma {:induction false} OffsetPrefix(a: seq<Item>, b: seq<Item>, k: nat)
    requires k <= |a|
    ensures Offset(a + b, k) == Offset(a, k)
  {
    if k > 0 {
      OffsetPrefix(a, b, k - 1);
    }
  }

  lemma {:induction false} OffsetConcat(a: seq<Item>, b: seq<Item>, k: nat)
    requires k <= |b|
    ensures Offset(a + b, |a| + k) == Offset(a, |a|) + Offset(b, k)
  {
    if k == 0 {
      OffsetPrefix(a, b, |a|);
    } else {
      OffsetConcat(a, b, k - 1);
    }
  }

  lemma {:induction false} RepeatedSize(item: Item, count: nat, k: nat)
    requires k <= count
    ensures Offset(seq(count, i => item), k) == k * item.Size()
  {
    if k > 0 {
      RepeatedSize(item, count, k - 1);
    }
  }

  /** Exploding repeated items does not change the size: calcSize is the sum of count times
      unit over the format string. */
  lemma {:induction false} ExpandedSize(tokens: seq<Token>)
    requires forall t :: t in tokens ==> Supported(t)
    ensures Offset(Expanded(tokens), |Expanded(tokens)|) == TokensSize(tokens)
  {
    hide Item.Size, ItemsOf, UnitSize, Offset, Supported;
    if tokens == [] {
      NoSize();
    } else {
      var n := |tokens| - 1;
      ExpandedSize(tokens[..n]);
      var t := tokens[n];
      OffsetConcat(Expanded(tokens[..n]), ItemsOf(t), |ItemsOf(t)|);
      TokenSize(t);
    }
  }

  lemma NoSize()
    ensures Offset([], 0) == 0
  {
  }

  lemma TokenSize(t: Token)
    requires Supported(t)
    ensures Offset(ItemsOf(t), |ItemsOf(t)|) == t.count * UnitSize(t.letter)
  {
    if t.letter == 'L' {
      RepeatedSize(Word32, t.count, t.count);
    } else if t.letter == 'Q' {
      RepeatedSize(Word64, t.count, t.count);
    } else {
      assert Offset(ItemsOf(t), 1) == Offset(ItemsOf(t), 0) + t.count;
    }
  }

  // ------------------------------------------------------------------ pack

  /** A value pack accepts for an item; a 32-bit item takes any Long that is not negative. */
  predicate Fits(item: Item, v: Value)
  {
    match item
    case Pad(n) => v.Fill?
    case Raw(n) => v.Bytes? && |v.s| <= n
    case Text(n) => v.Str? && |v.s| <= n
    case Word32 => v.Number? && v.v < 0x8000_0000_0000_0000
    case Word64 => v.Number? && v.v < B64
  }

  /** The bytes of one item; shorter byte arrays and strings are filled with zeros, a number that
      does not fit 32 bits is truncated. */
  function Encoded(item: Item, v: Value): (s: seq<byte>)
    requires Fits(item, v)
    ensures |s| == item.Size()
  {
    match item
    case Pad(n) => seq(n, i => v.b)
    case Raw(n) => v.s + Zeros(n - |v.s|)
    case Text(n) => v.s + Zeros(n - |v.s|)
    case Word32 => BigEndianBytes(v.v, 4)
    case Word64 => BigEndianBytes(v.v, 8)
  }

  predicate AllFit(items: seq<Item>, vals: seq<Value>)
  {
    |vals| == |items| && forall i :: 0 <= i < |items| ==> Fits(items[i], vals[i])
  }

  /** The first k items, packed. */
  function Packed(items: seq<Item>, vals: seq<Value>, k: nat): (s: seq<byte>)
    requires AllFit(items, vals) && k <= |items|
    ensures |s| == Offset(items, k)
  {
    if k == 0 then [] else Packed(items, vals, k - 1) + Encoded(items[k - 1], vals[k - 1])
  }

  function PackAll(items: seq<Item>, vals: seq<Value>): (s: seq<byte>)
    requires AllFit(items, vals)
    ensures |s| == Offset(items, |items|)
  {
    Packed(items, vals, |items|)
  }

  /** What has been packed does not depend on what follows. */
  lemma {:induction false} PackedPrefix(items: seq<Item>, vals: seq<Value>, n: nat, k: nat)
    requires |vals| == |items| && k <= n <= |items| && AllFit(items[..n], vals[..n])
    requires n < |items| ==> AllFit(items[..n + 1], vals[..n + 1])
    ensures n < |items| ==> Packed(items[..n + 1], vals[..n + 1], k) == Packed(items[..n], vals[..n], k)
  {
    hide Encoded, Fits, Item.Size, AllFit;
    if k > 0 && n < |items| {
      PackedPrefix(items, vals, n, k - 1);
    }
  }

  lemma FitNext(items: seq<Item>, vals: seq<Value>, i: nat)
    requires i < |items| == |vals| && AllFit(items[..i], vals[..i])
    ensures AllFit(items[..i + 1], vals[..i + 1]) <==> Fits(items[i], vals[i])
    ensures AllFit(items, vals) ==> Fits(items[i], vals[i])
  {
    hide Fits;
    assert forall j :: 0 <= j < i ==> items[..i + 1][j] == items[..i][j] && vals[..i + 1][j] == vals[..i][j];
    assert items[..i + 1][i] == items[i] && vals[..i + 1][i] == vals[i];
  }

  lemma PackedNext(items: seq<Item>, vals: seq<Value>, i: nat)
    requires i < |items| == |vals| && AllFit(items[..i], vals[..i]) && Fits(items[i], vals[i]) && AllFit(items[..i + 1], vals[..i + 1])
    ensures PackAll(items[..i + 1], vals[..i + 1]) == PackAll(items[..i], vals[..i]) + Encoded(items[i], vals[i])
  {
    hide Encoded, Fits, Item.Size, AllFit;
    PackedPrefix(items, vals, i, i);
  }

  method Pack(items: seq<Item>, args: seq<Value>) returns (r: Option<seq<byte>>)
    ensures r.Some? <==> AllFit(items, args)
    ensures r.Some? ==> r.value == PackAll(items, args)
  {
    if |args| != |items| {
      return None;
    }
    assert AllFit(items[..0], args[..0]) && PackAll(items[..0], args[..0]) == [];
    hide Encoded, Fits, Item.Size, AllFit, PackAll, Offset;
    var buffer: seq<byte> := [];
    var i := 0;
    while i < |args|
      invariant 0 <= i <= |args|
      invariant AllFit(items[..i], args[..i]) && buffer == PackAll(items[..i], args[..i])
    {
      FitNext(items, args, i);
      if !Fits(items[i], args[i]) {
        return None;
      }
      PackedNext(items, args, i);
      buffer := buffer + Encoded(items[i], args[i]);
      i := i + 1;
    }
    assert items[..i] == items && args[..i] == args;
    r := Some(buffer);
  }

  /** Every item is found at its offset. */
  lemma {:induction false} PackedSlice(items: seq<Item>, vals: seq<Value>, n: nat, k: nat)
    requires AllFit(items, vals) && k < n <= |items|
    ensures Offset(items, k + 1) <= Offset(items, n)
    ensures Packed(items, vals, n)[Offset(items, k)..Offset(items, k + 1)] == Encoded(items[k], vals[k])
  {
    hide Encoded, Fits, Item.Size;
    var before, last := Packed(items, vals, n - 1), Encoded(items[n - 1], vals[n - 1]);
    if k < n - 1 {
      PackedSlice(items, vals, n - 1, k);
      SliceOfPrefix(before, last, Offset(items, k), Offset(items, k + 1));
    } else {
      assert (before + last)[|before|..] == last;
    }
  }

  lemma SliceOfPrefix(a: seq<byte>, b: seq<byte>, i: nat, j: nat)
    requires i <= j <= |a|
    ensures (a + b)[i..j] == a[i..j]
  {
  }

  lemma SliceOfSlice(s: seq<byte>, o: nat, e: nat, i: nat, j: nat)
    requires i <= j && o + j <= e <= |s|
    ensures s[o..e][i..j] == s[o + i..o + j]
  {
    var a, b := s[o..e][i..j], s[o + i..o + j];
    assert forall t :: 0 <= t < j - i ==> a[t] == s[o + i + t] == b[t];
  }

  // ---------------------------------------------------------------- unpack

  /** n bytes of a stream from offset o on; past its end the buffer keeps its zeros. */
  function Take(s: seq<byte>, o: nat, n: nat): (r: seq<byte>)
    ensures |r| == n
    ensures o + n <= |s| ==> r == s[o..o + n]
  {
    seq(n, i requires 0 <= i => if o + i < |s| then s[o + i] else 0)
  }

  function Decoded(item: Item, raw: seq<byte>): Value
    requires |raw| == item.Size()
  {
    match item
    case Pad(n) => Fill(if n == 0 then 0 else raw[0])
    case Raw(n) => Bytes(raw)
    case Text(n) => Str(CString(raw))
    case Word32 => Number(BigEndian(raw))
    case Word64 => Number(BigEndian(raw))
  }

  /** The value of item k of a record at offset o of a stream. */
  function ValueAt(items: seq<Item>, s: seq<byte>, o: nat, k: nat): Value
    requires k < |items|
  {
    Decoded(items[k], Take(s, o + Offset(items, k), items[k].Size()))
  }

  function Unpacked(items: seq<Item>, s: seq<byte>, o: nat): (vals: seq<Value>)
    ensures |vals| == |items| && forall k :: 0 <= k < |items| ==> vals[k] == ValueAt(items, s, o, k)
  {
    seq(|items|, k requires 0 <= k < |items| => ValueAt(items, s, o, k))
  }

  method Unpack(items: seq<Item>, s: seq<byte>, o: nat) returns (vals: seq<Value>, next: nat)
    ensures vals == Unpacked(items, s, o) && next == o + Offset(items, |items|)
  {
    hide Decoded, Take, Item.Size, Unpacked;
    vals, next := [], o;
    var k := 0;
    while k < |items|
      invariant 0 <= k <= |items| && next == o + Offset(items, k)
      invariant |vals| == k && forall i :: 0 <= i < k ==> vals[i] == ValueAt(items, s, o, i)
    {
      vals := vals + [Decoded(items[k], Take(s, next, items[k].Size()))];
      next := next + items[k].Size();
      k := k + 1;
    }
  }

  // ------------------------------------------------------------- round trip

  /** No filling was needed, strings hold no NUL and numbers were not truncated. */
  predicate Exact(item: Item, v: Value)
  {
    && Fits(item, v)
    && match item
       case Pad(n) => n > 0 || v.b == 0
       case Raw(n) => |v.s| == n
       case Text(n) => NoNul(v.s)
       case Word32 => v.v < B32
       case Word64 => true
  }

  /** Exactly such values come back as they were. */
  lemma DecodedEncoded(item: Item, v: Value)
    requires Fits(item, v)
    ensures Decoded(item, Encoded(item, v)) == v <==> Exact(item, v)
  {
    Powers();
    match item
    case Pad(n) =>
    case Raw(n) =>
      assert |v.s| == n ==> v.s + Zeros(0) == v.s;
    case Text(n) =>
      CStringNoNul(v.s + Zeros(n - |v.s|));
      if NoNul(v.s) {
        CStringOfField(v.s, n - |v.s|);
      }
    case Word32 =>
      if v.v < B32 {
        BigEndianOfBytes(v.v, 4);
      }
    case Word64 =>
      BigEndianOfBytes(v.v, 8);
  }

  lemma {:induction false} CStringNoNul(s: seq<byte>)
    ensures NoNul(CString(s))
  {
    if s != [] && s[0] != 0 {
      CStringNoNul(s[1..]);
    }
  }

  predicate AllExact(items: seq<Item>, vals: seq<Value>)
  {
    |vals| == |items| && forall i :: 0 <= i < |items| ==> Exact(items[i], vals[i])
  }

  /** A packed record is at offset o of a stream. */
  predicate PackedAt(items: seq<Item>, vals: seq<Value>, s: seq<byte>, o: nat)
  {
    && AllFit(items, vals) && o + Offset(items, |items|) <= |s|
    && s[o..o + Offset(items, |items|)] == PackAll(items, vals)
  }

  /** Then the bytes of item k are at its offset from there. */
  lemma UnpackOne(items: seq<Item>, vals: seq<Value>, s: seq<byte>, o: nat, k: nat)
    requires PackedAt(items, vals, s, o) && k < |items|
    ensures Take(s, o + Offset(items, k), items[k].Size()) == Encoded(items[k], vals[k])
  {
    hide Encoded, Fits, Item.Size, Packed, Take, Offset;
    OffsetNext(items, k);
    PackedSlice(items, vals, |items|, k);
    TakeOfRecord(s, o, PackAll(items, vals), Offset(items, k), Offset(items, k + 1));
  }

  lemma OffsetNext(items: seq<Item>, k: nat)
    requires k < |items|
    ensures Offset(items, k + 1) == Offset(items, k) + items[k].Size()
  {
  }

  lemma TakeOfRecord(s: seq<byte>, o: nat, record: seq<byte>, i: nat, j: nat)
    requires o + |record| <= |s| && s[o..o + |record|] == record && i <= j <= |record|
    ensures Take(s, o + i, j - i) == record[i..j]
  {
    SliceOfSlice(s, o, o + |record|, i, j);
  }

  /** Unpacking what was packed, wherever it is in a stream, returns the values if and only if all
      of them are exact. */
  lemma UnpackPack(items: seq<Item>, vals: seq<Value>, s: seq<byte>, o: nat)
    requires PackedAt(items, vals, s, o)
    ensures Unpacked(items, s, o) == vals <==> AllExact(items, vals)
  {
    hide Encoded, Decoded, Fits, Exact, Take, Item.Size, Packed, Unpacked, PackAll;
    assert |vals| == |items|;
    forall k | 0 <= k < |items| ensures ValueAt(items, s, o, k) == vals[k] <==> Exact(items[k], vals[k]) {
      UnpackOne(items, vals, s, o, k);
      DecodedEncoded(items[k], vals[k]);
    }
    if Unpacked(items, s, o) == vals {
      forall k | 0 <= k < |items| ensures Exact(items[k], vals[k]) {
        assert Unpacked(items, s, o)[k] == ValueAt(items, s, o, k);
      }
    }
  }

  /** The casts on unpacked values. */
  function Num(v: Value): nat
  {
    if v.Number? then v.v else 0
  }

  function Content(v: Value): seq<byte>
  {
    if v.Str? || v.Bytes? then v.s else []
  }
}
