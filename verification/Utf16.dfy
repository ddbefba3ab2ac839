/** The UTF-16LE credential codec: sections 2.1 and 2.2 of RFC 2781 over little-endian bytes. */
module Utf16 {

  type Byte = x: int | 0 <= x < 0x100
  type Unit = x: int | 0 <= x < 0x1_0000

  /** A Unicode scalar value, the runes of a valid Go string. */
  predicate IsScalar(r: int) {
    0 <= r <= 0x10_FFFF && !(0xD800 <= r <= 0xDFFF)
  }

  ghost predicate AllScalars(s: seq<int>) {
    forall i :: 0 <= i < |s| ==> IsScalar(s[i])
  }

  const REPLACEMENT := 0xFFFD

  // ---------------------------------------------------------------------------
  // Code units
  // ---------------------------------------------------------------------------

  /** The units of one rune; anything that is not a scalar value becomes U+FFFD. */
  function UnitsOf(r: int): seq<Unit> {
    if !IsScalar(r) then [REPLACEMENT]
    else if r < 0x1_0000 then [r]
    else [0xD800 + (r - 0x1_0000) / 0x400, 0xDC00 + (r - 0x1_0000) % 0x400]
  }

  /** `utf16.Encode`. */
  function Encode(s: seq<int>): seq<Unit> {
    if s == [] then [] else UnitsOf(s[0]) + Encode(s[1..])
  }

  predicate IsHigh(u: int) {
    0xD800 <= u < 0xDC00
  }

  predicate IsLow(u: int) {
    0xDC00 <= u < 0xE000
  }

  /** A surrogate pair at the front. */
  predicate StartsWithPair(u: seq<Unit>) {
    |u| >= 2 && IsHigh(u[0]) && IsLow(u[1])
  }

  /** `utf16.Decode`: a pair gives one rune, an unpaired surrogate U+FFFD. */
  function Decode(u: seq<Unit>): seq<int>
    decreases |u|
  {
    if u == [] then []
    else if StartsWithPair(u) then [(u[0] - 0xD800) * 0x400 + (u[1] - 0xDC00) + 0x1_0000] + Decode(u[2..])
    else if IsHigh(u[0]) || IsLow(u[0]) then [REPLACEMENT] + Decode(u[1..])
    else [u[0]] + Decode(u[1..])
  }

  lemma DecodeFirst(r: int, rest: seq<Unit>)
    requires IsScalar(r)
    ensures Decode(UnitsOf(r) + rest) == [r] + Decode(rest)
  {
    var u := UnitsOf(r) + rest;
    if r < 0x1_0000 {
      assert u[1..] == rest;
    } else {
      assert u[2..] == rest;
      var v := r - 0x1_0000;
      assert v / 0x400 * 0x400 + v % 0x400 == v;
    }
  }

  lemma {:induction false} DecodeEncode(s: seq<int>)
    requires AllScalars(s)
    ensures Decode(Encode(s)) == s
    decreases |s|
  {
    if s != [] {
      DecodeFirst(s[0], Encode(s[1..]));
      DecodeEncode(s[1..]);
    }
  }

  /** No surrogate without its partner. */
  predicate WellPaired(u: seq<Unit>)
    decreases |u|
  {
    u == [] ||
    (if StartsWithPair(u) then WellPaired(u[2..]) else !IsHigh(u[0]) && !IsLow(u[0]) && WellPaired(u[1..]))
  }

  /** Encoding back what was decoded gives the units again exactly when every surrogate is paired. */
  lemma {:induction false} EncodeDecodeIff(u: seq<Unit>)
    ensures |Encode(Decode(u))| == |u|
    ensures Encode(Decode(u)) == u <==> WellPaired(u)
    decreases |u|
  {
    if u != [] {
      var n := if StartsWithPair(u) then 2 else 1;
      EncodeDecodeIff(u[n..]);
      var d := Decode(u);
      assert d[1..] == Decode(u[n..]);
      assert Encode(d) == UnitsOf(d[0]) + Encode(Decode(u[n..]));
      UnitsOfDecoded(u, d[0]);
      assert u == u[..n] + u[n..];
      assert Encode(d)[n..] == Encode(Decode(u[n..])) && Encode(d)[..n] == UnitsOf(d[0]);
    }
  }

  lemma UnitsOfDecoded(u: seq<Unit>, r: int)
    requires u != []
    requires r == if StartsWithPair(u) then (u[0] - 0xD800) * 0x400 + (u[1] - 0xDC00) + 0x1_0000
                  else if IsHigh(u[0]) || IsLow(u[0]) then REPLACEMENT else u[0]
    ensures if StartsWithPair(u) then UnitsOf(r) == u[..2]
            else |UnitsOf(r)| == 1 && (UnitsOf(r) == u[..1] <==> !IsHigh(u[0]) && !IsLow(u[0]))
  {
    if StartsWithPair(u) {
      var v := r - 0x1_0000;
      var high: int, low: int := u[0] - 0xD800, u[1] - 0xDC00;
      assert v == high * 0x400 + low;
      assert v / 0x400 == high && v % 0x400 == low;
    }
  }

  /** Supplementary scalars of a text. */
  function Supplementary(s: seq<int>): nat {
    if s == [] then 0 else (if s[0] >= 0x1_0000 then 1 else 0) + Supplementary(s[1..])
  }

  lemma {:induction false} EncodeLength(s: seq<int>)
    requires AllScalars(s)
    ensures |Encode(s)| == |s| + Supplementary(s)
    decreases |s|
  {
    if s != [] {
      EncodeLength(s[1..]);
    }
  }

  // ---------------------------------------------------------------------------
  // Bytes
  // ---------------------------------------------------------------------------

  /** Two bytes per unit, low byte first. */
  function ToBytes(u: seq<Unit>): (b: seq<Byte>)
    ensures |b| == 2 * |u|
    ensures forall i :: 0 <= i < |u| ==> b[2 * i] == u[i] % 0x100 && b[2 * i + 1] == u[i] / 0x100
  {
    seq(2 * |u|, k requires 0 <= k < 2 * |u| => if k % 2 == 0 then u[k / 2] % 0x100 else u[k / 2] / 0x100)
  }

  /** The unit of a byte pair. */
  function Pair(low: Byte, high: Byte): Unit {
    var l: int, h: int := low, high;
    l + h * 0x100
  }

  lemma PairSplits(low: Byte, high: Byte)
    ensures Pair(low, high) % 0x100 == low && Pair(low, high) / 0x100 == high
  {
  }

  lemma SplitPairs(u: Unit)
    ensures Pair(u % 0x100, u / 0x100) == u
  {
  }

  /** The units of the complete byte pairs; an odd trailing byte is dropped. */
  function FromBytes(b: seq<Byte>): (u: seq<Unit>)
    ensures |u| == |b| / 2
    ensures forall i :: 0 <= i < |u| ==> u[i] == Pair(b[2 * i], b[2 * i + 1])
  {
    seq(|b| / 2, i requires 0 <= i < |b| / 2 => Pair(b[2 * i], b[2 * i + 1]))
  }

  function EncodeBytes(s: seq<int>): seq<Byte> {
    ToBytes(Encode(s))
  }

  function DecodeBytes(b: seq<Byte>): seq<int> {
    Decode(FromBytes(b))
  }

  /** `encodeUTF16Bytes`. */
  method EncodeUtf16Bytes(s: seq<int>) returns (buf: array<Byte>)
    ensures fresh(buf) && buf[..] == EncodeBytes(s)
  {
    hide Encode;
    var runes := Encode(s);
    buf := new Byte[|runes| * 2];
    for i := 0 to |runes|
      invariant forall k :: 0 <= k < i ==> buf[2 * k] == runes[k] % 0x100 && buf[2 * k + 1] == runes[k] / 0x100
    {
      var r := runes[i];
      buf[i * 2] := r % 0x100;
      buf[i * 2 + 1] := r / 0x100;
    }
    SameBytes(buf[..], ToBytes(runes), runes);
  }

  /** Byte sequences with the same pairs are equal. */
  lemma SameBytes(a: seq<Byte>, b: seq<Byte>, u: seq<Unit>)
    requires |a| == |b| == 2 * |u|
    requires forall k :: 0 <= k < |u| ==> a[2 * k] == b[2 * k] && a[2 * k + 1] == b[2 * k + 1]
    ensures a == b
  {
    forall k | 0 <= k < |a|
      ensures a[k] == b[k]
    {
      assert k == 2 * (k / 2) || k == 2 * (k / 2) + 1;
    }
  }

  /** `decodeUTF16Bytes`. */
  method DecodeUtf16Bytes(b: array<Byte>) returns (s: seq<int>)
    ensures s == DecodeBytes(b[..])
  {
    hide Decode;
    var n := b.Length;
    if n % 2 != 0 {
      n := n - 1;
    }
    var u16 := new Unit[n / 2];
    for i := 0 to n / 2
      invariant forall k :: 0 <= k < i ==> u16[k] == Pair(b[2 * k], b[2 * k + 1])
    {
      var low: int, high: int := b[i * 2], b[i * 2 + 1];
      u16[i] := low + high * 0x100;
    }
    assert u16[..] == FromBytes(b[..]);
    return Decode(u16[..]);
  }

  lemma BytesRoundTrip(u: seq<Unit>)
    ensures FromBytes(ToBytes(u)) == u
  {
    var b := ToBytes(u);
    forall i | 0 <= i < |u|
      ensures FromBytes(b)[i] == u[i]
    {
      SplitPairs(u[i]);
    }
  }

  /** Decoding the encoding gives the text back, surrogate pairs included. */
  lemma RoundTrip(s: seq<int>)
    requires AllScalars(s)
    ensures DecodeBytes(EncodeBytes(s)) == s
  {
    BytesRoundTrip(Encode(s));
    DecodeEncode(s);
  }

  /** Two bytes per scalar below U+10000 and four per supplementary scalar. */
  lemma EncodedSize(s: seq<int>)
    requires AllScalars(s)
    ensures |EncodeBytes(s)| == 2 * (|s| - Supplementary(s)) + 4 * Supplementary(s)
  {
    EncodeLength(s);
  }

  /** One more trailing byte after an even number does not change the decoding. */
  lemma TrailingByteIgnored(b: seq<Byte>, extra: Byte)
    requires |b| % 2 == 0
    ensures DecodeBytes(b + [extra]) == DecodeBytes(b)
  {
    var c := b + [extra];
    assert |c| / 2 == |b| / 2;
    assert FromBytes(c) == FromBytes(b);
  }

  /** A stored blob survives being read and written again exactly when it has no odd byte and no unpaired surrogate. */
  lemma BlobRoundTripIff(b: seq<Byte>)
    ensures EncodeBytes(DecodeBytes(b)) == b <==> |b| % 2 == 0 && WellPaired(FromBytes(b))
  {
    var u := FromBytes(b);
    EncodeDecodeIff(u);
    BytesRoundTrip(Encode(Decode(u)));
    if |b| % 2 == 0 {
      PairsOf(b);
    }
  }

  lemma PairsOf(b: seq<Byte>)
    requires |b| % 2 == 0
    ensures ToBytes(FromBytes(b)) == b
  {
    hide Pair;
    var u := FromBytes(b);
    forall k | 0 <= k < |u|
      ensures ToBytes(u)[2 * k] == b[2 * k] && ToBytes(u)[2 * k + 1] == b[2 * k + 1]
    {
      PairSplits(b[2 * k], b[2 * k + 1]);
    }
    SameBytes(ToBytes(u), b, u);
  }

  /** The bytes of a text, scalar by scalar, in numbers. */
  lemma EncodedFirst(r: int, rest: seq<int>)
    requires IsScalar(r)
    ensures EncodeBytes([r] + rest)
            == (if r < 0x1_0000 then [r % 0x100, r / 0x100]
                else
                  var high, low := 0xD800 + (r - 0x1_0000) / 0x400, 0xDC00 + (r - 0x1_0000) % 0x400;
                  [high % 0x100, high / 0x100, low % 0x100, low / 0x100])
               + EncodeBytes(rest)
  {
    assert ([r] + rest)[1..] == rest;
    var front := UnitsOf(r);
    BytesAppend(front, Encode(rest));
    assert ToBytes([front[0]]) == [front[0] % 0x100, front[0] / 0x100];
    if r >= 0x1_0000 {
      BytesAppend([front[0]], [front[1]]);
      assert front == [front[0]] + [front[1]];
      assert ToBytes([front[1]]) == [front[1] % 0x100, front[1] / 0x100];
    }
  }

  lemma BytesAppend(a: seq<Unit>, b: seq<Unit>)
    ensures ToBytes(a + b) == ToBytes(a) + ToBytes(b)
  {
    var c := a + b;
    var x, y, z := ToBytes(a), ToBytes(b), ToBytes(c);
    hide ToBytes;
    forall k | 0 <= k < |c|
      ensures z[2 * k] == (x + y)[2 * k] && z[2 * k + 1] == (x + y)[2 * k + 1]
    {
      assert z[2 * k] == c[k] % 0x100 && z[2 * k + 1] == c[k] / 0x100;
      if k < |a| {
        assert x[2 * k] == a[k] % 0x100 && x[2 * k + 1] == a[k] / 0x100;
      } else {
        var j := k - |a|;
        assert y[2 * j] == b[j] % 0x100 && y[2 * j + 1] == b[j] / 0x100;
      }
    }
    SameBytes(z, x + y, c);
  }

  /** An unpaired surrogate, and a rune that is none, become U+FFFD, and what follows is read on from there. */
  lemma BrokenBecomesReplacement(u: Unit, rest: seq<Unit>, r: int)
    requires 0xD800 <= u <= 0xDFFF && !(u <= 0xDBFF && rest != [] && 0xDC00 <= rest[0] <= 0xDFFF) && !IsScalar(r)
    ensures Decode([u] + rest) == [0xFFFD] + Decode(rest)
    ensures EncodeBytes([r]) == [0xFD, 0xFF]
  {
    assert ([u] + rest)[1..] == rest;
    assert Encode([r]) == [0xFFFD] + [];
    assert EncodeBytes([r]) == ToBytes([0xFFFD]);
    assert ToBytes([0xFFFD]) == [0xFD, 0xFF];
  }
}
