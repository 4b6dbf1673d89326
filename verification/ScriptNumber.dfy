/** Script numbers: little-endian magnitudes whose top bit is the sign. */
module ScriptNumber {
  import opened Bits
  import opened ByteOrder

  // ----- what byte strings stand for

  /** `x` at byte position `n`, x * 256^n. */
  function Place(x: int, n: nat): int {
    if n == 0 then x else 0x100 * Place(x, n - 1)
  }

  lemma {:induction false} PlaceAdds(x: int, y: int, n: nat)
    ensures Place(x + y, n) == Place(x, n) + Place(y, n)
  {
    if n > 0 {
      PlaceAdds(x, y, n - 1);
    }
  }

  lemma {:induction false} PlaceOfZero(n: nat)
    ensures Place(0, n) == 0
  {
    if n > 0 {
      PlaceOfZero(n - 1);
    }
  }

  lemma {:induction false} PlaceMonotone(x: int, y: int, m: nat, n: nat)
    requires 0 <= x <= y && m <= n
    ensures 0 <= Place(x, m) <= Place(y, n)
    ensures x < y ==> Place(x, m) < Place(y, n)
  {
    if m > 0 {
      PlaceMonotone(x, y, m - 1, n - 1);
    } else if n > 0 {
      PlaceMonotone(x, y, m, n - 1);
    }
  }

  lemma {:induction false} PlaceUp(x: int, n: nat)
    ensures Place(0x100 * x, n) == Place(x, n + 1)
  {
    if n > 0 {
      PlaceUp(x, n - 1);
    }
  }

  lemma SignOfEighthByte()
    ensures Place(0x80, 7) == 0x8000_0000_0000_0000
  {
  }

  /** The magnitude of the first `n` bytes, lowest first. */
  function Magnitude(s: seq<byte>, n: nat): int
    requires n <= |s|
  {
    if n == 0 then 0 else Magnitude(s, n - 1) + Place(s[n - 1], n - 1)
  }

  lemma {:induction false} MagnitudeBounds(s: seq<byte>, n: nat)
    requires n <= |s|
    ensures 0 <= Magnitude(s, n) < Place(1, n)
  {
    if n > 0 {
      MagnitudeBounds(s, n - 1);
      PlaceMonotone(0, s[n - 1], n - 1, n - 1);
      PlaceOfZero(n - 1);
      PlaceAdds(s[n - 1], 1, n - 1);
      PlaceMonotone(s[n - 1] as int + 1, 0x100, n - 1, n - 1);
      PlaceUp(1, n - 1);
    }
  }

  lemma {:induction false} SamePrefix(s: seq<byte>, t: seq<byte>, n: nat)
    requires n <= |s| && n <= |t| && s[..n] == t[..n]
    ensures Magnitude(s, n) == Magnitude(t, n)
  {
    if n > 0 {
      assert s[n - 1] == s[..n][n - 1] == t[..n][n - 1] == t[n - 1];
      assert s[..n - 1] == s[..n][..n - 1] == t[..n][..n - 1] == t[..n - 1];
      SamePrefix(s, t, n - 1);
    }
  }

  function Last(s: seq<byte>): byte
    requires s != []
  {
    s[|s| - 1]
  }

  /** The last byte without its sign bit. */
  function Top(b: byte): byte {
    if b < 0x80 then b else b - 0x80
  }

  /** The absolute value a byte string stands for. */
  function Size(s: seq<byte>): int
    requires s != []
  {
    Magnitude(s, |s| - 1) + Place(Top(Last(s)), |s| - 1)
  }

  /** What a byte string stands for: sign and magnitude, the sign in the top bit of the last byte. */
  function Signed(s: seq<byte>): int {
    if s == [] then 0 else if Last(s) < 0x80 then Size(s) else -Size(s)
  }

  /** Bytes count from the lowest up, and the top bit of the last is the sign. */
  lemma KnownNumbers()
    ensures Signed([0x7F]) == 127 && Signed([0x80]) == 0 && Signed([0x81]) == -1 && Signed([0xFF]) == -127
    ensures Signed([0x00, 0x01]) == 256 && Signed([0xFF, 0x00]) == 255 && Signed([0xFF, 0x80]) == -255
    ensures Signed([0x01, 0x02, 0x83]) == -0x03_0201
  {
    assert Magnitude([0x01, 0x02, 0x83], 2) == Magnitude([0x01, 0x02, 0x83], 1) + Place(0x02, 1);
  }

  function Abs(v: int): int {
    if v < 0 then -v else v
  }

  /** The last byte bounds the size from both sides. */
  lemma SizeBounds(s: seq<byte>)
    requires s != []
    ensures Abs(Signed(s)) == Size(s) < Place(0x80, |s| - 1)
    ensures Magnitude(s, |s| - 1) >= 0
    ensures Size(s) >= Magnitude(s, |s| - 1) + if Top(Last(s)) > 0 then Place(1, |s| - 1) else 0
  {
    var n, top := |s| - 1, Top(Last(s));
    MagnitudeBounds(s, n);
    PlaceOfZero(n);
    PlaceMonotone(if top > 0 then 1 else 0, top, n, n);
    PlaceAdds(top, 1, n);
    PlaceMonotone(top + 1, 0x80, n, n);
  }

  // ----- encoding

  datatype Encoding = NegationOverflows | Bytes(s: seq<byte>)

  /** The encoder takes the absolute value, which the most negative number does not have in 64 bits. */
  method EncodeScriptNumber(v: int) returns (r: Encoding)
    requires -0x8000_0000_0000_0000 <= v < 0x8000_0000_0000_0000
    ensures r == NegationOverflows <==> v == -0x8000_0000_0000_0000
    ensures r.Bytes? ==> Signed(r.s) == v && |r.s| <= 8 && forall t :: Signed(t) == v ==> |r.s| <= |t|
  {
    if v == -0x8000_0000_0000_0000 {
      return NegationOverflows;
    }
    var s := BytesOf(v);
    r := Bytes(s);
  }

  /** The bytes of `v` from the lowest up, then room for the sign; no string for `v` is shorter. */
  method BytesOf(v: int) returns (s: seq<byte>)
    requires -0x8000_0000_0000_0000 < v < 0x8000_0000_0000_0000
    ensures Signed(s) == v && |s| <= 8
    ensures forall t :: Signed(t) == v ==> |s| <= |t|
  {
    s := [];
    if v == 0 {
      return;
    }
    var neg := v < 0;
    var absvalue := Abs(v);
    while absvalue > 0
      invariant absvalue >= 0
      invariant Magnitude(s, |s|) + Place(absvalue, |s|) == Abs(v)
      invariant absvalue == 0 ==> s != [] && Last(s) > 0
    {
      var byteValue: byte := absvalue % 0x100;
      SamePrefix(s, s + [byteValue], |s|);
      PlaceAdds(byteValue, 0x100 * (absvalue / 0x100), |s|);
      PlaceUp(absvalue / 0x100, |s|);
      absvalue := absvalue / 0x100;
      s := s + [byteValue];
    }
    PlaceOfZero(|s|);
    s := AddSign(s, neg);
    MinimalIsShort(s);
    forall t | Signed(t) == v ensures |s| <= |t| {
      MinimalIsShortest(s, t);
    }
  }

  /** The sign goes into the top bit of the last byte, or into a byte of its own if that bit is taken. */
  method AddSign(s: seq<byte>, neg: bool) returns (r: seq<byte>)
    requires s != [] && Last(s) > 0
    ensures Signed(r) == if neg then -Magnitude(s, |s|) else Magnitude(s, |s|)
    ensures IsMinimal(r)
  {
    var lastByte := Last(s);
    r := s;
    if lastByte >= 0x80 {
      r := s + [if neg then 0x80 else 0];
      SamePrefix(s, r, |s|);
      PlaceOfZero(|s|);
    } else if neg {
      r := r[..|r| - 1] + [lastByte + 0x80];
      SamePrefix(s, r, |s| - 1);
    }
  }

  /** No byte could be dropped: the last is needed for its magnitude, or as the sign of the one before. */
  predicate IsMinimal(s: seq<byte>) {
    s == [] || Top(Last(s)) > 0 || (|s| > 1 && s[|s| - 2] >= 0x80)
  }

  /** A minimal string of n bytes stands for at least 2^(8n-9) in absolute value. */
  lemma MinimalIsLarge(s: seq<byte>)
    requires IsMinimal(s) && s != []
    ensures Signed(s) != 0
    ensures |s| > 1 ==> Abs(Signed(s)) >= Place(0x80, |s| - 2)
  {
    SizeBounds(s);
    PlaceOfZero(|s| - 1);
    PlaceMonotone(0, 1, |s| - 1, |s| - 1);
    if |s| > 1 {
      SecondByte(s);
    }
  }

  lemma SecondByte(s: seq<byte>)
    requires |s| > 1
    ensures Place(1, |s| - 1) >= Place(0x80, |s| - 2) > 0
    ensures s[|s| - 2] >= 0x80 ==> Magnitude(s, |s| - 1) >= Place(0x80, |s| - 2)
  {
    var n, c := |s| - 2, s[|s| - 2];
    PlaceUp(1, n);
    PlaceOfZero(n);
    PlaceMonotone(0, 0x80, n, n);
    PlaceMonotone(0x80, 0x100, n, n);
    MagnitudeBounds(s, n);
    if c >= 0x80 {
      PlaceMonotone(0x80, c, n, n);
    }
  }

  lemma MinimalIsShort(s: seq<byte>)
    requires IsMinimal(s) && Abs(Signed(s)) < 0x8000_0000_0000_0000
    ensures |s| <= 8
  {
    if |s| > 8 {
      SignOfEighthByte();
      PlaceMonotone(0x80, 0x80, 7, |s| - 2);
      MinimalIsLarge(s);
    }
  }

  /** A minimal string is the shortest of all that stand for its value. */
  lemma MinimalIsShortest(s: seq<byte>, t: seq<byte>)
    requires IsMinimal(s) && Signed(t) == Signed(s)
    ensures |s| <= |t|
  {
    if s != [] {
      MinimalIsLarge(s);
      if t != [] && |t| < |s| {
        PlaceMonotone(0x80, 0x80, |t| - 1, |s| - 2);
        SizeBounds(t);
      }
    }
  }

  // ----- decoding

  /** `x & ~(1 << k)`. */
  function ClearBit(x: nat, k: nat): int {
    if TestBit(x, k) && x >= Pow2(k) then x - Pow2(k) else x
  }

  datatype Decoding = Undefined | AssertionFails | Value(v: int)

  /** Bytes beyond the eighth are harmless only if they are zero: any other is shifted out of range. */
  predicate Shiftable(s: seq<byte>) {
    forall i :: 8 <= i < |s| ==> s[i] == 0
  }

  /** A sign bit in the eighth byte is only a sign if that byte is the last. */
  predicate TooLarge(s: seq<byte>) {
    |s| > 8 && s[7] >= 0x80
  }

  /** The number a string stands for, unless it is too long for its bytes to be joined or its size to be signed. */
  function DecodingOf(s: seq<byte>): Decoding {
    if !Shiftable(s) then Undefined else if TooLarge(s) then AssertionFails else Value(Signed(s))
  }

  method DecodeScriptNumber(s: seq<byte>) returns (r: Decoding)
    ensures r == DecodingOf(s)
  {
    if s == [] {
      return Value(0);
    }
    var tempval: nat := 0;
    for i := 0 to |s|
      invariant forall j :: 8 <= j < i ==> s[j] == 0
      invariant tempval == Magnitude(s, if i < 8 then i else 8)
    {
      if s[i] > 0 {
        if i >= 8 {
          return Undefined;
        }
        OrByte(s, i);
        tempval := BitOr(tempval, s[i] * Pow2(8 * i));
      } else if i < 8 {
        PlaceOfZero(i);
      }
    }
    if Last(s) >= 0x80 {
      SignBitCleared(s);
      return Value(-ClearBit(tempval, 8 * (|s| - 1) + 7));
    }
    UnsignedString(s);
    if tempval > 0x7FFF_FFFF_FFFF_FFFF {
      return AssertionFails;
    }
    return Value(tempval);
  }

  /** Without a sign, the joined bytes are the number, and the eighth byte decides whether it fits. */
  lemma UnsignedString(s: seq<byte>)
    requires s != [] && Last(s) < 0x80 && Shiftable(s)
    ensures var m := Magnitude(s, if |s| < 8 then |s| else 8);
            m == Signed(s) && (m >= 0x8000_0000_0000_0000 <==> TooLarge(s))
  {
    SignOfEighthByte();
    if |s| <= 8 {
      SizeBounds(s);
      PlaceMonotone(0x80, 0x80, |s| - 1, 7);
    } else {
      NothingAbove(s, 8, |s|);
      EighthByteDecides(s);
    }
  }

  lemma {:induction false} NothingAbove(s: seq<byte>, m: nat, n: nat)
    requires m <= n <= |s| && forall i :: m <= i < n ==> s[i] == 0
    ensures Magnitude(s, n) == Magnitude(s, m)
  {
    if m < n {
      NothingAbove(s, m, n - 1);
      PlaceOfZero(n - 1);
    }
  }

  lemma EighthByteDecides(s: seq<byte>)
    requires |s| >= 8
    ensures Magnitude(s, 8) >= Place(0x80, 7) <==> s[7] >= 0x80
  {
    MagnitudeBounds(s, 7);
    PlaceOfZero(7);
    if s[7] >= 0x80 {
      PlaceMonotone(0x80, s[7], 7, 7);
    } else {
      PlaceAdds(s[7], 1, 7);
      PlaceMonotone(s[7] as int + 1, 0x80, 7, 7);
    }
  }

  /** Nine bytes for 2^63 trip the assertion. */
  lemma NineByteString()
    ensures DecodingOf([0, 0, 0, 0, 0, 0, 0, 0x80, 0]) == AssertionFails
  {
  }

  lemma {:induction false} PlaceIsShift(x: nat, n: nat)
    ensures Place(x, n) == x * Pow2(8 * n)
  {
    if n > 0 {
      PlaceIsShift(x, n - 1);
      Pow2Values();
      Pow2Add(8, 8 * (n - 1));
      Regroup(x, Pow2(8 * (n - 1)));
    }
  }

  lemma Regroup(x: int, p: int)
    ensures 0x100 * (x * p) == x * (0x100 * p)
  {
  }

  /** A byte joined in above the others is a byte appended. */
  lemma OrByte(s: seq<byte>, i: nat)
    requires i < |s|
    ensures Magnitude(s, i) >= 0 && BitOr(Magnitude(s, i), s[i] * Pow2(8 * i)) == Magnitude(s, i + 1)
  {
    MagnitudeBounds(s, i);
    PlaceIsShift(s[i], i);
    PlaceIsShift(1, i);
    OrOfDisjoint(s[i], Magnitude(s, i), 8 * i);
  }

  lemma ClearTop(n: nat, k: nat)
    requires Pow2(k) <= n < 2 * Pow2(k)
    ensures ClearBit(n, k) == n - Pow2(k)
  {
    var q := Shr(n, k);
    ShrBounds(n, k);
    FactorOrder(q, 2, Pow2(k));
    FactorOrder(1, q + 1, Pow2(k));
  }

  lemma FactorOrder(a: nat, b: nat, p: nat)
    requires a * p < b * p
    ensures a < b
  {
    if a >= b {
      MulMonotone(b, a, p);
    }
  }

  lemma SignBitCleared(s: seq<byte>)
    requires s != [] && Last(s) >= 0x80
    ensures Magnitude(s, |s|) >= 0 && ClearBit(Magnitude(s, |s|), 8 * (|s| - 1) + 7) == -Signed(s)
  {
    var n, b := |s| - 1, Last(s);
    SizeBounds(s);
    PlaceAdds(Top(b), 0x80, n);
    PlaceOfSign(n);
    ClearTop(Magnitude(s, |s|), 8 * n + 7);
  }

  lemma PlaceOfSign(n: nat)
    ensures Place(0x80, n) == Pow2(8 * n + 7)
  {
    PlaceIsShift(0x80, n);
    Pow2Values();
    Pow2Add(7, 8 * n);
  }

  /** What was encoded is decoded, for every number but the most negative. */
  method RoundTrip(v: int) returns (r: Decoding)
    requires -0x8000_0000_0000_0000 <= v < 0x8000_0000_0000_0000
    ensures r == Value(v) <==> v != -0x8000_0000_0000_0000
  {
    var encoding := EncodeScriptNumber(v);
    if encoding.NegationOverflows? {
      return Undefined;
    }
    r := DecodeScriptNumber(encoding.s);
    ShortIsDecoded(encoding.s);
  }

  lemma ShortIsDecoded(s: seq<byte>)
    requires |s| <= 8
    ensures DecodingOf(s) == Value(Signed(s))
  {
  }

  // ----- truth values

  lemma {:induction false} ZeroMagnitude(s: seq<byte>, n: nat)
    requires n <= |s|
    ensures Magnitude(s, n) == 0 <==> forall i :: 0 <= i < n ==> s[i] == 0
  {
    if n > 0 {
      ZeroMagnitude(s, n - 1);
      MagnitudeBounds(s, n - 1);
      PlaceOfZero(n - 1);
      PlaceMonotone(0, s[n - 1], n - 1, n - 1);
    }
  }

  /** Zero has many encodings: any number of zero bytes, the last one possibly carrying a sign. */
  lemma ZeroStrings(s: seq<byte>)
    requires s != []
    ensures Signed(s) == 0 <==> Top(Last(s)) == 0 && forall i :: 0 <= i < |s| - 1 ==> s[i] == 0
  {
    SizeBounds(s);
    ZeroMagnitude(s, |s| - 1);
    PlaceOfZero(|s| - 1);
    PlaceMonotone(0, 1, |s| - 1, |s| - 1);
  }

  /** A string is true exactly when it is not a zero of either sign, whatever its length. */
  method GetBoolValue(s: seq<byte>) returns (val: bool)
    ensures val <==> Signed(s) != 0
  {
    val := false;
    if s != [] {
      ZeroStrings(s);
    }
    for i := 0 to |s|
      invariant !val
      invariant forall j :: 0 <= j < i ==> s[j] == 0
    {
      if s[i] != 0 {
        val := i != |s| - 1 || s[i] != 0x80;
        break;
      }
    }
  }
}
