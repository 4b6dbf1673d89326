/** Base-128 integers, most significant group first, each continued prefix standing for one more. */
module VarInt {
  import opened Bits
  import opened ByteOrder

  /** The largest value of an integer type with `k` value bits. */
  function MaxOf(k: nat): nat {
    Pow2(k) - 1
  }

  // ----- the format

  /** The continued groups that make a reader's running value `n`; none at the start. */
  function Continued(n: nat): seq<byte> {
    if n == 0 then [] else Continued((n - 1) / 0x80) + [0x80 + (n - 1) % 0x80]
  }

  /** The bytes of `v`. */
  function Bytes(v: nat): (s: seq<byte>)
    ensures s != []
  {
    Continued(v / 0x80) + [v % 0x80]
  }

  /** Where the length changes, and a value of three bytes. */
  lemma KnownBytes()
    ensures Bytes(0) == [0] && Bytes(0x7F) == [0x7F] && Bytes(0x80) == [0x80, 0x00] && Bytes(0xFF) == [0x80, 0x7F]
    ensures Bytes(0x100) == [0x81, 0x00] && Bytes(0x407F) == [0xFF, 0x7F] && Bytes(0x4080) == [0x80, 0x80, 0x00]
    ensures Bytes(0xFFFF) == [0x82, 0xFE, 0x7F]
  {
  }

  /** One value off the front of a stream: the value and what follows it. */
  datatype Reading = Broken | Done(value: nat, rest: seq<byte>)

  /** Reading on from running value `n`, for a type with `k` value bits. */
  function ReadFrom(k: nat, n: nat, data: seq<byte>): Reading
    decreases |data|
  {
    if n > MaxOf(k) / 0x80 || data == [] then Broken else
      var v := n * 0x80 + data[0] % 0x80;
      if data[0] < 0x80 then Done(v, data[1..])
      else if v == MaxOf(k) then Broken
      else ReadFrom(k, v + 1, data[1..])
  }

  lemma {:induction false} ContinuedThenRead(k: nat, n: nat, data: seq<byte>)
    requires n <= MaxOf(k)
    ensures ReadFrom(k, 0, Continued(n) + data) == ReadFrom(k, n, data)
    decreases n
  {
    if n == 0 {
      assert [] + data == data;
    } else {
      var m, b := (n - 1) / 0x80, 0x80 + (n - 1) % 0x80;
      ContinuedThenRead(k, m, [b] + data);
      assert Continued(n) + data == Continued(m) + ([b] + data);
      assert ([b] + data)[1..] == data;
    }
  }

  /** Every value of the type is read back from its bytes, and what follows is left alone. */
  lemma WrittenIsRead(k: nat, v: nat, more: seq<byte>)
    requires v <= MaxOf(k)
    ensures ReadFrom(k, 0, Bytes(v) + more) == Done(v, more)
  {
    ContinuedThenRead(k, v / 0x80, [v % 0x80] + more);
    assert Bytes(v) + more == Continued(v / 0x80) + ([v % 0x80] + more);
    assert ([v % 0x80] + more)[1..] == more;
  }

  /** Whatever is accepted is the writer's own bytes of a value of the type. */
  lemma {:induction false} ReadIsWritten(k: nat, n: nat, data: seq<byte>)
    requires k >= 7
    ensures var r := ReadFrom(k, n, data);
            r.Done? ==> r.value <= MaxOf(k) && Continued(n) + data == Bytes(r.value) + r.rest
    decreases |data|
  {
    if n <= MaxOf(k) / 0x80 && data != [] {
      var b := data[0] % 0x80;
      var v := n * 0x80 + b;
      assert data == [data[0]] + data[1..];
      GroupsFit(k, n, b);
      if data[0] >= 0x80 {
        ReadIsWritten(k, v + 1, data[1..]);
        assert Continued(v + 1) + data[1..] == Continued(n) + data;
      } else {
        assert Bytes(v) + data[1..] == Continued(n) + data;
      }
    }
  }

  /** A value that passed the size test has room for seven more bits. */
  lemma GroupsFit(k: nat, n: nat, b: nat)
    requires k >= 7 && n <= MaxOf(k) / 0x80 && b < 0x80
    ensures n * 0x80 + b <= MaxOf(k)
  {
    Pow2Values();
    Pow2Add(7, k - 7);
    assert MaxOf(k) == 0x80 * (Pow2(k - 7) - 1) + 0x7F;
  }

  /** A byte string is accepted exactly if it is some value's bytes; so each value has one encoding. */
  lemma AcceptedIffWritten(k: nat, s: seq<byte>)
    requires k >= 7
    ensures ReadFrom(k, 0, s).Done? && ReadFrom(k, 0, s).rest == [] <==> exists v: nat :: v <= MaxOf(k) && s == Bytes(v)
  {
    var r := ReadFrom(k, 0, s);
    ReadIsWritten(k, 0, s);
    assert [] + s == s;
    if r.Done? && r.rest == [] {
      assert s == Bytes(r.value);
    }
    forall v: nat | v <= MaxOf(k) && s == Bytes(v) ensures r == Done(v, []) {
      WrittenIsRead(k, v, []);
      assert s + [] == s;
    }
  }

  // ----- reading

  class InputStream {
    const data: seq<byte>
    var pos: nat
    var bad: bool

    ghost predicate Valid()
      reads this
    {
      pos <= |data|
    }

    ghost function Rest(): seq<byte>
      reads this
      requires Valid()
    {
      data[pos..]
    }

    constructor (data: seq<byte>)
      ensures Valid() && this.data == data && Rest() == data && !bad
    {
      this.data, pos, bad := data, 0, false;
    }

    method ReadByte() returns (ok: bool, b: byte)
      requires Valid()
      modifies this`pos
      ensures Valid()
      ensures ok <==> old(Rest()) != []
      ensures ok ==> b == old(Rest())[0] && Rest() == old(Rest())[1..]
      ensures !ok ==> Rest() == old(Rest())
    {
      if pos == |data| {
        return false, 0;
      }
      pos := pos + 1;
      return true, data[pos - 1];
    }
  }

  /** Read a value of a type with `k` value bits; a failure marks the stream bad. */
  method ReadInteger(input: InputStream, k: nat) returns (ok: bool, val: nat)
    requires input.Valid() && k >= 7
    modifies input
    ensures input.Valid()
    ensures ok <==> ReadFrom(k, 0, old(input.Rest())).Done?
    ensures ok ==> ReadFrom(k, 0, old(input.Rest())) == Done(val, input.Rest()) && input.bad == old(input.bad)
    ensures !ok ==> input.bad
  {
    var n: nat := 0;
    while true
      invariant input.Valid() && input.bad == old(input.bad)
      invariant ReadFrom(k, n, input.Rest()) == ReadFrom(k, 0, old(input.Rest()))
      decreases |input.Rest()|
    {
      if n > MaxOf(k) / 0x80 {
        break;
      }
      var more, byteval := input.ReadByte();
      if !more {
        break;
      }
      OrOfDisjoint(n, byteval % 0x80, 7);
      Pow2Values();
      n := BitOr(n * Pow2(7), byteval % 0x80);
      if byteval >= 0x80 {
        if n == MaxOf(k) {
          break;
        }
        n := n + 1;
      } else {
        return true, n;
      }
    }
    input.bad := true;
    return false, 0;
  }

  // ----- writing

  /** What is written for a value; of a negative one, which never exceeds 0x7F, only the low seven bits. */
  function Written(v: int): seq<byte> {
    if v < 0 then [v % 0x80] else Bytes(v)
  }

  /** Exactly the values of the type that are not negative are read back. */
  lemma ReadBackIff(k: nat, v: int, more: seq<byte>)
    requires v <= MaxOf(k) && k >= 7
    ensures v >= 0 <==> ReadFrom(k, 0, Written(v) + more).Done? && ReadFrom(k, 0, Written(v) + more).value == v
    ensures ReadFrom(k, 0, Written(v) + more) == Done(if v < 0 then v % 0x80 else v, more)
  {
    if v >= 0 {
      WrittenIsRead(k, v, more);
    } else {
      var b: byte := v % 0x80;
      assert ([b] + more)[1..] == more;
    }
  }

  /** The groups of `v` from the end of a buffer made for a type of `w` bits: it is always long enough. */
  method WriteInteger(w: nat, v: int) returns (out: seq<byte>)
    requires v < Pow2(w) && w >= 8
    ensures out == Written(v)
  {
    if v < 0 {
      var last: byte := v % 0x80;
      return [last];
    }
    out := WriteGroups(w, v);
  }

  method WriteGroups(w: nat, v: nat) returns (out: seq<byte>)
    requires v < Pow2(w) && w >= 8
    ensures out == Bytes(v)
  {
    var tempbuf := new byte[(w + 6) / 7];
    var val: nat, pos := v, tempbuf.Length - 1;
    tempbuf[pos] := val % 0x80;
    ghost var bits: nat := w;
    Pow2Values();
    while val > 0x7F
      invariant 0 <= pos < tempbuf.Length && bits <= 7 * (pos + 1)
      invariant 0 <= val < Pow2(bits)
      invariant Bytes(v) == Continued(val / 0x80) + tempbuf[pos..]
      decreases val
    {
      GroupFits(val, bits);
      val, bits := val / 0x80 - 1, bits - 7;
      NextGroup(val, tempbuf[pos..]);
      pos := pos - 1;
      tempbuf[pos] := 0x80 + val % 0x80;
      assert tempbuf[pos..] == [0x80 + val % 0x80] + tempbuf[pos + 1..];
    }
    out := tempbuf[pos..];
    assert Continued(0) + out == out;
  }

  lemma NextGroup(val: nat, s: seq<byte>)
    ensures Continued(val + 1) + s == Continued(val / 0x80) + ([0x80 + val % 0x80] + s)
  {
  }

  /** A value above 0x7F needs more than seven bits, and loses seven. */
  lemma GroupFits(val: nat, bits: nat)
    requires 0x7F < val < Pow2(bits)
    ensures bits > 7 && val / 0x80 < Pow2(bits - 7)
  {
    Pow2Values();
    if bits <= 7 {
      if bits < 7 {
        Pow2Monotone(bits, 7);
      }
    } else {
      Pow2Add(7, bits - 7);
    }
  }
}
