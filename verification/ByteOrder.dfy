/** Little-endian 32-bit words as bytes. */
module ByteOrder {

  type byte = x: int | 0 <= x < 0x100

  type dword = x: int | 0 <= x < 0x1_0000_0000

  function Zeros(n: nat): (z: seq<byte>)
    ensures |z| == n && forall i :: 0 <= i < n ==> z[i] == 0
  {
    if n == 0 then [] else [0] + Zeros(n - 1)
  }

  function FromDword(n: dword): (b: seq<byte>)
    ensures |b| == 4
  {
    [n % 0x100, n / 0x100 % 0x100, n / 0x1_0000 % 0x100, n / 0x100_0000]
  }

  function ToDword(b: seq<byte>): dword
    requires |b| == 4
  {
    b[0] as int + 0x100 * b[1] as int + 0x1_0000 * b[2] as int + 0x100_0000 * b[3] as int
  }

  /** The lowest byte comes first. */
  lemma LowestByteFirst(n: dword)
    ensures FromDword(n)[0] == n % 0x100 && FromDword(n)[3] == n / 0x100_0000
    ensures ToDword([0x78, 0x56, 0x34, 0x12]) == 0x1234_5678 && FromDword(0x1234_5678) == [0x78, 0x56, 0x34, 0x12]
  {
  }

  lemma DwordRoundTrip(n: dword)
    ensures ToDword(FromDword(n)) == n
  {
    var q := n / 0x100;
    var r := q / 0x100;
    assert n / 0x1_0000 == r && n / 0x100_0000 == r / 0x100;
  }

  lemma BytesRoundTrip(b: seq<byte>)
    requires |b| == 4
    ensures FromDword(ToDword(b)) == b
  {
    var n := ToDword(b);
    assert n % 0x100 == b[0] && n / 0x100 == b[1] as int + 0x100 * b[2] as int + 0x1_0000 * b[3] as int;
    assert n / 0x1_0000 == b[2] as int + 0x100 * b[3] as int && n / 0x100_0000 == b[3];
    assert n / 0x100 % 0x100 == b[1] && n / 0x1_0000 % 0x100 == b[2];
  }
}
