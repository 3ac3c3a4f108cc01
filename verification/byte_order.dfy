/** Byte-level helpers of the converter: the little-endian layout of
    `BitConverter` (fixed here; the host byte order is not modelled), the
    in-place `ReverseArray`, and the big-endian reading they combine into. */
module ByteOrder {
  import opened Common

  /** `BitConverter.GetBytes(uint)` on a little-endian host: least
      significant byte first. */
  function ToLittleEndian(v: bv32): (r: seq<bv8>)
    ensures |r| == 4
  {
    [ (v & 0xFF) as bv8, ((v >> 8) & 0xFF) as bv8,
      ((v >> 16) & 0xFF) as bv8, (v >> 24) as bv8 ]
  }

  /** The four bytes `b` read back as a little-endian `uint`. */
  function FromLittleEndian(b: seq<bv8>): bv32
    requires |b| == 4
  {
    b[0] as bv32 | (b[1] as bv32 << 8) | (b[2] as bv32 << 16) | (b[3] as bv32 << 24)
  }

  /** Encoding a word and decoding it gives the word back. */
  lemma DecodeEncode(v: bv32)
    ensures FromLittleEndian(ToLittleEndian(v)) == v
  {
  }

  /** Every four-byte sequence is the encoding of the word it decodes to. */
  lemma EncodeDecode(b: seq<bv8>)
    requires |b| == 4
    ensures ToLittleEndian(FromLittleEndian(b)) == b
  {
  }

  /** `BitConverter.ToUInt32(b, 0)`: the first four bytes, little-endian.
      An empty array fails the index check, a shorter one the length check. */
  function ToUInt32(b: seq<bv8>): (r: Result<bv32, Exception>)
    ensures |b| == 0 <==> r == Failure(ArgumentOutOfRange)
    ensures 0 < |b| < 4 <==> r == Failure(Argument)
    ensures |b| >= 4 ==> r == Success(FromLittleEndian(b[..4]))
  {
    if |b| == 0 then Failure(ArgumentOutOfRange)
    else if |b| < 4 then Failure(Argument)
    else Success(FromLittleEndian(b[..4]))
  }

  /** The reversal of a sequence, as a reference for `ReverseArray`. */
  function Reverse<T>(s: seq<T>): (r: seq<T>)
    ensures |r| == |s|
    ensures forall i :: 0 <= i < |s| ==> r[i] == s[|s| - 1 - i]
  {
    if s == [] then [] else Reverse(s[1..]) + [s[0]]
  }

  /** Reversing twice is the identity. */
  lemma {:induction false} ReverseInvolution<T>(s: seq<T>)
    ensures Reverse(Reverse(s)) == s
  {
    var r := Reverse(Reverse(s));
    assert |r| == |s|;
    forall i | 0 <= i < |s|
      ensures r[i] == s[i]
    {
      assert r[i] == Reverse(s)[|s| - 1 - i];
    }
  }

  /** `ReverseArray`: swaps element `i` with element `Length - i - 1` for
      every `i` below half the length. */
  method ReverseArray(a: seq<bv8>) returns (r: seq<bv8>)
    ensures |r| == |a|
    ensures forall i :: 0 <= i < |a| ==> r[i] == a[|a| - 1 - i]
    ensures r == Reverse(a)
  {
    r := a;
    var n := |a|;
    var i := 0;
    while i < n / 2
      invariant 0 <= i <= n / 2 && |r| == n
      invariant forall k :: 0 <= k < i ==> r[k] == a[n - 1 - k]
      invariant forall k :: n - i <= k < n ==> r[k] == a[n - 1 - k]
      invariant forall k :: i <= k < n - i ==> r[k] == a[k]
    {
      var tmp := r[i];
      r := r[i := r[n - i - 1]];
      r := r[n - i - 1 := tmp];
      i := i + 1;
    }
  }

  /** The unsigned value of four bytes, most significant first. */
  function BigEndianU32(b: seq<bv8>): (r: u32)
    requires |b| == 4
  {
    b[0] as int * 0x100_0000 + b[1] as int * 0x1_0000 + b[2] as int * 0x100 + b[3] as int
  }

  lemma LittleEndianValue(b0: bv8, b1: bv8, b2: bv8, b3: bv8)
    ensures (b0 as bv32 | (b1 as bv32 << 8) | (b2 as bv32 << 16) | (b3 as bv32 << 24)) as int
      == b3 as int * 0x100_0000 + b2 as int * 0x1_0000 + b1 as int * 0x100 + b0 as int
  {
  }

  /** Reversing four bytes and reading them little-endian, as the converter
      does with `ToUInt32(ReverseArray(..))`, reads them big-endian. */
  lemma {:induction false} ReversedLittleEndianIsBigEndian(b: seq<bv8>)
    requires |b| == 4
    ensures FromLittleEndian(Reverse(b)) as int == BigEndianU32(b)
  {
    var r := Reverse(b);
    assert r[0] == b[3] && r[1] == b[2] && r[2] == b[1] && r[3] == b[0];
    var w := b[3] as bv32 | (b[2] as bv32 << 8) | (b[1] as bv32 << 16) | (b[0] as bv32 << 24);
    assert FromLittleEndian(r) == w;
    LittleEndianValue(b[3], b[2], b[1], b[0]);
    assert w as int == BigEndianU32(b);
  }
}
