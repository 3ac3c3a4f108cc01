/** Reading the pixel size of the companion PNG image: the eight-byte PNG
    signature (section 5.2 of the PNG Specification, Second Edition), then,
    past the IHDR chunk's length and type fields, the IHDR width and height
    as four-byte big-endian integers (section 11.2.2). */
module PngHeader {
  import opened Common
  import opened ByteOrder

  const PngSignature: seq<bv8> := [0x89, 0x50, 0x4E, 0x47, 0x0D, 0x0A, 0x1A, 0x0A]

  /** How the signature loop ends: all eight bytes equal, a byte differs
      (the `break`), or the loop indexes past a file shorter than eight
      bytes whose bytes all matched (an uncaught IndexOutOfRangeException). */
  datatype SignatureVerdict = Matches | Differs | RanOut

  /** The signature loop from index `i` on `test`, the at most eight bytes
      `ReadBytes(8)` returned, its first `i` bytes already compared. */
  function CheckSignatureFrom(test: seq<bv8>, i: nat): (v: SignatureVerdict)
    requires i <= |test| <= 8
    ensures v == Matches <==> |test| >= 8 && test[i..8] == PngSignature[i..8]
    ensures v == Differs <==> exists j :: i <= j < 8 && j < |test| && test[j] != PngSignature[j]
    ensures v == RanOut <==>
      |test| < 8 && forall j :: i <= j < |test| ==> test[j] == PngSignature[j]
    decreases 8 - i
  {
    if i == 8 then Matches
    else if i >= |test| then RanOut
    else if test[i] != PngSignature[i] then
      assert |test| == 8 ==> test[i..8][0] != PngSignature[i..8][0];
      Differs
    else
      var v := CheckSignatureFrom(test, i + 1);
      assert |test| == 8 ==> test[i..8] == [test[i]] + test[i + 1..8];
      assert PngSignature[i..8] == [PngSignature[i]] + PngSignature[i + 1..8];
      v
  }

  /** What the probe found: no file, a file that is not a PNG image
      (`isPng` false in both cases), or a PNG image's width and height. */
  datatype ImageInfo = Missing | NotPng | Png(width: u32, height: u32)

  /** `binaryReader.ReadBytes(n)` at position `from`: whatever is left, at most `n` bytes. */
  function ReadAt(bytes: seq<bv8>, from: nat, n: nat): (r: seq<bv8>)
    ensures |r| <= n
    ensures from + n <= |bytes| ==> r == bytes[from..from + n]
    ensures from < |bytes| < from + n ==> r == bytes[from..]
    ensures from >= |bytes| ==> r == []
  {
    if from >= |bytes| then []
    else if from + n <= |bytes| then bytes[from..from + n]
    else bytes[from..]
  }

  /** One big-endian `uint` read: reverse the four bytes, then
      `BitConverter.ToUInt32` them little-endian. */
  function ReadBigEndian(bytes: seq<bv8>, from: nat): (r: Result<u32, Exception>)
    ensures r.Success? <==> from + 4 <= |bytes|
    ensures r.Success? ==> r.value == BigEndianU32(bytes[from..from + 4])
  {
    var raw := ReadAt(bytes, from, 4);
    var reversed := Reverse(raw);
    if |raw| < 4 then
      Failure(ToUInt32(reversed).error)
    else
      assert reversed[..4] == reversed;
      ReversedLittleEndianIsBigEndian(raw);
      Success(FromLittleEndian(reversed) as int)
  }

  /** The exception a file of `length < 24` bytes that agrees with the
      signature throws: the signature loop indexes past a file shorter than
      eight bytes; otherwise the width read (at byte 16) or the height read
      (at byte 20) gets no bytes at all or one to three of them. */
  function ShortFileError(length: nat): Exception {
    if length < 8 then IndexOutOfRange
    else if length <= 16 || length == 20 then ArgumentOutOfRange
    else Argument
  }

  /** The header probe on the companion file's contents (`None` when the
      file does not exist). */
  function ProbeImage(file: Option<seq<bv8>>): (r: Result<ImageInfo, Exception>)
    ensures r == Success(Missing) <==> file.None?
    ensures r == Success(NotPng) <==>
      file.Some? && exists j :: 0 <= j < 8 && j < |file.value| && file.value[j] != PngSignature[j]
    ensures r.Success? && r.value.Png? <==>
      file.Some? && |file.value| >= 24 && file.value[..8] == PngSignature
    ensures r.Success? && r.value.Png? ==>
      r.value.width == BigEndianU32(file.value[16..20]) &&
      r.value.height == BigEndianU32(file.value[20..24])
    ensures r.Failure? <==>
      file.Some? && |file.value| < 24 &&
      forall j :: 0 <= j < 8 && j < |file.value| ==> file.value[j] == PngSignature[j]
    ensures r.Failure? ==> r.error == ShortFileError(|file.value|)
  {
    match file
    case None => Success(Missing)
    case Some(bytes) =>
      var test := ReadAt(bytes, 0, 8);
      assert |bytes| >= 8 ==> test[0..8] == bytes[..8];
      match CheckSignatureFrom(test, 0)
      case Differs => Success(NotPng)
      case RanOut => Failure(IndexOutOfRange)
      case Matches =>
        match ReadBigEndian(bytes, 16)
        case Failure(e) => Failure(e)
        case Success(width) =>
          match ReadBigEndian(bytes, 20)
          case Failure(e) => Failure(e)
          case Success(height) => Success(Png(width, height))
  }

  /** A file too short for its own signature but agreeing with it as far as
      it goes makes the signature loop index past the end. */
  lemma TruncatedSignatureCrashes(bytes: seq<bv8>)
    requires |bytes| < 8 && bytes == PngSignature[..|bytes|]
    ensures ProbeImage(Some(bytes)) == Failure(IndexOutOfRange)
  {
    var test := ReadAt(bytes, 0, 8);
    assert test == bytes;
    assert forall j :: 0 <= j < |test| ==> test[j] == PngSignature[j];
  }
}
