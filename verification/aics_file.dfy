/**
 * AICSFile: an intent capture session, a fixed file header followed by the
 * captured intents. The class keeps the packets in a list; the file header
 * holds a magic number, the format version and the Android version the
 * intents were captured on, and encodes to a fixed 96-byte block.
 */
module AicsFile {
  import opened Wrappers
  import opened ByteOrder
  import IntentPacket

  /** 0xA1B2C3D4 as a Java `int`: the literal's bit pattern, a negative value. */
  const MAGIC_NUMBER: Int32 := 0xA1B2C3D4 - TWO_32
  const FORMAT_MAJOR_VERSION: Int16 := 0
  const FORMAT_MINOR_VERSION: Int16 := 1

  /** The bytes `allocate` reserves for the file header; only the first 12 are written. */
  const FILE_HEADER_BYTES: nat := 96
  const FILE_HEADER_WRITTEN: nat := 12

  /** The members of the file header that vary: the Android version. */
  datatype FileHeader = FileHeader(androidMajor: Int16, androidMinor: Int8, androidPatch: Int8)

  /** The intent list; like the `ArrayList` behind it, it holds null entries (`None`) as readily as packets. */
  datatype CaptureFile = CaptureFile(fileHeader: FileHeader, intents: seq<Option<IntentPacket.Packet>>)

  /** The constructor: a file header with the given Android version and no intents. */
  function New(major: Int16, minor: Int8, patch: Int8): (f: CaptureFile)
    ensures Size(f) == 0
    ensures f.fileHeader.androidMajor == major && f.fileHeader.androidMinor == minor
    ensures f.fileHeader.androidPatch == patch
  {
    CaptureFile(FileHeader(major, minor, patch), [])
  }

  /** `size()`: how many intents the file holds, null entries included: exactly the indices `getIntent` accepts. */
  function Size(f: CaptureFile): (n: nat)
    ensures forall index: Int32 :: GetIntent(f, index).Success? <==> 0 <= index < n
  {
    |f.intents|
  }

  /** `appendIntent(IntentPacket)`: adds the packet, or null, at the end. */
  function AppendIntent(f: CaptureFile, packet: Option<IntentPacket.Packet>): (r: CaptureFile)
    ensures Size(r) == Size(f) + 1 && r.intents[Size(f)] == packet
    ensures r.intents[..Size(f)] == f.intents && r.fileHeader == f.fileHeader
  {
    f.(intents := f.intents + [packet])
  }

  /** `getIntent(int)`: the packet (or null) at the index; an index outside the list is out of bounds. */
  function GetIntent(f: CaptureFile, index: Int32): (r: Result<Option<IntentPacket.Packet>>)
    ensures r.Success? <==> 0 <= index < |f.intents|
    ensures r.Failure? ==> r.error == IndexOutOfBounds
    ensures r.Success? ==> r.value == f.intents[index]
  {
    if index < 0 || index >= |f.intents| then Failure(IndexOutOfBounds) else Success(f.intents[index])
  }

  /** `clearIntents()`: removes every intent and keeps the file header. */
  function ClearIntents(f: CaptureFile): (r: CaptureFile)
    ensures Size(r) == 0 && r.fileHeader == f.fileHeader
  {
    f.(intents := [])
  }

  /** After appending, the new packet is at the old size and every earlier index still reads the same. */
  lemma AppendThenGet(f: CaptureFile, packet: Option<IntentPacket.Packet>, index: Int32)
    ensures GetIntent(AppendIntent(f, packet), index)
      == if index == Size(f) then Success(packet) else GetIntent(f, index)
  {
  }

  /** Appending `n` packets to a new file and reading index `i` back yields the `i`-th packet appended. */
  lemma {:induction false} AppendAllThenGet(f: CaptureFile, packets: seq<Option<IntentPacket.Packet>>, i: nat)
    requires i < |packets|
    ensures Size(AppendAll(f, packets)) == Size(f) + |packets|
    ensures AppendAll(f, packets).intents[Size(f) + i] == packets[i]
    ensures AppendAll(f, packets).intents[..Size(f)] == f.intents
    decreases |packets|
  {
    var g := AppendIntent(f, packets[0]);
    if i == 0 {
      if |packets| > 1 {
        AppendAllThenGet(g, packets[1..], 0);
        assert AppendAll(g, packets[1..]).intents[..Size(g)][Size(f)] == packets[0];
      }
    } else {
      AppendAllThenGet(g, packets[1..], i - 1);
    }
    if |packets| > 1 {
      assert AppendAll(f, packets).intents[..Size(f)] == AppendAll(g, packets[1..]).intents[..Size(g)][..Size(f)];
    }
  }

  /** The packets appended one after another, in order. */
  function AppendAll(f: CaptureFile, packets: seq<Option<IntentPacket.Packet>>): (r: CaptureFile)
    ensures r.fileHeader == f.fileHeader
    decreases |packets|
  {
    if |packets| == 0 then f else AppendAll(AppendIntent(f, packets[0]), packets[1..])
  }

  /** After clearing, no index reads anything. */
  lemma ClearThenGet(f: CaptureFile, index: Int32)
    ensures GetIntent(ClearIntents(f), index) == Failure(IndexOutOfBounds)
  {
  }

  /** The twelve bytes the file header's `toByteBuffer()` puts. */
  function FileHeaderWritten(h: FileHeader): (w: Bytes)
    ensures |w| == FILE_HEADER_WRITTEN
  {
    Int32Bytes(MAGIC_NUMBER) + Int16Bytes(FORMAT_MAJOR_VERSION) + Int16Bytes(FORMAT_MINOR_VERSION)
    + Int16Bytes(h.androidMajor) + Int8Bytes(h.androidMinor) + Int8Bytes(h.androidPatch)
  }

  /**
   * The file header's `toByteBuffer()`: allocates 96 bytes and puts the
   * twelve. The buffer is returned without a rewind, so alongside its
   * contents the model returns its position, 12.
   */
  function EncodeFileHeader(h: FileHeader): (r: (Bytes, nat))
    ensures |r.0| == FILE_HEADER_BYTES && r.1 == FILE_HEADER_WRITTEN
    ensures At(r.0, 0, FileHeaderWritten(h))
    ensures forall i :: FILE_HEADER_WRITTEN <= i < FILE_HEADER_BYTES ==> r.0[i] == 0
  {
    var written := FileHeaderWritten(h);
    var buffer := Allocate(FILE_HEADER_BYTES, written);
    (buffer.value, |written|)
  }

  /** The magic number is written big-endian as A1 B2 C3 D4. */
  lemma MagicBytes()
    ensures Int32Bytes(MAGIC_NUMBER) == [0xA1, 0xB2, 0xC3, 0xD4]
  {
  }

  /**
   * The file header's bytes, exactly: the magic number, format version 0.1,
   * the Android major version (two bytes), minor and patch (one byte each),
   * then 84 zero bytes.
   */
  lemma FileHeaderLayout(h: FileHeader)
    ensures EncodeFileHeader(h).0
      == [0xA1, 0xB2, 0xC3, 0xD4, 0, 0, 0, 1] + Int16Bytes(h.androidMajor)
         + Int8Bytes(h.androidMinor) + Int8Bytes(h.androidPatch) + Zeros(84)
  {
    MagicBytes();
    var e := EncodeFileHeader(h).0;
    var w := FileHeaderWritten(h);
    AtElementwise(e, 0, w);
    assert e == w + Zeros(84);
  }

  /** A reader recovers the magic number from bytes 0 to 3 and the Android version from bytes 8 to 11. */
  lemma FileHeaderReadsBack(h: FileHeader)
    ensures var e := EncodeFileHeader(h).0;
      && Int16At(e, 8) == h.androidMajor
      && Int8Of(e[10]) == h.androidMinor && Int8Of(e[11]) == h.androidPatch
      && Int32At(e, 0) == MAGIC_NUMBER
  {
    var e := EncodeFileHeader(h).0;
    var w := FileHeaderWritten(h);
    AtElementwise(e, 0, w);
    var a := Int32Bytes(MAGIC_NUMBER) + Int16Bytes(FORMAT_MAJOR_VERSION) + Int16Bytes(FORMAT_MINOR_VERSION);
    AtConcat(e, 0, a + Int16Bytes(h.androidMajor) + Int8Bytes(h.androidMinor), Int8Bytes(h.androidPatch));
    AtConcat(e, 0, a + Int16Bytes(h.androidMajor), Int8Bytes(h.androidMinor));
    AtConcat(e, 0, a, Int16Bytes(h.androidMajor));
    AtConcat(e, 0, Int32Bytes(MAGIC_NUMBER) + Int16Bytes(FORMAT_MAJOR_VERSION), Int16Bytes(FORMAT_MINOR_VERSION));
    AtConcat(e, 0, Int32Bytes(MAGIC_NUMBER), Int16Bytes(FORMAT_MAJOR_VERSION));
    AtUnique(e, 8, Int16Bytes(Int16At(e, 8)), Int16Bytes(h.androidMajor));
    Int16BytesInjective(Int16At(e, 8), h.androidMajor);
    AtUnique(e, 0, Int32Bytes(Int32At(e, 0)), Int32Bytes(MAGIC_NUMBER));
    Int32BytesInjective(Int32At(e, 0), MAGIC_NUMBER);
    AtElementwise(e, 10, Int8Bytes(h.androidMinor));
    AtElementwise(e, 11, Int8Bytes(h.androidPatch));
    Int8OfBytes(h.androidMinor);
    Int8OfBytes(h.androidPatch);
  }
}
