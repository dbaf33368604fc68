/** The packed 54-byte BMP header: a 14-byte BITMAPFILEHEADER followed by a
    40-byte BITMAPINFOHEADER, sixteen little-endian fields with no padding.
    `Bmp(path)` copies these bytes straight into a packed struct and
    `write_image` writes the struct out again; here decoding reads each field
    at its own offset and width, and encoding packs the fields in order. */
module BmpHeader {
  import opened ByteCodec

  /** Size of the packed header in bytes (Bmp::header_size). */
  const HeaderSize: nat := 54

  /** Byte offset of each field, in declaration order. */
  const SignatureAt: nat := 0
  const FileSizeAt: nat := 2
  const Reserved1At: nat := 6
  const Reserved2At: nat := 8
  const OffsetAt: nat := 10
  const HeaderSizeAt: nat := 14
  const WidthAt: nat := 18
  const HeightAt: nat := 22
  const PlanesAt: nat := 26
  const BitsPerPixelAt: nat := 28
  const CompressionAt: nat := 30
  const ImageSizeAt: nat := 34
  const XPixelsPerMeterAt: nat := 38
  const YPixelsPerMeterAt: nat := 42
  const ColorsUsedAt: nat := 46
  const ImportantColorsAt: nat := 50

  /** The same offsets as a table, and the byte width of each field, in
      declaration order. */
  const FieldOffsets: seq<nat> := [0, 2, 6, 8, 10, 14, 18, 22, 26, 28, 30, 34, 38, 42, 46, 50]
  const FieldWidths: seq<nat> := [2, 4, 2, 2, 4, 4, 4, 4, 2, 2, 4, 4, 4, 4, 4, 4]

  datatype Header = Header(
    signature: uint16,
    fileSize: uint32,
    reserved1: uint16,
    reserved2: uint16,
    offset: uint32,          // where the pixel payload starts in the file
    headerSize: uint32,      // size of the info header; stored, never checked
    width: int32,
    height: int32,
    planes: uint16,
    bitsPerPixel: uint16,
    compression: uint32,
    imageSize: uint32,
    xPixelsPerMeter: int32,
    yPixelsPerMeter: int32,
    colorsUsed: uint32,
    importantColors: uint32)

  /** The value-initialised header (`BmpHeader header{}`): every field zero. */
  const ZeroHeader := Header(0, 0, 0, 0, 0, 0, 0, 0, 0, 0, 0, 0, 0, 0, 0, 0)

  /** Where the k-th of a run of packed fields starts: the widths of the
      fields before it, added up. */
  function Offset(widths: seq<nat>, k: nat): nat
    requires k <= |widths|
  {
    if k == 0 then 0 else Offset(widths, k - 1) + widths[k - 1]
  }

  /** The total width of a run of packed fields. */
  function Sum(widths: seq<nat>): nat
  {
    Offset(widths, |widths|)
  }

  /** Dropping the first field moves every later offset back by its width. */
  lemma {:induction false} OffsetTail(widths: seq<nat>, k: nat)
    requires 1 <= k <= |widths|
    ensures Offset(widths, k) == widths[0] + Offset(widths[1..], k - 1)
  {
    if k > 1 {
      OffsetTail(widths, k - 1);
    }
  }

  /** The unsigned value of the `width` bytes of `b` starting at `at`. */
  function FieldAt(b: seq<uint8>, at: nat, width: nat): (v: nat)
    requires at + width <= |b|
    ensures v < Pow256(width)
  {
    DecodeLE(b[at..at + width])
  }

  /** The packing of the header: the sixteen fields follow each other with
      no gap, start at the offsets named above and fill exactly 54 bytes. */
  lemma PackedLayout()
    ensures |FieldWidths| == 16 && Sum(FieldWidths) == HeaderSize
    ensures Offset(FieldWidths, 0) == SignatureAt && Offset(FieldWidths, 1) == FileSizeAt
    ensures Offset(FieldWidths, 2) == Reserved1At && Offset(FieldWidths, 3) == Reserved2At
    ensures Offset(FieldWidths, 4) == OffsetAt && Offset(FieldWidths, 5) == HeaderSizeAt
    ensures Offset(FieldWidths, 6) == WidthAt && Offset(FieldWidths, 7) == HeightAt
    ensures Offset(FieldWidths, 8) == PlanesAt && Offset(FieldWidths, 9) == BitsPerPixelAt
    ensures Offset(FieldWidths, 10) == CompressionAt && Offset(FieldWidths, 11) == ImageSizeAt
    ensures Offset(FieldWidths, 12) == XPixelsPerMeterAt && Offset(FieldWidths, 13) == YPixelsPerMeterAt
    ensures Offset(FieldWidths, 14) == ColorsUsedAt && Offset(FieldWidths, 15) == ImportantColorsAt
    ensures |FieldOffsets| == 16 && forall k :: 0 <= k < 16 ==> Offset(FieldWidths, k) == FieldOffsets[k]
  {
    var w := FieldWidths;
    assert Offset(w, 1) == 2 && Offset(w, 2) == 6 && Offset(w, 3) == 8;
    assert Offset(w, 4) == 10 && Offset(w, 5) == 14 && Offset(w, 6) == 18;
    assert Offset(w, 7) == 22 && Offset(w, 8) == 26 && Offset(w, 9) == 28;
    assert Offset(w, 10) == 30 && Offset(w, 11) == 34 && Offset(w, 12) == 38;
    assert Offset(w, 13) == 42 && Offset(w, 14) == 46 && Offset(w, 15) == 50;
    assert Offset(w, 16) == 54;
  }

  /** Values that fit their fields' widths. */
  predicate Fits(vals: seq<nat>, widths: seq<nat>)
  {
    |vals| == |widths| && forall k {:trigger vals[k]} :: 0 <= k < |vals| ==> vals[k] < Pow256(widths[k])
  }

  /** Lays out values one after another, each in its own width. */
  function Pack(vals: seq<nat>, widths: seq<nat>): (b: seq<uint8>)
    requires Fits(vals, widths)
    ensures |b| == Sum(widths)
  {
    if vals == [] then []
    else
      assert Fits(vals[1..], widths[1..]) by {
        forall k | 0 <= k < |vals| - 1 ensures vals[1..][k] < Pow256(widths[1..][k]) {
          assert vals[1..][k] == vals[k + 1] && widths[1..][k] == widths[k + 1];
        }
      }
      OffsetTail(widths, |widths|);
      EncodeLE(vals[0], widths[0]) + Pack(vals[1..], widths[1..])
  }

  /** Reads back the values of consecutive fields of the given widths. */
  function Unpack(b: seq<uint8>, widths: seq<nat>): (vals: seq<nat>)
    requires |b| == Sum(widths)
    ensures |vals| == |widths|
  {
    if widths == [] then []
    else
      OffsetTail(widths, |widths|);
      [DecodeLE(b[..widths[0]])] + Unpack(b[widths[0]..], widths[1..])
  }

  /** One step of `Pack`: the first value's encoding, then the rest. */
  lemma PackCons(vals: seq<nat>, widths: seq<nat>)
    requires Fits(vals, widths) && vals != []
    ensures Fits(vals[1..], widths[1..])
    ensures Pack(vals, widths) == EncodeLE(vals[0], widths[0]) + Pack(vals[1..], widths[1..])
  {
    forall k | 0 <= k < |vals| - 1 ensures vals[1..][k] < Pow256(widths[1..][k]) {
      assert vals[1..][k] == vals[k + 1] && widths[1..][k] == widths[k + 1];
    }
  }

  /** One step of `Unpack`: the first field's value, then the rest of the
      bytes unpacked against the remaining widths. */
  lemma UnpackCons(b: seq<uint8>, widths: seq<nat>)
    requires |b| == Sum(widths) && widths != []
    ensures widths[0] <= |b| && |b[widths[0]..]| == Sum(widths[1..])
    ensures Unpack(b, widths) == [DecodeLE(b[..widths[0]])] + Unpack(b[widths[0]..], widths[1..])
  {
    OffsetTail(widths, |widths|);
  }

  /** Every unpacked value fits its field's width. */
  lemma {:induction false} UnpackFits(b: seq<uint8>, widths: seq<nat>)
    requires |b| == Sum(widths)
    ensures Fits(Unpack(b, widths), widths)
  {
    if widths != [] {
      UnpackCons(b, widths);
      var rest := Unpack(b[widths[0]..], widths[1..]);
      UnpackFits(b[widths[0]..], widths[1..]);
      var vals := Unpack(b, widths);
      forall k | 1 <= k < |vals| ensures vals[k] < Pow256(widths[k]) {
        assert vals[k] == rest[k - 1] && widths[k] == widths[1..][k - 1];
      }
    }
  }

  lemma {:induction false} UnpackPack(vals: seq<nat>, widths: seq<nat>)
    requires Fits(vals, widths)
    ensures Unpack(Pack(vals, widths), widths) == vals
  {
    if vals != [] {
      PackCons(vals, widths);
      var b := Pack(vals, widths);
      var head := EncodeLE(vals[0], widths[0]);
      UnpackCons(b, widths);
      assert b[..widths[0]] == head && b[widths[0]..] == Pack(vals[1..], widths[1..]);
      UnpackPack(vals[1..], widths[1..]);
      assert vals == [vals[0]] + vals[1..];
    }
  }

  lemma {:induction false} PackUnpack(b: seq<uint8>, widths: seq<nat>)
    requires |b| == Sum(widths)
    ensures Fits(Unpack(b, widths), widths) && Pack(Unpack(b, widths), widths) == b
  {
    UnpackFits(b, widths);
    if widths != [] {
      UnpackCons(b, widths);
      var head, tail := b[..widths[0]], b[widths[0]..];
      var vals := Unpack(b, widths);
      var rest := Unpack(tail, widths[1..]);
      assert vals[0] == DecodeLE(head) && vals[1..] == rest;
      PackCons(vals, widths);
      PackUnpack(tail, widths[1..]);
      EncodeDecodeLE(head);
      assert EncodeLE(vals[0], widths[0]) == head;
      assert Pack(vals[1..], widths[1..]) == tail;
      assert b == head + tail;
    }
  }

  /** The k-th unpacked value is the field at the k-th packed offset. */
  lemma {:induction false} UnpackAt(b: seq<uint8>, widths: seq<nat>, k: nat)
    requires |b| == Sum(widths) && k < |widths|
    ensures Offset(widths, k) + widths[k] <= |b|
    ensures Unpack(b, widths)[k] == FieldAt(b, Offset(widths, k), widths[k])
    decreases |widths|, 1
  {
    UnpackCons(b, widths);
    if k == 0 {
      assert b[0..widths[0]] == b[..widths[0]];
    } else {
      UnpackAtTail(b, widths, k);
    }
  }

  /** The inductive step of `UnpackAt`: field k of the whole is field k - 1
      of the bytes after the first field. */
  lemma {:induction false} UnpackAtTail(b: seq<uint8>, widths: seq<nat>, k: nat)
    requires |b| == Sum(widths) && 0 < k < |widths|
    ensures Offset(widths, k) + widths[k] <= |b|
    ensures Unpack(b, widths)[k] == FieldAt(b, Offset(widths, k), widths[k])
    decreases |widths|, 0
  {
    UnpackCons(b, widths);
    var tail := b[widths[0]..];
    OffsetTail(widths, k);
    UnpackAt(tail, widths[1..], k - 1);
    var at := Offset(widths[1..], k - 1);
    var w := widths[k];
    assert widths[1..][k - 1] == w;
    assert Offset(widths, k) == widths[0] + at;
    assert tail[at..at + w] == b[widths[0] + at..widths[0] + at + w];
    assert Unpack(b, widths)[k] == Unpack(tail, widths[1..])[k - 1];
  }

  /** The sixteen fields as the unsigned values stored in the file, in
      declaration order; signed fields are stored in two's complement. */
  function Fields(h: Header): (vals: seq<nat>)
    ensures Fits(vals, FieldWidths)
  {
    Pow256Widths();
    [h.signature, h.fileSize, h.reserved1, h.reserved2,
     h.offset, h.headerSize, ToUnsigned32(h.width), ToUnsigned32(h.height),
     h.planes, h.bitsPerPixel, h.compression, h.imageSize,
     ToUnsigned32(h.xPixelsPerMeter), ToUnsigned32(h.yPixelsPerMeter), h.colorsUsed, h.importantColors]
  }

  function FromFields(vals: seq<nat>): (h: Header)
    requires Fits(vals, FieldWidths)
    ensures Fields(h) == vals
  {
    Pow256Widths();
    assert forall k :: 0 <= k < 16 ==> vals[k] < Pow256(FieldWidths[k]);
    Header(vals[0], vals[1], vals[2], vals[3],
           vals[4], vals[5], ToSigned32(vals[6]), ToSigned32(vals[7]),
           vals[8], vals[9], vals[10], vals[11],
           ToSigned32(vals[12]), ToSigned32(vals[13]), vals[14], vals[15])
  }

  /** The 54 bytes `write_image` writes for a header. */
  function EncodeHeader(h: Header): (b: seq<uint8>)
    ensures |b| == HeaderSize
  {
    PackedLayout();
    Pack(Fields(h), FieldWidths)
  }

  /** The header `Bmp(path)` copies out of the first 54 bytes of a file: each
      field is the little-endian value at its own offset, the signed ones
      read in two's complement. */
  function DecodeHeader(b: seq<uint8>): Header
    requires |b| == HeaderSize
  {
    Header(
      FieldAt(b, SignatureAt, 2),
      FieldAt(b, FileSizeAt, 4),
      FieldAt(b, Reserved1At, 2),
      FieldAt(b, Reserved2At, 2),
      FieldAt(b, OffsetAt, 4),
      FieldAt(b, HeaderSizeAt, 4),
      ToSigned32(FieldAt(b, WidthAt, 4)),
      ToSigned32(FieldAt(b, HeightAt, 4)),
      FieldAt(b, PlanesAt, 2),
      FieldAt(b, BitsPerPixelAt, 2),
      FieldAt(b, CompressionAt, 4),
      FieldAt(b, ImageSizeAt, 4),
      ToSigned32(FieldAt(b, XPixelsPerMeterAt, 4)),
      ToSigned32(FieldAt(b, YPixelsPerMeterAt, 4)),
      FieldAt(b, ColorsUsedAt, 4),
      FieldAt(b, ImportantColorsAt, 4))
  }

  /** The k-th of the sixteen unpacked header values is the field at the
      k-th named offset. */
  lemma UnpackHeaderAt(b: seq<uint8>, k: nat)
    requires |b| == HeaderSize && k < 16
    ensures Sum(FieldWidths) == HeaderSize
    ensures FieldOffsets[k] + FieldWidths[k] <= |b|
    ensures Unpack(b, FieldWidths)[k] == FieldAt(b, FieldOffsets[k], FieldWidths[k])
  {
    PackedLayout();
    UnpackAt(b, FieldWidths, k);
  }

  /** Reading the fields at their named offsets is the same as unpacking the
      sixteen packed widths in order: the named offsets are the packing. */
  lemma DecodeHeaderUnpacks(b: seq<uint8>)
    requires |b| == HeaderSize
    ensures Sum(FieldWidths) == HeaderSize && Fits(Unpack(b, FieldWidths), FieldWidths)
    ensures DecodeHeader(b) == FromFields(Unpack(b, FieldWidths))
  {
    PackedLayout();
    UnpackFits(b, FieldWidths);
    UnpackHeaderAt(b, 0); UnpackHeaderAt(b, 1); UnpackHeaderAt(b, 2); UnpackHeaderAt(b, 3);
    UnpackHeaderAt(b, 4); UnpackHeaderAt(b, 5); UnpackHeaderAt(b, 6); UnpackHeaderAt(b, 7);
    UnpackHeaderAt(b, 8); UnpackHeaderAt(b, 9); UnpackHeaderAt(b, 10); UnpackHeaderAt(b, 11);
    UnpackHeaderAt(b, 12); UnpackHeaderAt(b, 13); UnpackHeaderAt(b, 14); UnpackHeaderAt(b, 15);
  }

  /** Decoding the encoding of a header gives back the header. */
  lemma DecodeEncodeHeader(h: Header)
    ensures DecodeHeader(EncodeHeader(h)) == h
  {
    UnpackPack(Fields(h), FieldWidths);
    DecodeHeaderUnpacks(EncodeHeader(h));
    var h' := DecodeHeader(EncodeHeader(h));
    assert Fields(h') == Fields(h);
    SignedUnsignedInverse(h.width);
    SignedUnsignedInverse(h.height);
    SignedUnsignedInverse(h.xPixelsPerMeter);
    SignedUnsignedInverse(h.yPixelsPerMeter);
  }

  /** Encoding the decoding of 54 bytes gives back the same bytes: no field
      overlaps another, none is lost, and the signed fields survive the
      two's complement round trip. */
  lemma EncodeDecodeHeader(b: seq<uint8>)
    requires |b| == HeaderSize
    ensures EncodeHeader(DecodeHeader(b)) == b
  {
    DecodeHeaderUnpacks(b);
    PackUnpack(b, FieldWidths);
  }

  /** A signed 32-bit field read in two's complement and written back gives
      the same four bytes. */
  lemma SignedFieldRoundTrip(q: seq<uint8>)
    requires |q| == 4
    ensures EncodeLE(ToUnsigned32(ToSigned32(DecodeLE(q))), 4) == q
  {
    Pow256Widths();
    EncodeDecodeLE(q);
  }
}
