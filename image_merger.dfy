/** `ImageMerger`: blends two BMP images of the same dimensions byte by
    byte and writes the result with the first image's header. */
module ImageMerger {
  import opened ByteCodec
  import BmpHeader
  import opened BmpFile

  /** The byte-index constants the class declares for the header fields. */
  const HeaderSize: nat := 54
  const PixelDataOffsetIndex: nat := 10
  const FileSizeIndex: nat := 2
  const HeightIndex: nat := 22
  const WidthIndex: nat := 18
  const BitsPerPixelIndex: nat := 28

  /** The blend weight used when a caller gives none. */
  const DefaultWeight: real := 0.5

  /** The class's index constants name the bytes the packed header reads
      those fields from. */
  lemma IndicesMatchLayout(b: seq<uint8>)
    requires |b| == BmpHeader.HeaderSize
    ensures HeaderSize == BmpHeader.HeaderSize
    ensures BmpHeader.DecodeHeader(b).offset == BmpHeader.FieldAt(b, PixelDataOffsetIndex, 4)
    ensures BmpHeader.DecodeHeader(b).fileSize == BmpHeader.FieldAt(b, FileSizeIndex, 4)
    ensures BmpHeader.DecodeHeader(b).height == ToSigned32(BmpHeader.FieldAt(b, HeightIndex, 4))
    ensures BmpHeader.DecodeHeader(b).width == ToSigned32(BmpHeader.FieldAt(b, WidthIndex, 4))
    ensures BmpHeader.DecodeHeader(b).bitsPerPixel == BmpHeader.FieldAt(b, BitsPerPixelIndex, 2)
  {
  }

  /** The same indices seen from the writing side: the encoded header holds
      each of those fields, little-endian, at that index. */
  lemma EncodedIndices(h: BmpHeader.Header)
    ensures Pow256(4) == 0x1_0000_0000 && Pow256(2) == 0x1_0000
    ensures BmpHeader.EncodeHeader(h)[PixelDataOffsetIndex..PixelDataOffsetIndex + 4] == EncodeLE(h.offset, 4)
    ensures BmpHeader.EncodeHeader(h)[FileSizeIndex..FileSizeIndex + 4] == EncodeLE(h.fileSize, 4)
    ensures BmpHeader.EncodeHeader(h)[HeightIndex..HeightIndex + 4] == EncodeLE(ToUnsigned32(h.height), 4)
    ensures BmpHeader.EncodeHeader(h)[WidthIndex..WidthIndex + 4] == EncodeLE(ToUnsigned32(h.width), 4)
    ensures BmpHeader.EncodeHeader(h)[BitsPerPixelIndex..BitsPerPixelIndex + 2] == EncodeLE(h.bitsPerPixel, 2)
  {
    Pow256Widths();
    var b := BmpHeader.EncodeHeader(h);
    BmpHeader.DecodeEncodeHeader(h);
    EncodeDecodeLE(b[PixelDataOffsetIndex..PixelDataOffsetIndex + 4]);
    EncodeDecodeLE(b[FileSizeIndex..FileSizeIndex + 4]);
    EncodeDecodeLE(b[HeightIndex..HeightIndex + 4]);
    EncodeDecodeLE(b[WidthIndex..WidthIndex + 4]);
    EncodeDecodeLE(b[BitsPerPixelIndex..BitsPerPixelIndex + 2]);
  }

  /** One output sample: the weighted sum of the two input samples, cut to
      an integer by the conversion to a byte (truncation; the sum is never
      negative, so truncation is the floor). */
  function Blend(weight: real, a: uint8, b: uint8): (r: uint8)
    requires 0.0 <= weight <= 1.0
    ensures r as real <= weight * a as real + (1.0 - weight) * b as real < r as real + 1.0
    ensures weight == 1.0 ==> r == a
    ensures weight == 0.0 ==> r == b
  {
    MixBounds(weight, a as real, b as real);
    (weight * a as real + (1.0 - weight) * b as real).Floor
  }

  lemma MulNonNegative(a: real, b: real)
    requires 0.0 <= a && 0.0 <= b
    ensures 0.0 <= a * b
  {
  }

  /** A weighted mean of two samples stays within the byte range. */
  lemma MixBounds(weight: real, x: real, y: real)
    requires 0.0 <= weight <= 1.0 && 0.0 <= x <= 255.0 && 0.0 <= y <= 255.0
    ensures 0.0 <= weight * x + (1.0 - weight) * y <= 255.0
  {
    MulNonNegative(weight, x);
    MulNonNegative(weight, 255.0 - x);
    MulNonNegative(1.0 - weight, y);
    MulNonNegative(1.0 - weight, 255.0 - y);
    assert weight * (255.0 - x) == weight * 255.0 - weight * x;
    assert (1.0 - weight) * (255.0 - y) == (1.0 - weight) * 255.0 - (1.0 - weight) * y;
  }

  /** At weight one half a sample is the rounded-down mean of the two. */
  lemma BlendHalf(a: uint8, b: uint8)
    ensures Blend(0.5, a, b) == (a as int + b as int) / 2
  {
    var r := Blend(0.5, a, b);
    var q := (a as int + b as int) / 2;
    assert 0.5 * a as real + (1.0 - 0.5) * b as real == (a + b) as real / 2.0;
    assert q as real <= (a + b) as real / 2.0 < q as real + 1.0;
  }

  /** The output buffer the merge loop builds: one blended sample per byte
      of the first image, taken index by index against the second. */
  function Blended(weight: real, first: seq<uint8>, second: seq<uint8>): seq<uint8>
    requires 0.0 <= weight <= 1.0 && |first| <= |second|
  {
    seq(|first|, i requires 0 <= i < |first| => Blend(weight, first[i], second[i]))
  }

  /** Weight one gives back the first image's bytes. */
  lemma BlendedFirst(first: seq<uint8>, second: seq<uint8>)
    requires |first| <= |second|
    ensures Blended(1.0, first, second) == first
  {
  }

  /** Weight zero gives the second image's bytes, cut to the first's length. */
  lemma BlendedSecond(first: seq<uint8>, second: seq<uint8>)
    requires |first| <= |second|
    ensures Blended(0.0, first, second) == second[..|first|]
  {
  }

  /** The default weight averages the two images, rounding down. */
  lemma BlendedDefault(first: seq<uint8>, second: seq<uint8>)
    requires |first| <= |second|
    ensures forall i :: 0 <= i < |first| ==>
      Blended(DefaultWeight, first, second)[i] == (first[i] as int + second[i] as int) / 2
  {
    forall i | 0 <= i < |first|
      ensures Blended(DefaultWeight, first, second)[i] == (first[i] as int + second[i] as int) / 2
    {
      BlendHalf(first[i], second[i]);
    }
  }

  /** Each output sample depends only on the samples at its own index: the
      blend of any slice of the inputs is the same slice of the blend. */
  lemma BlendedSlice(weight: real, first: seq<uint8>, second: seq<uint8>, lo: nat, hi: nat)
    requires 0.0 <= weight <= 1.0 && |first| <= |second| && lo <= hi <= |first|
    ensures Blended(weight, first[lo..hi], second[lo..hi]) == Blended(weight, first, second)[lo..hi]
  {
    var whole := Blended(weight, first, second);
    var part := Blended(weight, first[lo..hi], second[lo..hi]);
    forall i | 0 <= i < hi - lo
      ensures part[i] == whole[lo..hi][i]
    {
      assert first[lo..hi][i] == first[lo + i] && second[lo..hi][i] == second[lo + i];
    }
  }

  /** Two 2x2 single-byte images at the default weight. */
  lemma BlendedExample()
    ensures Blended(DefaultWeight, [10, 20, 30, 40], [50, 60, 70, 80]) == [30, 40, 50, 60]
  {
    BlendedDefault([10, 20, 30, 40], [50, 60, 70, 80]);
  }

  predicate SameDimensions(a: BmpHeader.Header, b: BmpHeader.Header)
  {
    a.height == b.height && a.width == b.width
  }

  /** The `for` loop of `merge_images`: push one blended sample per byte
      of the first payload. The second payload is read with a checked index,
      so a second payload shorter than the first throws partway through;
      `ok` is false then and the partial buffer is dropped. */
  method BlendLoop(firstPixels: seq<uint8>, secondPixels: seq<uint8>, weight: real)
    returns (outPixels: seq<uint8>, ok: bool)
    requires 0.0 <= weight <= 1.0
    ensures ok <==> |firstPixels| <= |secondPixels|
    ensures ok ==> |outPixels| == |firstPixels|
    ensures ok ==> forall i :: 0 <= i < |firstPixels| ==> outPixels[i] == Blend(weight, firstPixels[i], secondPixels[i])
    ensures ok ==> outPixels == Blended(weight, firstPixels, secondPixels)
    ensures !ok ==> outPixels == []
  {
    outPixels := [];
    var i := 0;
    while i < |firstPixels|
      invariant 0 <= i <= |firstPixels| && i <= |secondPixels|
      invariant |outPixels| == i
      invariant forall k :: 0 <= k < i ==> outPixels[k] == Blend(weight, firstPixels[k], secondPixels[k])
    {
      if i >= |secondPixels| {
        return [], false;
      }
      var pixel := Blend(weight, firstPixels[i], secondPixels[i]);
      outPixels := outPixels + [pixel];
      i := i + 1;
    }
    ok := true;
  }

  /** `merge_images`: decode both inputs, refuse images whose heights or
      widths differ, blend the first image's bytes against the second's and
      write the blend under the first image's header. Any failure before the
      write leaves the file system as it was and gives the empty path. */
  method MergeImages(fs: FileSystem, first: Path, second: Path, outPath: Path, weight: real)
    returns (result: Path, fs': FileSystem)
    requires ReadDefined(fs, first) && ReadDefined(fs, second)
    requires 0.0 <= weight <= 1.0
    ensures var a, b := Read(fs, first), Read(fs, second);
      if !SameDimensions(a.header, b.header) || |b.pixels| < |a.pixels| then
        result == [] && fs' == fs
      else
        WriteOutcome(result, fs') == Write(fs, outPath, Image(a.header, Blended(weight, a.pixels, b.pixels)))
    ensures result != [] ==>
      var a, b := Read(fs, first), Read(fs, second);
      result == outPath && SameDimensions(a.header, b.header) && |a.pixels| <= |b.pixels| &&
      ReadDefined(fs', outPath) && Read(fs', outPath) == Image(a.header, Blended(weight, a.pixels, b.pixels))
  {
    var firstImage := new Bmp.Load(fs, first);
    var secondImage := new Bmp.Load(fs, second);
    result, fs' := MergeLoaded(fs, firstImage, secondImage, outPath, weight);
  }

  /** The body of `merge_images` once both inputs are decoded: the dimension
      check, the blending loop, and the write of the blend under the first
      image's header. */
  method MergeLoaded(fs: FileSystem, firstImage: Bmp, secondImage: Bmp, outPath: Path, weight: real)
    returns (result: Path, fs': FileSystem)
    requires 0.0 <= weight <= 1.0
    ensures var a, b := Image(firstImage.header, firstImage.pixelData), Image(secondImage.header, secondImage.pixelData);
      if !SameDimensions(a.header, b.header) || |b.pixels| < |a.pixels| then
        result == [] && fs' == fs
      else
        WriteOutcome(result, fs') == Write(fs, outPath, Image(a.header, Blended(weight, a.pixels, b.pixels)))
    ensures result != [] ==>
      var a, b := Image(firstImage.header, firstImage.pixelData), Image(secondImage.header, secondImage.pixelData);
      result == outPath && SameDimensions(a.header, b.header) && |a.pixels| <= |b.pixels| &&
      ReadDefined(fs', outPath) && Read(fs', outPath) == Image(a.header, Blended(weight, a.pixels, b.pixels))
  {
    if firstImage.GetHeader().height != secondImage.GetHeader().height
      || firstImage.GetHeader().width != secondImage.GetHeader().width
    {
      return [], fs;
    }
    var outHeader := firstImage.GetHeader();
    var outPixels, ok := BlendLoop(firstImage.GetPixelData(), secondImage.GetPixelData(), weight);
    if !ok {
      return [], fs;
    }
    var out := new Bmp(outHeader, outPixels);
    result, fs' := out.WriteImage(fs, outPath);
    WriteSpec(fs, outPath, Image(outHeader, outPixels));
  }

  /** Failed decodes are not failures of the merge: two inputs without the
      .bmp extension both decode to the zero header and no pixels, so their
      dimensions agree, the loop runs zero times, and the write goes ahead
      with an offset of 0. It writes the 54 zero-header bytes to a writable
      .bmp destination and then reports failure. */
  lemma UnreadableInputsTouchOutput(fs: FileSystem, first: Path, second: Path, outPath: Path, weight: real)
    requires !IsBmpPath(first) && !IsBmpPath(second)
    requires IsBmpPath(outPath) && outPath in fs.writable && 0.0 <= weight <= 1.0
    ensures var a, b := Read(fs, first), Read(fs, second);
      SameDimensions(a.header, b.header) && |a.pixels| <= |b.pixels| &&
      var r := Write(fs, outPath, Image(a.header, Blended(weight, a.pixels, b.pixels)));
      r.written == [] && outPath in r.fs.files && r.fs.files[outPath] == BmpHeader.EncodeHeader(BmpHeader.ZeroHeader)
  {
    ReadFailure(fs, first);
    ReadFailure(fs, second);
    EmptyInputsTouchOutput(fs, Read(fs, first), Read(fs, second), outPath, weight);
  }

  /** `UnreadableInputsTouchOutput` for the two decoded images themselves. */
  lemma EmptyInputsTouchOutput(fs: FileSystem, a: Image, b: Image, outPath: Path, weight: real)
    requires a == EmptyImage && b == EmptyImage
    requires IsBmpPath(outPath) && outPath in fs.writable && 0.0 <= weight <= 1.0
    ensures SameDimensions(a.header, b.header) && |a.pixels| <= |b.pixels|
    ensures var r := Write(fs, outPath, Image(a.header, Blended(weight, a.pixels, b.pixels)));
      r.written == [] && outPath in r.fs.files && r.fs.files[outPath] == BmpHeader.EncodeHeader(BmpHeader.ZeroHeader)
  {
    assert Image(a.header, Blended(weight, a.pixels, b.pixels)) == EmptyImage;
  }
}
