# ImageMerger: the BMP codec and the sequential merge

ImageMerger reads two uncompressed BMP files, checks that their heights and
widths agree, and blends them byte by byte. Each output sample is
`weight * a + (1 - weight) * b`, converted to a byte. The result is written
as a new BMP under the first image's header. This project models that core
and proves properties of the model:

- `ByteCodec` (`byte_codec.dfy`) holds the fixed-width integers of the packed
  header, their little-endian byte encoding, and the 32-bit two's complement
  reading of the signed fields.
- `BmpHeader` (`bmp_header.dfy`) models the 54-byte `#pragma pack(1)` header
  struct of `src/bmp.h`. There are 16 fields, laid out back to back with no
  padding. `Bmp(path)` copies a file's first 54 bytes into the struct, and
  `write_image` writes the struct out. Decoding (`DecodeHeader`) reads each
  field at its named byte offset. Encoding (`EncodeHeader`) packs the fields
  in order through a generic pack of consecutive little-endian fields.
  `DecodeHeaderUnpacks` proves that decoding equals the matching generic
  unpack. The model proves that decoding and encoding are inverse to each
  other in both directions.
- `BmpFile` (`bmp_file.dfy`) models the `Bmp` class of `src/bmp.cpp`: loading a
  file's bytes, the decoding constructor, the setters, and `write_image`.
  - The file system is a value passed in and returned. Its `files` map plays
    the part of `is_regular_file` plus `ifstream`, and its `writable` set says
    where an `ofstream` opens.
  - `std::filesystem::path::extension` is modelled on the path's last
    component.
  - The class keeps its two fields, `header` and `pixelData`, and its methods
    update them in place. The decoding constructor `Bmp.Load` and
    `Bmp.WriteImage` are proved against the value-level functions `Read` and
    `Write`, and the lemmas are stated about those functions. The
    `(header, pixels)` constructor and the two setters state their field
    updates directly.
- `ImageMerger` (`image_merger.dfy`) models `merge_images` from
  `src/image_merger.cpp`.
  - The class has no state the merge uses, so its index constants are module
    constants.
  - The blending `for` loop is the method `BlendLoop`, proved against the
    function `Blended`. `MergeLoaded` holds the dimension check, the loop and
    the write that follow the two decodes, and `MergeImages` calls it.
  - The weight is an exact `real`. The float-to-byte conversion truncates.
    For the non-negative sums that occur, that is the floor.

Failure is the empty path throughout, as in the C++ code. A `.bmp` path is
never empty (`BmpFile.BmpPathNonEmpty`), so the empty path is unambiguous.

Some behaviour of the C++ code that the model keeps:

- An offset below 54: `write_image` has already written the 54 header
  bytes. `header.offset - sizeof(header)` then wraps around, the fill
  vector's allocation throws, and the destination keeps just the header. The
  empty path comes back.
- The decoding constructor catches its own errors. A path that fails the
  extension check or cannot be loaded leaves a zero header with no pixels.
  Two such inputs therefore have matching dimensions, and `merge_images`
  goes on to write a bare zero header to the destination
  (`ImageMerger.UnreadableInputsTouchOutput`).
- A decoded offset beyond the end of the file makes the pixel buffer's
  `resize` throw. The header stays set and the pixels stay empty.
- The merge has one operator, a weighted average truncated to a byte. The
  output path is returned as given.
- The signature field is never checked against `BM`.

## Model

| member | source | states |
|---|---|---|
| ByteCodec.DecodeLE | src/bmp.h:11-29 | a little-endian field of n bytes holds a value below 256^n |
| ByteCodec.EncodeLE | src/bmp.h:11-29 | the n-byte little-endian encoding of a value in range is n bytes long and decodes back to the value |
| ByteCodec.EncodeDecodeLE | src/bmp.h:11-29 | every byte sequence is the encoding of its own value (encoding is onto) |
| ByteCodec.ToSigned32 | src/bmp.h:19-20 | the signed reading of 32 stored bits is negative exactly when the top bit is set, is congruent to the stored bits modulo 2^32, and maps back to the same bits |
| ByteCodec.ToUnsigned32 | src/bmp.h:19-20 | the stored bits of a signed 32-bit value have the top bit set exactly when it is negative and are congruent to it modulo 2^32 |
| ByteCodec.SignedUnsignedInverse | src/bmp.h:19-20 | storing a signed value and reading it back gives the same value |
| BmpHeader.FieldAt | src/bmp.h:11-29 | a field read from a byte position is below 256^width |
| BmpHeader.PackedLayout | src/bmp.h:11-30 | the 16 packed fields have widths summing to exactly 54, and each starts at its byte offset (0, 2, 6, 8, 10, 14, 18, 22, 26, 28, 30, 34, 38, 42, 46, 50), with no padding |
| BmpHeader.UnpackAt | src/bmp.h:11-29 | unpacking back-to-back fields yields, as field k, the little-endian value at the sum of the widths before k |
| BmpHeader.UnpackPack | src/bmp.h:11-29 | unpacking packed in-range field values gives the values back |
| BmpHeader.PackUnpack | src/bmp.h:11-29 | unpacked values are in range and repacking them gives the original bytes |
| BmpHeader.EncodeHeader | src/bmp.cpp:63 | the header written out is exactly 54 bytes |
| BmpHeader.DecodeHeaderUnpacks | src/bmp.cpp:29 | copying 54 bytes into the struct reads each field at its packed offset, with the signed fields in two's complement |
| BmpHeader.DecodeEncodeHeader | src/bmp.cpp:29 | a header written out and copied back in is the same header |
| BmpHeader.EncodeDecodeHeader | src/bmp.cpp:29 | any 54 bytes copied into the struct and written out again are the same 54 bytes |
| BmpHeader.SignedFieldRoundTrip | src/bmp.h:19-20 | the 4 bytes of a signed field survive the signed reading and the write-back unchanged |
| BmpFile.BmpPathIff | src/bmp.cpp:23 | the extension check accepts a path exactly when its last component ends in ".bmp" after at least one other character |
| BmpFile.BmpPathNonEmpty | src/bmp.cpp:60 | a path that passes the extension check is not the empty path, so the empty path signals failure unambiguously |
| BmpFile.DecodeImageSpec | src/bmp.cpp:27-32 | an empty file gives the zero header and no pixels; otherwise the header re-encodes to the file's first 54 bytes, and the pixels are the rest of the file from the offset on, or nothing when the offset lies past the end |
| BmpFile.EncodeImageRoundTrip | src/bmp.cpp:63-67 | the file written is offset + pixel-count bytes long, starts with the header, is zero between the header and the offset, and decodes back to the same header and pixels |
| BmpFile.ReadFailure | src/bmp.cpp:21-37 | a path without the .bmp extension, or one that cannot be loaded, gives the zero header and no pixels |
| BmpFile.WriteSpec | src/bmp.cpp:58-78 | writing returns the empty path exactly when the extension, the open or the offset is wrong; on success the file reads back as the image written; after an offset below 54 the destination holds just the 54 header bytes; only the destination ever changes, and nothing changes when the extension check or the open fails |
| BmpFile.Bmp.Load | src/bmp.cpp:21-37 | the decoding constructor leaves exactly the header and pixels that reading the path gives |
| BmpFile.Bmp.constructor | src/bmp.cpp:55-56 | the constructor stores the header and pixels as given |
| BmpFile.Bmp.SetHeader | src/bmp.cpp:43-45 | sets the header and leaves the pixels alone |
| BmpFile.Bmp.SetPixelData | src/bmp.cpp:51-53 | sets the pixels and leaves the header alone |
| BmpFile.Bmp.WriteImage | src/bmp.cpp:58-78 | emitting header, zero fill and pixels in turn returns the path and leaves the file system that writing the object's image specifies |
| ImageMerger.IndicesMatchLayout | src/image_merger.h:18-23 | the class's index constants (54, 10, 2, 22, 18, 28) are where the decoded header's size, offset, file size, height, width and bits-per-pixel fields come from |
| ImageMerger.EncodedIndices | src/image_merger.h:18-23 | the encoded header holds each of those fields, little-endian, at that index |
| ImageMerger.Blend | src/image_merger.cpp:21-22 | a blended sample is the weighted sum cut down to an integer (within 1 below it); weight 1 gives the first sample and weight 0 the second |
| ImageMerger.MixBounds | src/image_merger.cpp:21-22 | a weighted sum of two samples with a weight in [0, 1] lies within the byte range |
| ImageMerger.BlendHalf | src/image_merger.h:32 | at the default weight one half, a sample is the mean of the two rounded down |
| ImageMerger.BlendedFirst | src/image_merger.cpp:20-24 | weight 1 reproduces the first image's bytes |
| ImageMerger.BlendedSecond | src/image_merger.cpp:20-24 | weight 0 reproduces the second image's bytes, cut to the first's length |
| ImageMerger.BlendedDefault | src/image_merger.h:32 | at the default weight every output byte is the rounded-down mean of the two input bytes |
| ImageMerger.BlendedSlice | src/image_merger.cpp:20-24 | blending is index-wise: the blend of slices of the inputs is the same slice of the blend |
| ImageMerger.BlendedExample | src/image_merger.h:32 | [10, 20, 30, 40] and [50, 60, 70, 80] blend at the default weight to [30, 40, 50, 60] |
| ImageMerger.BlendLoop | src/image_merger.cpp:19-24 | the loop succeeds exactly when the second payload is at least as long as the first (the checked `.at(i)` throws otherwise), and then yields |first| samples, sample i being Blend(weight, first[i], second[i]), which is the buffer `Blended` specifies |
| ImageMerger.MergeLoaded | src/image_merger.cpp:13-25 | for two decoded images: differing heights or widths, or a second payload shorter than the first, give the empty path and leave the file system alone; otherwise the outcome is writing the first header with the blended pixels, and a non-empty result is the output path, whose file reads back as that image |
| ImageMerger.MergeImages | src/image_merger.cpp:8-29 | differing heights or widths, or a second payload shorter than the first, give the empty path and leave the file system alone; otherwise the outcome is writing the first header with the blended pixels; a non-empty result is the output path, whose file reads back as that image |
| ImageMerger.UnreadableInputsTouchOutput | src/image_merger.cpp:11-16 | two inputs without the .bmp extension pass the dimension check, and the write then leaves the bare zero header in a writable .bmp destination and reports failure |

## Left out

- File I/O is a value. `is_regular_file`, `ifstream`, `tellg`/`read` and `ofstream` are modelled by the `FileSystem` map and set. `load_image` is `BmpFile.LoadImage`, a lookup in that map that gives no bytes for a path that is not a readable regular file; it has no contract of its own, and `ReadFailure` and `DecodeImageSpec` state what follows from it. Short reads, write errors after a successful open, and concurrent changes to the file system are not modelled.
- The header's multi-byte fields are read and written little-endian. `std::copy` into the struct (src/bmp.cpp:29) and `out.write` of the struct (src/bmp.cpp:63) use the host's byte order, so the model assumes a little-endian host.
- The messages printed to `std::cerr` in the `catch` blocks are not modelled. Only the control flow they end is.
- BmpFile.Bmp.Load: requires that a `.bmp` file be empty or at least 54 bytes long. `Bmp(path)` copies 54 bytes out of a shorter buffer, which reads past its end. That is undefined behaviour and cannot be modelled.
- BmpFile.Bmp.WriteImage: returns `path` on success. The success branch of `write_image` falls off the end of the function without a `return`, which is undefined behaviour. The model takes the documented intent of returning the path written.
- ImageMerger.MergeImages: after its `catch` block, `merge_images` falls off the end without a `return`. The model gives the empty path there, the failure value the rest of the code uses.
- ImageMerger.MergeImages: requires `0 <= weight <= 1`. Outside that range the float-to-byte conversion can leave the byte range, which is undefined behaviour.
- ImageMerger.Blend: computes with exact reals. Single-precision rounding of `weight * a + (1 - weight) * b` before the truncation is not modelled. At weight one half the float computation is exact.
- ImageMerger.BlendLoop: the loop index is an unbounded integer. Overflow of the 32-bit `int i` of `merge_images` on payloads over 2^31 bytes is not modelled.
- `merge_images_cache`, `merge_images_openmp` and `merge_images_optimized` (src/image_merger.h:33-39) are declared but have no definition in the C++ code, so there is nothing to model. OpenMP is left out with them.
- The unused members `first_image_path`, `second_image_path` and `image_dimensions` of `ImageMerger` are left out.
- The getters `getHeader`/`getPixelData` are field reads: `BmpFile.Bmp.GetHeader` and `BmpFile.Bmp.GetPixelData` have no contract of their own.
- The command-line front end (`main`) and its timing are not part of this model.
- Row padding and colour channels are not modelled, because the C++ code treats the pixel payload as a flat byte stream.
