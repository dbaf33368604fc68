/** A BMP image as the `Bmp` class holds it: a header and a flat pixel
    payload, read from and written to a file system that is passed in and
    returned as a value. */
module BmpFile {
  import opened ByteCodec
  import opened BmpHeader

  type Path = string

  /** The file system as the codec sees it: `files` holds the regular files
      that can be opened for reading, with their contents; `writable` holds
      the paths an output stream can be opened on. */
  datatype FileSystem = FileSystem(files: map<Path, seq<uint8>>, writable: set<Path>)

  /** Index of the last occurrence of c in s, or -1. */
  function LastIndexOf(s: string, c: char): (r: int)
    ensures -1 <= r < |s|
    ensures r >= 0 ==> s[r] == c
    ensures forall k :: r < k < |s| ==> s[k] != c
  {
    if s == [] then -1
    else if s[|s| - 1] == c then |s| - 1
    else LastIndexOf(s[..|s| - 1], c)
  }

  /** The last component of a path: everything after its last '/'. */
  function FileName(path: Path): (name: Path)
    ensures |name| <= |path| && name == path[|path| - |name|..]
    ensures forall k :: 0 <= k < |name| ==> name[k] != '/'
  {
    path[LastIndexOf(path, '/') + 1..]
  }

  /** The extension of a path as `std::filesystem::path::extension` gives it:
      the file name from its last '.' on, or nothing when the file name has
      no '.', starts with its only '.', or is "." or "..". */
  function Extension(path: Path): string
  {
    var name := FileName(path);
    var dot := LastIndexOf(name, '.');
    if name == "." || name == ".." || dot <= 0 then "" else name[dot..]
  }

  predicate IsBmpPath(path: Path)
  {
    Extension(path) == ".bmp"
  }

  /** The extension check accepts exactly the paths whose file name ends in
      ".bmp" after at least one other character. */
  lemma BmpPathIff(path: Path)
    ensures IsBmpPath(path) <==> EndsWithBmp(FileName(path))
  {
    var name := FileName(path);
    if IsBmpPath(path) {
      BmpExtensionEnds(name);
    }
    if EndsWithBmp(name) {
      EndsWithBmpExtension(name);
    }
  }

  predicate EndsWithBmp(name: string)
  {
    |name| >= 5 && name[|name| - 4..] == ".bmp"
  }

  lemma BmpExtensionEnds(name: string)
    requires var dot := LastIndexOf(name, '.');
      name != "." && name != ".." && dot > 0 && name[dot..] == ".bmp"
    ensures EndsWithBmp(name)
  {
    var dot := LastIndexOf(name, '.');
    assert |name[dot..]| == 4;
  }

  lemma EndsWithBmpExtension(name: string)
    requires EndsWithBmp(name)
    ensures var dot := LastIndexOf(name, '.');
      name != "." && name != ".." && dot > 0 && name[dot..] == ".bmp"
  {
    var n := |name|;
    var dot := LastIndexOf(name, '.');
    assert name[n - 4..][0] == '.' && name[n - 4..][1] == 'b';
    assert name[n - 4..][2] == 'm' && name[n - 4..][3] == 'p';
    assert name[n - 4] == '.' && name[n - 3] != '.' && name[n - 2] != '.' && name[n - 1] != '.';
    assert dot == n - 4;
  }

  /** A path that passes the extension check is never the empty path, so the
      empty path can stand for failure. */
  lemma BmpPathNonEmpty(path: Path)
    requires IsBmpPath(path)
    ensures path != []
  {
    BmpPathIff(path);
  }

  /** `Bmp::load_image`: the file's bytes, or nothing when the path is not a
      regular file that can be opened. */
  function LoadImage(fs: FileSystem, path: Path): seq<uint8>
  {
    if path in fs.files then fs.files[path] else []
  }

  /** A header and its pixel payload. */
  datatype Image = Image(header: Header, pixels: seq<uint8>)

  /** What a `Bmp` holds before anything is loaded into it. */
  const EmptyImage := Image(ZeroHeader, [])

  /** Byte contents the decoder is defined on: nothing at all, or at least a
      whole header (a shorter file would be read past its end). */
  predicate Decodable(bytes: seq<uint8>)
  {
    |bytes| == 0 || |bytes| >= HeaderSize
  }

  /** The decoding constructor's effect on a file's bytes. An empty file
      leaves the zero header and no pixels. Otherwise the header is read from
      the first 54 bytes and the pixels are the bytes from the header's
      offset on; when that offset lies past the end, resizing the pixel
      buffer to the wrapped size throws, the handler swallows it, and the
      pixels stay empty. */
  function DecodeImage(bytes: seq<uint8>): Image
    requires Decodable(bytes)
  {
    if bytes == [] then EmptyImage
    else
      var header := DecodeHeader(bytes[..HeaderSize]);
      if header.offset <= |bytes| then Image(header, bytes[header.offset..])
      else Image(header, [])
  }

  /** What decoding keeps of the file: the header reproduces the first 54
      bytes exactly, and the pixels are the whole rest of the file from the
      offset on (or nothing when the offset lies past the end). */
  lemma DecodeImageSpec(bytes: seq<uint8>)
    requires Decodable(bytes)
    ensures bytes == [] ==> DecodeImage(bytes) == EmptyImage
    ensures bytes != [] ==> EncodeHeader(DecodeImage(bytes).header) == bytes[..HeaderSize]
    ensures bytes != [] && DecodeImage(bytes).header.offset <= |bytes| ==>
      bytes == bytes[..DecodeImage(bytes).header.offset] + DecodeImage(bytes).pixels
    ensures bytes != [] && DecodeImage(bytes).header.offset > |bytes| ==> DecodeImage(bytes).pixels == []
  {
    if bytes != [] {
      EncodeDecodeHeader(bytes[..HeaderSize]);
    }
  }

  function Zeros(n: nat): (z: seq<uint8>)
    ensures |z| == n
  {
    seq(n, _ => 0)
  }

  /** The bytes `write_image` emits for a header whose offset leaves room
      for it: the header, zeros up to the offset, then the pixels. */
  function EncodeImage(img: Image): seq<uint8>
    requires img.header.offset >= HeaderSize
  {
    EncodeHeader(img.header) + Zeros(img.header.offset - HeaderSize) + img.pixels
  }

  /** The encoded file is exactly offset + |pixels| bytes long, holds the
      header in its first 54 bytes and zeros up to the offset, and decodes
      back to the same header and pixels. */
  lemma EncodeImageRoundTrip(img: Image)
    requires img.header.offset >= HeaderSize
    ensures |EncodeImage(img)| == img.header.offset + |img.pixels|
    ensures EncodeImage(img)[..HeaderSize] == EncodeHeader(img.header)
    ensures forall i :: HeaderSize <= i < img.header.offset ==> EncodeImage(img)[i] == 0
    ensures Decodable(EncodeImage(img)) && DecodeImage(EncodeImage(img)) == img
  {
    var bytes := EncodeImage(img);
    assert bytes[..HeaderSize] == EncodeHeader(img.header);
    DecodeEncodeHeader(img.header);
    assert bytes[img.header.offset..] == img.pixels;
  }

  /** Callers must not hand the decoding constructor a .bmp file of 1 to 53
      bytes. */
  predicate ReadDefined(fs: FileSystem, path: Path)
  {
    IsBmpPath(path) ==> Decodable(LoadImage(fs, path))
  }

  /** The image the decoding constructor `Bmp(path)` leaves behind. The
      wrong extension is reported and swallowed inside the constructor, so it
      leaves the zero header and no pixels, as does a path that cannot be
      loaded. */
  function Read(fs: FileSystem, path: Path): Image
    requires ReadDefined(fs, path)
  {
    if !IsBmpPath(path) then EmptyImage else DecodeImage(LoadImage(fs, path))
  }

  /** Reading fails soft: a path without the .bmp extension, or one that is
      not a readable regular file, gives the zero header and no pixels. */
  lemma ReadFailure(fs: FileSystem, path: Path)
    requires !IsBmpPath(path) || path !in fs.files
    ensures ReadDefined(fs, path) && Read(fs, path) == EmptyImage
  {
  }

  /** What `write_image` returns and the file system it leaves. */
  datatype WriteOutcome = WriteOutcome(written: Path, fs: FileSystem)

  /** `write_image` on an image and a destination. A destination without the
      .bmp extension, or one that cannot be opened, is reported and left
      untouched, and the empty path comes back. Otherwise the header goes
      out first; an offset below 54 then makes the zero fill's size wrap, the
      buffer's allocation throws, and the empty path comes back with only the
      header written. Any other image is written whole and its path
      returned. */
  function Write(fs: FileSystem, path: Path, img: Image): WriteOutcome
  {
    if !IsBmpPath(path) || path !in fs.writable then WriteOutcome([], fs)
    else if img.header.offset < HeaderSize then
      WriteOutcome([], fs.(files := fs.files[path := EncodeHeader(img.header)]))
    else
      WriteOutcome(path, fs.(files := fs.files[path := EncodeImage(img)]))
  }

  /** Writing reports failure by the empty path, exactly when the extension,
      the open or the offset is wrong; on success the file at `path` reads
      back as the image written, and after an offset below 54 it holds just
      the header. Only `path` ever changes, and nothing at all changes when
      the extension check or the open fails. */
  lemma WriteSpec(fs: FileSystem, path: Path, img: Image)
    ensures var r := Write(fs, path, img);
      r.written == [] <==> !(IsBmpPath(path) && path in fs.writable && img.header.offset >= HeaderSize)
    ensures var r := Write(fs, path, img);
      r.written != [] ==> r.written == path && ReadDefined(r.fs, path) && Read(r.fs, path) == img
    ensures !IsBmpPath(path) || path !in fs.writable ==> Write(fs, path, img).fs == fs
    ensures IsBmpPath(path) && path in fs.writable && img.header.offset < HeaderSize ==>
      Write(fs, path, img).fs.files == fs.files[path := EncodeHeader(img.header)]
    ensures Write(fs, path, img).fs.writable == fs.writable
    ensures Write(fs, path, img).fs.files - {path} == fs.files - {path}
  {
    if !IsBmpPath(path) || path !in fs.writable {
      assert Write(fs, path, img) == WriteOutcome([], fs);
    } else if img.header.offset < HeaderSize {
      assert Write(fs, path, img) == WriteOutcome([], fs.(files := fs.files[path := EncodeHeader(img.header)]));
    } else {
      BmpPathNonEmpty(path);
      assert Write(fs, path, img) == WriteOutcome(path, fs.(files := fs.files[path := EncodeImage(img)]));
      WrittenReadsBack(fs, path, img);
    }
  }

  /** The file system after a whole image was written reads that image back
      at the destination. */
  lemma WrittenReadsBack(fs: FileSystem, path: Path, img: Image)
    requires IsBmpPath(path) && img.header.offset >= HeaderSize
    ensures var fs' := fs.(files := fs.files[path := EncodeImage(img)]);
      ReadDefined(fs', path) && Read(fs', path) == img
  {
    EncodeImageRoundTrip(img);
    var fs' := fs.(files := fs.files[path := EncodeImage(img)]);
    assert LoadImage(fs', path) == EncodeImage(img);
  }

  /** `Bmp`: an image header and its pixel payload, updated in place. */
  class Bmp {
    var header: Header
    var pixelData: seq<uint8>

    /** `Bmp(path)`: decode the file at `path`. */
    constructor Load(fs: FileSystem, path: Path)
      requires ReadDefined(fs, path)
      ensures Image(header, pixelData) == Read(fs, path)
    {
      header := ZeroHeader;
      pixelData := [];
      new;
      if IsBmpPath(path) {
        var image := LoadImage(fs, path);
        if image != [] {
          header := DecodeHeader(image[..HeaderSize]);
          if header.offset <= |image| {
            pixelData := image[header.offset..];
          }
        }
      }
    }

    /** `Bmp(header, pixelData)`: store both as given. */
    constructor (header: Header, pixelData: seq<uint8>)
      ensures this.header == header && this.pixelData == pixelData
    {
      this.header := header;
      this.pixelData := pixelData;
    }

    function GetHeader(): Header
      reads this
    {
      header
    }

    function GetPixelData(): seq<uint8>
      reads this
    {
      pixelData
    }

    method SetHeader(h: Header)
      modifies this
      ensures header == h && pixelData == old(pixelData)
    {
      header := h;
    }

    method SetPixelData(p: seq<uint8>)
      modifies this
      ensures pixelData == p && header == old(header)
    {
      pixelData := p;
    }

    /** `write_image`: emit the header, the zero fill up to the offset and
      the pixels, in that order, to `path`. */
    method WriteImage(fs: FileSystem, path: Path) returns (written: Path, fs': FileSystem)
      ensures WriteOutcome(written, fs') == Write(fs, path, Image(header, pixelData))
    {
      if !IsBmpPath(path) || path !in fs.writable {
        return [], fs;
      }
      var out := EncodeHeader(header);
      if header.offset < HeaderSize {
        return [], fs.(files := fs.files[path := out]);
      }
      var fill := Zeros(header.offset - HeaderSize);
      out := out + fill;
      out := out + pixelData;
      assert out == EncodeImage(Image(header, pixelData));
      return path, fs.(files := fs.files[path := out]);
    }
  }
}
