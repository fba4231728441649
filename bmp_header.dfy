/**
 * The header part of `loadBMP_custom` (Pool/TextureLoader.cpp): validation
 * of the 54-byte Windows BMP header (a 14-byte BITMAPFILEHEADER followed by
 * a 40-byte BITMAPINFOHEADER) and extraction of the pixel-data offset, image
 * size, width and height, with the loader's defaults for the first two. The
 * file is given as its bytes, or None when it cannot be opened.
 */
module BmpHeaders {
  import opened Wrappers

  newtype byte = x: int | 0 <= x < 256

  /** 2^32: the range of a 32-bit unsigned field. */
  const TwoTo32: int := 0x1_0000_0000

  /** Size of the two header structures together. */
  const HeaderSize: nat := 54

  /** The field offsets the loader reads. */
  const DataPosOffset: nat := 0x0A
  const WidthOffset: nat := 0x12
  const HeightOffset: nat := 0x16
  const ImageSizeOffset: nat := 0x22

  /** The four bytes at `at`, least significant first, as an unsigned 32-bit value. */
  function LeU32(bytes: seq<byte>, at: nat): (v: nat)
    requires at + 4 <= |bytes|
    ensures v < TwoTo32
  {
    bytes[at] as nat + 0x100 * (bytes[at + 1] as nat + 0x100 * (bytes[at + 2] as nat + 0x100 * bytes[at + 3] as nat))
  }

  /** The little-endian encoding of a 32-bit value, the inverse of `LeU32`. */
  function EncodeLeU32(v: nat): (bytes: seq<byte>)
    requires v < TwoTo32
    ensures |bytes| == 4
  {
    [(v % 0x100) as byte, (v / 0x100 % 0x100) as byte, (v / 0x1_0000 % 0x100) as byte, (v / 0x100_0000) as byte]
  }

  lemma DecodeEncodeU32(v: nat)
    requires v < TwoTo32
    ensures LeU32(EncodeLeU32(v), 0) == v
  {
    var b := EncodeLeU32(v);
    assert v / 0x100_0000 < 0x100;
    calc {
      LeU32(b, 0);
      v % 0x100 + 0x100 * (v / 0x100 % 0x100 + 0x100 * (v / 0x1_0000 % 0x100 + 0x100 * (v / 0x100_0000)));
      { assert v / 0x1_0000 % 0x100 + 0x100 * (v / 0x100_0000) == v / 0x1_0000; }
      v % 0x100 + 0x100 * (v / 0x100 % 0x100 + 0x100 * (v / 0x1_0000));
      { assert v / 0x100 % 0x100 + 0x100 * (v / 0x1_0000) == v / 0x100; }
      v % 0x100 + 0x100 * (v / 0x100);
    }
  }

  /** A field read depends only on its own four bytes. */
  lemma LeU32Local(a: seq<byte>, b: seq<byte>, at: nat)
    requires at + 4 <= |a| && at + 4 <= |b|
    requires a[at..at + 4] == b[at..at + 4]
    ensures LeU32(a, at) == LeU32(b, at)
  {
    assert a[at] == a[at..at + 4][0] && b[at] == b[at..at + 4][0];
    assert a[at + 1] == a[at..at + 4][1] && b[at + 1] == b[at..at + 4][1];
    assert a[at + 2] == a[at..at + 4][2] && b[at + 2] == b[at..at + 4][2];
    assert a[at + 3] == a[at..at + 4][3] && b[at + 3] == b[at..at + 4][3];
  }

  /** The values the loader keeps from a valid header, after its defaults. */
  datatype BmpHeader = BmpHeader(dataPos: nat, imageSize: nat, width: nat, height: nat)

  /** A loaded image: the header values and the pixel bytes read. */
  datatype Bitmap = Bitmap(header: BmpHeader, pixels: seq<byte>)

  /** 'B' and 'M' as bytes: the `bfType` signature. */
  const SignatureB: byte := 0x42
  const SignatureM: byte := 0x4D

  predicate HasSignature(bytes: seq<byte>)
    requires |bytes| >= 2
  {
    bytes[0] == SignatureB && bytes[1] == SignatureM
  }

  /**
   * The header checks and field extraction of `loadBMP_custom`. The pixel
   * bytes are the up to `imageSize` bytes right after the 54-byte header,
   * fewer when the file ends early; `dataPos` is never used to seek.
   */
  function DecodeBmp(file: Option<seq<byte>>): (r: Option<Bitmap>)
  {
    match file
    case None => None
    case Some(bytes) =>
      if |bytes| < HeaderSize || !HasSignature(bytes) then None
      else
        var dataPos := LeU32(bytes, DataPosOffset);
        var imageSize := LeU32(bytes, ImageSizeOffset);
        var width := LeU32(bytes, WidthOffset);
        var height := LeU32(bytes, HeightOffset);
        var size := if imageSize == 0 then (width * height * 3) % TwoTo32 else imageSize;
        var pos := if dataPos == 0 then HeaderSize else dataPos;
        var stop := if HeaderSize + size <= |bytes| then HeaderSize + size else |bytes|;
        Some(Bitmap(BmpHeader(pos, size, width, height), bytes[HeaderSize..stop]))
  }

  /** The load fails exactly when the file is missing, shorter than the header, or lacks the "BM" signature. */
  lemma DecodeFailsIff(file: Option<seq<byte>>)
    ensures DecodeBmp(file).None? <==>
              file.None? || |file.value| < HeaderSize || !HasSignature(file.value)
  {
  }

  /** The fields come from their fixed offsets, and 0 in size or offset is replaced by the defaults. */
  lemma DecodedFields(bytes: seq<byte>)
    requires |bytes| >= HeaderSize && HasSignature(bytes)
    ensures var h := DecodeBmp(Some(bytes)).value.header;
            && h.width == LeU32(bytes, WidthOffset) && h.height == LeU32(bytes, HeightOffset)
            && (LeU32(bytes, ImageSizeOffset) != 0 ==> h.imageSize == LeU32(bytes, ImageSizeOffset))
            && (LeU32(bytes, ImageSizeOffset) == 0 ==> h.imageSize == (h.width * h.height * 3) % TwoTo32)
            && (LeU32(bytes, DataPosOffset) != 0 ==> h.dataPos == LeU32(bytes, DataPosOffset))
            && (LeU32(bytes, DataPosOffset) == 0 ==> h.dataPos == HeaderSize)
            && h.imageSize < TwoTo32 && h.dataPos < TwoTo32
  {
  }

  /** The pixels are a prefix of what follows the header, all `imageSize` bytes when the file is long enough. */
  lemma PixelsFollowHeader(bytes: seq<byte>)
    requires |bytes| >= HeaderSize && HasSignature(bytes)
    ensures var b := DecodeBmp(Some(bytes)).value;
            && |b.pixels| <= b.header.imageSize
            && b.pixels <= bytes[HeaderSize..]
            && (HeaderSize + b.header.imageSize <= |bytes| ==> |b.pixels| == b.header.imageSize)
  {
  }

  /**
   * The `bfOffBits` field does not affect the pixels: two files that differ
   * only in those four bytes load the same pixel bytes.
   */
  lemma DataPosDoesNotSeek(a: seq<byte>, b: seq<byte>)
    requires |a| == |b| >= HeaderSize && HasSignature(a)
    requires a[..DataPosOffset] == b[..DataPosOffset]
    requires a[DataPosOffset + 4..] == b[DataPosOffset + 4..]
    ensures DecodeBmp(Some(b)).Some?
    ensures DecodeBmp(Some(a)).value.pixels == DecodeBmp(Some(b)).value.pixels
  {
    assert b[0] == b[..DataPosOffset][0] && b[1] == b[..DataPosOffset][1];
    assert a[0] == a[..DataPosOffset][0] && a[1] == a[..DataPosOffset][1];
    forall at | at in {WidthOffset, HeightOffset, ImageSizeOffset}
      ensures LeU32(a, at) == LeU32(b, at)
    {
      assert a[at..at + 4] == a[DataPosOffset + 4..][at - DataPosOffset - 4..at - DataPosOffset];
      assert b[at..at + 4] == b[DataPosOffset + 4..][at - DataPosOffset - 4..at - DataPosOffset];
      LeU32Local(a, b, at);
    }
    assert a[HeaderSize..] == a[DataPosOffset + 4..][HeaderSize - DataPosOffset - 4..];
    assert b[HeaderSize..] == b[DataPosOffset + 4..][HeaderSize - DataPosOffset - 4..];
  }

  /** A field written with `EncodeLeU32` reads back as the value written. */
  lemma LeU32At(bytes: seq<byte>, at: nat, v: nat)
    requires v < TwoTo32 && at + 4 <= |bytes|
    requires bytes[at..at + 4] == EncodeLeU32(v)
    ensures LeU32(bytes, at) == v
  {
    var e := EncodeLeU32(v);
    assert bytes[at] == e[0] && bytes[at + 1] == e[1] && bytes[at + 2] == e[2] && bytes[at + 3] == e[3] by {
      assert bytes[at..at + 4][0] == bytes[at] && bytes[at..at + 4][1] == bytes[at + 1];
      assert bytes[at..at + 4][2] == bytes[at + 2] && bytes[at..at + 4][3] == bytes[at + 3];
    }
    DecodeEncodeU32(v);
  }

  function Zeros(n: nat): (z: seq<byte>)
    ensures |z| == n
  {
    seq(n, _ => 0 as byte)
  }

  /**
   * A header that `DecodeBmp` accepts: the signature, the four fields at
   * their offsets, and zero in every byte the loader does not read.
   */
  function EncodeHeader(dataPos: nat, imageSize: nat, width: nat, height: nat): (h: seq<byte>)
    requires dataPos < TwoTo32 && imageSize < TwoTo32 && width < TwoTo32 && height < TwoTo32
    ensures |h| == HeaderSize
  {
    [SignatureB, SignatureM] + Zeros(8) + EncodeLeU32(dataPos) + Zeros(4)
    + EncodeLeU32(width) + EncodeLeU32(height) + Zeros(8) + EncodeLeU32(imageSize) + Zeros(16)
  }

  /**
   * Decoding inverts encoding: a file made of an encoded header with
   * non-zero size and offset, followed by exactly `imageSize` pixel bytes,
   * loads as those fields and those pixels.
   */
  lemma HeaderRoundTrip(dataPos: nat, imageSize: nat, width: nat, height: nat, pixels: seq<byte>)
    requires 0 < dataPos < TwoTo32 && 0 < imageSize < TwoTo32 && width < TwoTo32 && height < TwoTo32
    requires |pixels| == imageSize
    ensures DecodeBmp(Some(EncodeHeader(dataPos, imageSize, width, height) + pixels))
            == Some(Bitmap(BmpHeader(dataPos, imageSize, width, height), pixels))
  {
    var h := EncodeHeader(dataPos, imageSize, width, height);
    var file := h + pixels;
    assert file[0] == SignatureB && file[1] == SignatureM;
    var front := [SignatureB, SignatureM] + Zeros(8);
    assert file[DataPosOffset..DataPosOffset + 4] == EncodeLeU32(dataPos) by {
      assert h == (front + EncodeLeU32(dataPos)) + h[14..];
      assert (front + EncodeLeU32(dataPos))[10..14] == EncodeLeU32(dataPos);
    }
    assert file[WidthOffset..WidthOffset + 4] == EncodeLeU32(width);
    assert file[HeightOffset..HeightOffset + 4] == EncodeLeU32(height);
    assert file[ImageSizeOffset..ImageSizeOffset + 4] == EncodeLeU32(imageSize);
    LeU32At(file, DataPosOffset, dataPos);
    LeU32At(file, WidthOffset, width);
    LeU32At(file, HeightOffset, height);
    LeU32At(file, ImageSizeOffset, imageSize);
    assert file[HeaderSize..HeaderSize + imageSize] == pixels;
  }
}
