/** The image byte framing of 2.0/Support.py and module/Support.py: a
    4-byte size codec and a header of fixed-width, zero-padded fields in
    front of the pixel bytes. An image is abstracted to its two dimensions,
    its mode and file extension as byte strings (their UTF-8 encodings),
    and its pixel bytes. */
module Framing {

  import opened Wrappers
  import opened ByteSeq
  import opened Padding
  import Arith

  /** The `(height, width)` pair in the order the source names it. */
  datatype Size = Size(height: int, width: int)

  /** `sizeToByte`: each dimension as a high and a low byte. Python's `//`
      and `%` by 256 floor, as Dafny's do; `bytes([...])` raises ValueError
      when a value falls outside 0..255, which happens exactly when a
      dimension is negative or at least 65536. */
  function SizeToByte(size: Size): (r: Result<seq<byte>>)
    ensures r.Ok? <==> 0 <= size.height < 65536 && 0 <= size.width < 65536
    ensures r.Err? ==> r.error == ValueError
    ensures r.Ok? ==> |r.value| == 4
    ensures r.Ok? ==> 256 * r.value[0] as int + r.value[1] as int == size.height
    ensures r.Ok? ==> 256 * r.value[2] as int + r.value[3] as int == size.width
  {
    var h1, h2 := size.height / 256, size.height % 256;
    var w1, w2 := size.width / 256, size.width % 256;
    if 0 <= h1 < 256 && 0 <= w1 < 256 then Ok([h1 as byte, h2 as byte, w1 as byte, w2 as byte])
    else Err(ValueError)
  }

  /** `byteToSize`: unpacking anything but four bytes raises ValueError. */
  function ByteToSize(b: seq<byte>): (r: Result<Size>)
    ensures r.Ok? <==> |b| == 4
    ensures r.Err? ==> r.error == ValueError
    ensures r.Ok? ==> 0 <= r.value.height < 65536 && 0 <= r.value.width < 65536
  {
    if |b| != 4 then Err(ValueError)
    else Ok(Size(b[0] as int * 256 + b[1] as int, b[2] as int * 256 + b[3] as int))
  }

  /** Every size that encodes decodes back to itself. */
  lemma SizeRoundTrip(size: Size)
    requires 0 <= size.height < 65536 && 0 <= size.width < 65536
    ensures ByteToSize(SizeToByte(size).value) == Ok(size)
  {
  }

  /** Every 4-byte string is the encoding of the size it decodes to. */
  lemma ByteSizeRoundTrip(b: seq<byte>)
    requires |b| == 4
    ensures SizeToByte(ByteToSize(b).value) == Ok(b)
  {
    var size := ByteToSize(b).value;
    var e := SizeToByte(size).value;
    Arith.ModUnique(size.height, 256, b[0] as int, b[1] as int);
    Arith.ModUnique(size.width, 256, b[2] as int, b[3] as int);
    assert e == b;
  }

  /** What `bytesToImage` of 2.0/Support.py hands to PIL, before decoding
      mode and extension as UTF-8. */
  datatype Fields = Fields(size: Size, mode: seq<byte>, ext: seq<byte>, pixels: seq<byte>)

  /** `imageToBytes` of 2.0/Support.py: size, mode padded to a multiple of
      8, extension padded to a multiple of 6, then the pixels. */
  function ImageToBytes(f: Fields): (r: Result<seq<byte>>)
    ensures r.Ok? <==> SizeToByte(f.size).Ok?
    ensures r.Err? ==> r.error == ValueError
    ensures r.Ok? ==> |r.value| == 4 + |AddPadding(f.mode, 8)| + |AddPadding(f.ext, 6)| + |f.pixels|
    ensures r.Ok? ==> r.value[..4] == SizeToByte(f.size).value
    ensures r.Ok? ==> r.value[4 .. 4 + |AddPadding(f.mode, 8)|] == AddPadding(f.mode, 8)
    ensures r.Ok? ==> r.value[4 + |AddPadding(f.mode, 8)| .. |r.value| - |f.pixels|] == AddPadding(f.ext, 6)
    ensures r.Ok? ==> r.value[|r.value| - |f.pixels| ..] == f.pixels
  {
    var size :- SizeToByte(f.size);
    var out := size + AddPadding(f.mode, 8) + AddPadding(f.ext, 6) + f.pixels;
    assert out[..4] == size;
    Ok(out)
  }

  /** `bytesToImage` of 2.0/Support.py: fields cut at offsets 4, 12 and 18
      (clipped to the input, as Python slices are), zero padding stripped
      from mode and extension. Only a size slice of other than four bytes
      fails. */
  function BytesToImage(data: seq<byte>): (r: Result<Fields>)
    ensures r.Ok? <==> |data| >= 4
    ensures r.Err? ==> r.error == ValueError
    ensures r.Ok? ==> |r.value.mode| <= 8 && |r.value.ext| <= 6
    ensures r.Ok? ==> r.value.pixels == Drop(data, 18)
  {
    var size :- ByteToSize(Slice(data, 0, 4));
    Ok(Fields(size, RemovePadding(Slice(data, 4, 12)), RemovePadding(Slice(data, 12, 18)), Drop(data, 18)))
  }

  /** A short byte string with no trailing zero, which its padding to a
      single field of `width` bytes keeps recoverable. */
  predicate FitsField(s: seq<byte>, width: nat) {
    |s| < width && (|s| == 0 || s[|s| - 1] != 0)
  }

  /** Packing and unpacking an image gives back its size, mode, extension
      and pixels when mode and extension each fit their field. */
  lemma ImageRoundTrip(f: Fields)
    requires 0 <= f.size.height < 65536 && 0 <= f.size.width < 65536
    requires FitsField(f.mode, 8) && FitsField(f.ext, 6)
    ensures ImageToBytes(f).Ok?
    ensures BytesToImage(ImageToBytes(f).value) == Ok(f)
  {
    var mode := AddPadding(f.mode, 8);
    var ext := AddPadding(f.ext, 6);
    PadShort(f.mode, 8);
    PadShort(f.ext, 6);
    assert ImageToBytes(f).value == SizeToByte(f.size).value + mode + ext + f.pixels;
    DecodeHeader(f.size, mode, ext, f.pixels);
    PadThenStripRecovers(f.mode, 8);
    PadThenStripRecovers(f.ext, 6);
  }

  /** Any full header decodes to its size, its two fields stripped of
      trailing zeros, and the bytes after it as pixels. */
  lemma DecodeHeader(size: Size, mode: seq<byte>, ext: seq<byte>, pixels: seq<byte>)
    requires 0 <= size.height < 65536 && 0 <= size.width < 65536
    requires |mode| == 8 && |ext| == 6
    ensures BytesToImage(SizeToByte(size).value + mode + ext + pixels)
      == Ok(Fields(size, RemovePadding(mode), RemovePadding(ext), pixels))
  {
    HeaderSlices(SizeToByte(size).value, mode, ext, pixels);
    SizeRoundTrip(size);
  }

  /** The decoder's slices of a 4 + 8 + 6 byte header cut out the fields
      the encoder joined. */
  lemma HeaderSlices(size: seq<byte>, mode: seq<byte>, ext: seq<byte>, rest: seq<byte>)
    requires |size| == 4 && |mode| == 8 && |ext| == 6
    ensures var data := size + mode + ext + rest;
      && Slice(data, 0, 4) == size
      && Slice(data, 4, 12) == mode
      && Slice(data, 12, 18) == ext
      && Drop(data, 18) == rest
  {
    var data := size + mode + ext + rest;
    assert data[..4] == size;
    assert data[4 .. 12] == mode;
    assert data[12 .. 18] == ext;
    assert data[18..] == rest;
  }

  /** A mode of exactly eight bytes is padded with a whole second block of
      zeros, so the extension field reads eight zeros of padding and comes
      back empty, and the pixels are read two bytes early. */
  lemma EightByteModeShiftsLayout(f: Fields)
    requires 0 <= f.size.height < 65536 && 0 <= f.size.width < 65536
    requires |f.mode| == 8 && f.mode[7] != 0
    ensures ImageToBytes(f).Ok?
    ensures BytesToImage(ImageToBytes(f).value).Ok?
    ensures BytesToImage(ImageToBytes(f).value).value.mode == f.mode
    ensures BytesToImage(ImageToBytes(f).value).value.ext == []
    ensures BytesToImage(ImageToBytes(f).value).value.pixels == [0, 0] + AddPadding(f.ext, 6) + f.pixels
  {
    var size := SizeToByte(f.size).value;
    var mode := AddPadding(f.mode, 8);
    var ext := AddPadding(f.ext, 6);
    var data := ImageToBytes(f).value;
    assert data == size + mode + ext + f.pixels;
    assert |mode| == 16;
    assert Slice(data, 4, 12) == f.mode;
    assert Slice(data, 12, 18) == [0, 0, 0, 0, 0, 0];
    assert Drop(data, 18) == [0, 0] + ext + f.pixels;
    RemovePaddingUnique(f.mode, f.mode);
    RemovePaddingUnique([0, 0, 0, 0, 0, 0], []);
  }

  /** What `bytesToImage` of module/Support.py hands to PIL: that file's
      header has no extension field. */
  datatype PlainFields = PlainFields(size: Size, mode: seq<byte>, pixels: seq<byte>)

  /** `imageToBytes` of module/Support.py: size, mode padded to a multiple
      of 8, then the pixels. */
  function PlainImageToBytes(f: PlainFields): (r: Result<seq<byte>>)
    ensures r.Ok? <==> SizeToByte(f.size).Ok?
    ensures r.Err? ==> r.error == ValueError
    ensures r.Ok? ==> |r.value| == 4 + |AddPadding(f.mode, 8)| + |f.pixels|
    ensures r.Ok? ==> r.value[..4] == SizeToByte(f.size).value
    ensures r.Ok? ==> r.value[|r.value| - |f.pixels| ..] == f.pixels
    ensures r.Ok? && |f.mode| < 8 ==> |r.value| == 12 + |f.pixels|
  {
    var size :- SizeToByte(f.size);
    var out := size + AddPadding(f.mode, 8) + f.pixels;
    assert out[..4] == size;
    Ok(out)
  }

  /** `bytesToImage` of module/Support.py, cut at offsets 4 and 12. The
      mode is kept as the stripped bytes: the source turns them into text
      with `__str__`, which gives their printed form, not a decoding. */
  function PlainBytesToImage(data: seq<byte>): (r: Result<PlainFields>)
    ensures r.Ok? <==> |data| >= 4
    ensures r.Err? ==> r.error == ValueError
    ensures r.Ok? ==> |r.value.mode| <= 8
    ensures r.Ok? ==> r.value.pixels == Drop(data, 12)
  {
    var size :- ByteToSize(Slice(data, 0, 4));
    Ok(PlainFields(size, RemovePadding(Slice(data, 4, 12)), Drop(data, 12)))
  }

  /** The 12-byte header round trip. */
  lemma PlainImageRoundTrip(f: PlainFields)
    requires 0 <= f.size.height < 65536 && 0 <= f.size.width < 65536
    requires FitsField(f.mode, 8)
    ensures PlainImageToBytes(f).Ok?
    ensures PlainBytesToImage(PlainImageToBytes(f).value) == Ok(f)
  {
    var size := SizeToByte(f.size).value;
    var mode := AddPadding(f.mode, 8);
    var data := PlainImageToBytes(f).value;
    assert data == size + mode + f.pixels;
    PadShort(f.mode, 8);
    assert Slice(data, 0, 4) == size;
    assert Slice(data, 4, 12) == mode;
    assert Drop(data, 12) == f.pixels;
    SizeRoundTrip(f.size);
    PadThenStripRecovers(f.mode, 8);
  }
}
