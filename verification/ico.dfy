/** The two icon generators (create_temperature_icons.py, create_icon.py):
    a Microsoft ICO container holding one 16x16 32-bit image, written as an
    ICONDIR header, one ICONDIRENTRY, a BITMAPINFOHEADER and the pixel
    block, all little-endian as `struct.pack('<...')` lays them out.  The
    scripts write the rows top-down and emit no AND mask; the model states
    the bytes they produce and nothing beyond the fields they pack. */
module Ico {
  import opened Common

  /** One pixel in the byte order the scripts use: blue, green, red, alpha. */
  datatype Bgra = Bgra(b: byte, g: byte, r: byte, a: byte)

  function PixelBytes(c: Bgra): seq<byte>
  {
    [c.b, c.g, c.r, c.a]
  }

  // ---------------------------------------------------------------------
  // Little-endian fields.

  /** `struct.pack('<H', v)`. */
  function U16LE(v: nat): (s: seq<byte>)
    requires v < 0x1_0000
    ensures |s| == 2
  {
    [(v % 256) as byte, (v / 256) as byte]
  }

  /** `struct.pack('<L', v)`. */
  function U32LE(v: nat): (s: seq<byte>)
    requires v < 0x1_0000_0000
    ensures |s| == 4
  {
    [(v % 256) as byte, (v / 256 % 256) as byte, (v / 0x1_0000 % 256) as byte, (v / 0x100_0000) as byte]
  }

  function ReadU16LE(s: seq<byte>, at: nat): nat
    requires at + 2 <= |s|
  {
    s[at] as nat + 256 * s[at + 1] as nat
  }

  function ReadU32LE(s: seq<byte>, at: nat): nat
    requires at + 4 <= |s|
  {
    s[at] as nat + 256 * s[at + 1] as nat + 0x1_0000 * s[at + 2] as nat + 0x100_0000 * s[at + 3] as nat
  }

  /** Reading a packed field gives the value back. */
  lemma U16RoundTrip(v: nat)
    requires v < 0x1_0000
    ensures ReadU16LE(U16LE(v), 0) == v
  {
  }

  lemma U32RoundTrip(v: nat)
    requires v < 0x1_0000_0000
    ensures ReadU32LE(U32LE(v), 0) == v
  {
  }

  // ---------------------------------------------------------------------
  // Packed records: a `struct.pack('<...')` format is a sequence of fields.

  /** One field of a little-endian format: `B`, `H` or `L`. */
  datatype Field = U8(v: nat) | U16(v: nat) | U32(v: nat)

  function FieldSize(f: Field): nat
  {
    match f
    case U8(_) => 1
    case U16(_) => 2
    case U32(_) => 4
  }

  /** The value fits the field, as `struct.pack` demands. */
  predicate Fits(f: Field)
  {
    match f
    case U8(v) => v < 0x100
    case U16(v) => v < 0x1_0000
    case U32(v) => v < 0x1_0000_0000
  }

  predicate AllFit(fs: seq<Field>)
  {
    forall i :: 0 <= i < |fs| ==> Fits(fs[i])
  }

  function PackField(f: Field): (s: seq<byte>)
    requires Fits(f)
    ensures |s| == FieldSize(f)
  {
    match f
    case U8(v) => [v as byte]
    case U16(v) => U16LE(v)
    case U32(v) => U32LE(v)
  }

  function ReadField(s: seq<byte>, at: nat, f: Field): nat
    requires at + FieldSize(f) <= |s|
  {
    match f
    case U8(_) => s[at] as nat
    case U16(_) => ReadU16LE(s, at)
    case U32(_) => ReadU32LE(s, at)
  }

  function SizeOf(fs: seq<Field>): nat
  {
    if |fs| == 0 then 0 else FieldSize(fs[0]) + SizeOf(fs[1..])
  }

  /** Where field `i` starts: the sizes of the fields before it. */
  function Offset(fs: seq<Field>, i: nat): nat
    requires i <= |fs|
  {
    SizeOf(fs[..i])
  }

  /** `struct.pack`: the fields' bytes one after another. */
  function Pack(fs: seq<Field>): (s: seq<byte>)
    requires AllFit(fs)
    ensures |s| == SizeOf(fs)
  {
    if |fs| == 0 then [] else PackField(fs[0]) + Pack(fs[1..])
  }

  lemma FieldRoundTrip(f: Field)
    requires Fits(f)
    ensures ReadField(PackField(f), 0, f) == f.v
  {
    match f
    case U8(v) =>
    case U16(v) => U16RoundTrip(v);
    case U32(v) => U32RoundTrip(v);
  }

  /** A field read sees only its own bytes. */
  lemma ReadFieldPrefix(a: seq<byte>, b: seq<byte>, at: nat, f: Field)
    requires at + FieldSize(f) <= |a|
    ensures ReadField(a + b, at, f) == ReadField(a, at, f)
  {
  }

  lemma ReadFieldSuffix(a: seq<byte>, b: seq<byte>, at: nat, f: Field)
    requires at + FieldSize(f) <= |b|
    ensures ReadField(a + b, |a| + at, f) == ReadField(b, at, f)
  {
  }

  lemma {:induction false} SizeOfAppend(fs: seq<Field>, gs: seq<Field>)
    ensures SizeOf(fs + gs) == SizeOf(fs) + SizeOf(gs)
  {
    if |fs| > 0 {
      assert (fs + gs)[1..] == fs[1..] + gs;
      SizeOfAppend(fs[1..], gs);
    } else {
      assert fs + gs == gs;
    }
  }

  lemma {:induction false} PackAppend(fs: seq<Field>, gs: seq<Field>)
    requires AllFit(fs) && AllFit(gs)
    ensures AllFit(fs + gs)
    ensures Pack(fs + gs) == Pack(fs) + Pack(gs)
  {
    if |fs| > 0 {
      assert (fs + gs)[1..] == fs[1..] + gs;
      PackAppend(fs[1..], gs);
    } else {
      assert fs + gs == gs;
    }
  }

  /** Unpacking a packed record: every field read at its offset gives back
      the value that was packed there. */
  lemma {:induction false} PackReadBack(fs: seq<Field>, i: nat)
    requires AllFit(fs) && i < |fs|
    ensures Offset(fs, i) + FieldSize(fs[i]) <= SizeOf(fs)
    ensures ReadField(Pack(fs), Offset(fs, i), fs[i]) == fs[i].v
  {
    if i == 0 {
      assert fs[..0] == [];
      FieldRoundTrip(fs[0]);
      ReadFieldPrefix(PackField(fs[0]), Pack(fs[1..]), 0, fs[0]);
    } else {
      assert fs[..i] == [fs[0]] + fs[1..][..i - 1];
      SizeOfAppend([fs[0]], fs[1..][..i - 1]);
      assert SizeOf([fs[0]]) == FieldSize(fs[0]) by {
        assert [fs[0]][1..] == [];
      }
      PackReadBack(fs[1..], i - 1);
      ReadFieldSuffix(PackField(fs[0]), Pack(fs[1..]), Offset(fs[1..], i - 1), fs[i]);
    }
  }

  // ---------------------------------------------------------------------
  // The fixed parts.

  const Width: nat := 16
  const Height: nat := 16
  const BitCount: nat := 32
  const BitmapInfoHeaderSize: nat := 40
  /** `width * height * 4`. */
  const ImageBytes: nat := 1024
  /** `40 + width * height * 4`, the ICONDIRENTRY's byte count. */
  const ImageSize: nat := 1064
  /** The ICONDIRENTRY's offset of the image. */
  const ImageOffset: nat := 22

  /** ICONDIR `<HHH`: reserved 0, type 1 (icon), one image. */
  const IconDirFields: seq<Field> := [U16(0), U16(1), U16(1)]

  /** ICONDIRENTRY `<BBBBHHLL`: 16 by 16, no palette, reserved, one plane,
      32 bits per pixel, 1064 bytes at offset 22. */
  const DirEntryFields: seq<Field> :=
    [U8(Width), U8(Height), U8(0), U8(0), U16(1), U16(BitCount), U32(ImageSize), U32(ImageOffset)]

  /** BITMAPINFOHEADER `<LLLHHLLLLLL`, with the height doubled as the ICO
      container expects, no compression and the image size. */
  const BitmapInfoFields: seq<Field> :=
    [U32(BitmapInfoHeaderSize), U32(Width), U32(2 * Height), U16(1), U16(BitCount),
     U32(0), U32(ImageBytes), U32(0), U32(0), U32(0), U32(0)]

  /** Every field the scripts pack before the pixels, in file order. */
  const HeaderLayout: seq<Field> := IconDirFields + DirEntryFields + BitmapInfoFields

  lemma {:induction false} SizeOfSuffix(fs: seq<Field>, k: nat)
    requires k < |fs|
    ensures SizeOf(fs[k..]) == FieldSize(fs[k]) + SizeOf(fs[k + 1..])
  {
    assert fs[k..][1..] == fs[k + 1..];
  }

  lemma IconDirFit()
    ensures AllFit(IconDirFields) && SizeOf(IconDirFields) == 6
  {
    var fs := IconDirFields;
    assert fs[3..] == [];
    SizeOfSuffix(fs, 2);
    SizeOfSuffix(fs, 1);
    SizeOfSuffix(fs, 0);
    assert fs[0..] == fs;
  }

  lemma DirEntryFit()
    ensures AllFit(DirEntryFields) && SizeOf(DirEntryFields) == 16
  {
    var fs := DirEntryFields;
    assert fs[8..] == [];
    SizeOfSuffix(fs, 7);
    SizeOfSuffix(fs, 6);
    SizeOfSuffix(fs, 5);
    SizeOfSuffix(fs, 4);
    SizeOfSuffix(fs, 3);
    SizeOfSuffix(fs, 2);
    SizeOfSuffix(fs, 1);
    SizeOfSuffix(fs, 0);
    assert fs[0..] == fs;
  }

  lemma BitmapInfoFit()
    ensures AllFit(BitmapInfoFields) && SizeOf(BitmapInfoFields) == 40
  {
    var fs := BitmapInfoFields;
    assert fs[11..] == [];
    SizeOfSuffix(fs, 10);
    SizeOfSuffix(fs, 9);
    SizeOfSuffix(fs, 8);
    SizeOfSuffix(fs, 7);
    SizeOfSuffix(fs, 6);
    SizeOfSuffix(fs, 5);
    SizeOfSuffix(fs, 4);
    SizeOfSuffix(fs, 3);
    SizeOfSuffix(fs, 2);
    SizeOfSuffix(fs, 1);
    SizeOfSuffix(fs, 0);
    assert fs[0..] == fs;
  }

  lemma FixedPartsFit()
    ensures AllFit(IconDirFields) && AllFit(DirEntryFields) && AllFit(BitmapInfoFields)
    ensures SizeOf(IconDirFields) == 6 && SizeOf(DirEntryFields) == 16 && SizeOf(BitmapInfoFields) == 40
  {
    IconDirFit();
    DirEntryFit();
    BitmapInfoFit();
  }

  function IcoHeader(): (s: seq<byte>)
    ensures |s| == 6
  {
    FixedPartsFit();
    Pack(IconDirFields)
  }

  function DirectoryEntry(): (s: seq<byte>)
    ensures |s| == 16
  {
    FixedPartsFit();
    Pack(DirEntryFields)
  }

  function BitmapInfoHeader(): (s: seq<byte>)
    ensures |s| == 40
  {
    FixedPartsFit();
    Pack(BitmapInfoFields)
  }

  /** The header bytes are the packing of the whole header layout. */
  lemma HeaderIsPackedLayout()
    ensures AllFit(HeaderLayout)
    ensures IcoHeader() + DirectoryEntry() + BitmapInfoHeader() == Pack(HeaderLayout)
  {
    FixedPartsFit();
    PackAppend(IconDirFields, DirEntryFields);
    PackAppend(IconDirFields + DirEntryFields, BitmapInfoFields);
  }

  // ---------------------------------------------------------------------
  // The thermometer picture.

  datatype PixelKind = Tube | TubeOutline | Bulb | BulbOutline | Background

  /** The first rule that matches decides, in the scripts' order. */
  function KindAt(x: nat, y: nat): PixelKind
  {
    if x == 8 && y < 12 then Tube
    else if (x == 7 || x == 9) && y < 12 then TubeOutline
    else if 6 <= x <= 10 && 12 <= y <= 14 then Bulb
    else if 5 <= x <= 11 && 11 <= y <= 15 then BulbOutline
    else Background
  }

  const OutlineColour: Bgra := Bgra(0, 0, 0, 255)
  const Transparent: Bgra := Bgra(0, 0, 0, 0)

  function ColourOf(k: PixelKind, fill: Bgra): Bgra
  {
    match k
    case Tube => fill
    case Bulb => fill
    case TubeOutline => OutlineColour
    case BulbOutline => OutlineColour
    case Background => Transparent
  }

  /** The pixel block: 256 pixels, row `y` after row `y - 1`, `x` ascending
      within a row, four bytes each. */
  function PixelBlock(fill: Bgra): (s: seq<byte>)
    ensures |s| == ImageBytes
  {
    seq(ImageBytes, k requires 0 <= k < ImageBytes =>
      PixelBytes(ColourOf(KindAt((k / 4) % Width, (k / 4) / Width), fill))[k % 4])
  }

  /** The file the scripts produce. */
  function IcoFile(fill: Bgra): seq<byte>
  {
    IcoHeader() + DirectoryEntry() + BitmapInfoHeader() + PixelBlock(fill)
  }

  lemma PixelBlockSlice(fill: Bgra, x: nat, y: nat)
    requires x < Width && y < Height
    ensures 64 * y + 4 * x + 4 <= ImageBytes
    ensures PixelBlock(fill)[64 * y + 4 * x .. 64 * y + 4 * x + 4] == PixelBytes(ColourOf(KindAt(x, y), fill))
  {
    var base := 64 * y + 4 * x;
    forall j | 0 <= j < 4
      ensures PixelBlock(fill)[base + j] == PixelBytes(ColourOf(KindAt(x, y), fill))[j]
    {
      var k := base + j;
      assert k / 4 == 16 * y + x;
      assert k % 4 == j;
      assert (k / 4) % 16 == x && (k / 4) / 16 == y;
    }
  }

  /** The nested loops of the scripts: rows top-down, columns left to right,
      each pixel's four bytes appended by the first matching rule. */
  method EncodePixels(fill: Bgra) returns (image: seq<byte>)
    ensures image == PixelBlock(fill)
    ensures forall x, y :: 0 <= x < Width && 0 <= y < Height ==>
      image[64 * y + 4 * x .. 64 * y + 4 * x + 4] == PixelBytes(ColourOf(KindAt(x, y), fill))
  {
    image := [];
    var y := 0;
    while y < Height
      invariant 0 <= y <= Height
      invariant image == PixelBlock(fill)[..64 * y]
    {
      var x := 0;
      while x < Width
        invariant 0 <= x <= Width
        invariant image == PixelBlock(fill)[..64 * y + 4 * x]
      {
        var px: seq<byte>;
        if x == 8 && y < 12 {
          px := PixelBytes(fill);
        } else if (x == 7 || x == 9) && y < 12 {
          px := [0, 0, 0, 255];
        } else if 6 <= x <= 10 && 12 <= y <= 14 {
          px := PixelBytes(fill);
        } else if 5 <= x <= 11 && 11 <= y <= 15 {
          px := [0, 0, 0, 255];
        } else {
          px := [0, 0, 0, 0];
        }
        PixelBlockSlice(fill, x, y);
        var n := 64 * y + 4 * x;
        assert PixelBlock(fill)[..n + 4] == PixelBlock(fill)[..n] + PixelBlock(fill)[n..n + 4];
        image := image + px;
        x := x + 1;
      }
      y := y + 1;
    }
    assert image == PixelBlock(fill);
    forall x, y | 0 <= x < Width && 0 <= y < Height
      ensures image[64 * y + 4 * x .. 64 * y + 4 * x + 4] == PixelBytes(ColourOf(KindAt(x, y), fill))
    {
      PixelBlockSlice(fill, x, y);
    }
  }

  /** The data opens with every header field at its offset, holding the
      value the scripts pack there. */
  predicate HeaderFields(data: seq<byte>)
  {
    forall i :: 0 <= i < |HeaderLayout| ==>
      Offset(HeaderLayout, i) + FieldSize(HeaderLayout[i]) <= |data| &&
      ReadField(data, Offset(HeaderLayout, i), HeaderLayout[i]) == HeaderLayout[i].v
  }

  predicate PackedAsScripts(data: seq<byte>)
  {
    |data| == 6 + 16 + 40 + ImageBytes && HeaderFields(data)
  }

  /** The declared offset is where the BITMAPINFOHEADER starts, and the
      declared size is what follows it to the end of the file. */
  lemma LayoutIsSelfConsistent(fill: Bgra)
    ensures |IcoHeader()| + |DirectoryEntry()| == ImageOffset
    ensures |BitmapInfoHeader()| + |PixelBlock(fill)| == ImageSize
    ensures |IcoFile(fill)| == ImageOffset + ImageSize
    ensures IcoFile(fill)[ImageOffset..] == BitmapInfoHeader() + PixelBlock(fill)
  {
    assert IcoFile(fill) == (IcoHeader() + DirectoryEntry()) + (BitmapInfoHeader() + PixelBlock(fill));
  }

  lemma IcoFilePacked(fill: Bgra)
    ensures PackedAsScripts(IcoFile(fill))
  {
    HeaderIsPackedLayout();
    var h := Pack(HeaderLayout);
    assert IcoFile(fill) == h + PixelBlock(fill);
    forall i | 0 <= i < |HeaderLayout|
      ensures Offset(HeaderLayout, i) + FieldSize(HeaderLayout[i]) <= |IcoFile(fill)|
      ensures ReadField(IcoFile(fill), Offset(HeaderLayout, i), HeaderLayout[i]) == HeaderLayout[i].v
    {
      PackReadBack(HeaderLayout, i);
      ReadFieldPrefix(h, PixelBlock(fill), Offset(HeaderLayout, i), HeaderLayout[i]);
    }
  }

  /** `create_colored_ico`: header, directory entry, bitmap header, pixels
      (the file write is left out). */
  method CreateColoredIco(fill: Bgra) returns (data: seq<byte>)
    ensures data == IcoFile(fill)
    ensures PackedAsScripts(data)
    ensures |data| == 1086
    ensures forall x, y :: 0 <= x < Width && 0 <= y < Height ==>
      data[62 + 64 * y + 4 * x .. 62 + 64 * y + 4 * x + 4] == PixelBytes(ColourOf(KindAt(x, y), fill))
  {
    var image := EncodePixels(fill);
    data := IcoHeader() + DirectoryEntry() + BitmapInfoHeader() + image;
    IcoFilePacked(fill);
    assert data[62..] == image;
    forall x, y | 0 <= x < Width && 0 <= y < Height
      ensures data[62 + 64 * y + 4 * x .. 62 + 64 * y + 4 * x + 4] == PixelBytes(ColourOf(KindAt(x, y), fill))
    {
      assert data[62 + 64 * y + 4 * x .. 62 + 64 * y + 4 * x + 4] == image[64 * y + 4 * x .. 64 * y + 4 * x + 4];
    }
  }

  /** The three colours the script's main block passes. */
  const CoolColour: Bgra := Bgra(0, 255, 0, 255)
  const WarmColour: Bgra := Bgra(0, 165, 255, 255)
  const HotColour: Bgra := Bgra(0, 0, 255, 255)

  /** The red of create_icon.py. */
  const SimpleIconColour: Bgra := Bgra(0, 0, 255, 255)

  /** `create_simple_ico`: the same layout and rule with a red thermometer. */
  method CreateSimpleIco() returns (data: seq<byte>)
    ensures data == IcoFile(SimpleIconColour)
    ensures PackedAsScripts(data)
    ensures |data| == 1086
    ensures forall x, y :: 0 <= x < Width && 0 <= y < Height && KindAt(x, y) in {Tube, Bulb} ==>
      data[62 + 64 * y + 4 * x .. 62 + 64 * y + 4 * x + 4] == [0, 0, 255, 255]
    ensures forall x, y :: 0 <= x < Width && 0 <= y < Height && KindAt(x, y) in {TubeOutline, BulbOutline} ==>
      data[62 + 64 * y + 4 * x .. 62 + 64 * y + 4 * x + 4] == [0, 0, 0, 255]
    ensures forall x, y :: 0 <= x < Width && 0 <= y < Height && KindAt(x, y) == Background ==>
      data[62 + 64 * y + 4 * x .. 62 + 64 * y + 4 * x + 4] == [0, 0, 0, 0]
  {
    data := CreateColoredIco(SimpleIconColour);
  }

  /** The generic tray icon is byte for byte the "hot" state icon. */
  lemma SimpleIconIsHotIcon()
    ensures IcoFile(SimpleIconColour) == IcoFile(HotColour)
  {
  }
}
