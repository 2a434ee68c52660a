/** The version-0 boot image header: a 48-byte record
    ('8sIIIIIIIIII': magic and ten words) followed by a 560-byte record
    ('16s512sIIIIIIII': board name, command line and eight id words),
    608 bytes in all, at offset 0 of the image. */
module BootHeader {
  import opened Bytes

  const FixedSize: nat := 48
  const TextSize: nat := 560
  const HeaderSize: nat := 608
  const NameWidth: nat := 16
  const CmdlineWidth: nat := 512

  /** "ANDROID!" */
  const Magic: seq<Byte> := [0x41, 0x4E, 0x44, 0x52, 0x4F, 0x49, 0x44, 0x21]

  /** The header fields as `struct` sees them: the text fields are the raw
      fixed-width byte arrays, NUL padding included. */
  datatype Header = Header(
    magic: seq<Byte>,
    kernelSize: U32, kernelAddr: U32,
    ramdiskSize: U32, ramdiskAddr: U32,
    secondSize: U32, secondAddr: U32,
    tagsAddr: U32, pageSize: U32,
    dtSize: U32, unused: U32,
    name: seq<Byte>, cmdline: seq<Byte>,
    id: seq<U32>)
  {
    /** Every fixed-width field has its width. */
    predicate WellFormed() {
      |magic| == 8 && |name| == NameWidth && |cmdline| == CmdlineWidth && |id| == 8
    }

    /** The ten words of the first record, in their on-disk order. */
    function FixedWords(): (ws: seq<U32>)
      ensures |ws| == 10
    {
      [kernelSize, kernelAddr, ramdiskSize, ramdiskAddr, secondSize,
       secondAddr, tagsAddr, pageSize, dtSize, unused]
    }
  }

  /** struct.pack('16s', s) and struct.pack('512s', s): truncated to
      `width` bytes, or padded with NUL bytes up to it. */
  function PackText(s: seq<Byte>, width: nat): (r: seq<Byte>)
    ensures |r| == width
    ensures |s| >= width ==> r == s[..width]
    ensures |s| < width ==> r[..|s|] == s && forall i :: |s| <= i < width ==> r[i] == 0
  {
    if |s| >= width then s[..width] else s + Zeros(width - |s|)
  }

  /** `field[0:field.index('\0')]`: the bytes before the first NUL, or None
      where `str.index` raises because the field holds no NUL at all. */
  function CutAtNul(field: seq<Byte>): (r: Option<seq<Byte>>)
    ensures r.None? <==> 0 !in field
    ensures r.Some? ==> |r.value| < |field| && field[..|r.value|] == r.value
                        && field[|r.value|] == 0 && 0 !in r.value
  {
    if field == [] then None
    else if field[0] == 0 then Some([])
    else match CutAtNul(field[1..])
      case None => None
      case Some(rest) => Some([field[0]] + rest)
  }

  /** struct.pack('8sIIIIIIIIII', ...): the first record. */
  function EncodeFixed(h: Header): (r: seq<Byte>)
    requires h.WellFormed()
    ensures |r| == FixedSize
  {
    h.magic + EncodeWords(h.FixedWords())
  }

  /** struct.pack('16s512sIIIIIIII', ...): the second record. */
  function EncodeText(h: Header): (r: seq<Byte>)
    requires h.WellFormed()
    ensures |r| == TextSize
  {
    h.name + h.cmdline + EncodeWords(h.id)
  }

  /** Both records, back to back: the 608 bytes the repacker writes over the
      start of the image. */
  function EncodeHeader(h: Header): (r: seq<Byte>)
    requires h.WellFormed()
    ensures |r| == HeaderSize
  {
    EncodeFixed(h) + EncodeText(h)
  }

  /** struct.unpack of the 48-byte record and of the 560-byte record. */
  function DecodeHeader(fixed: seq<Byte>, text: seq<Byte>): (h: Header)
    requires |fixed| == FixedSize && |text| == TextSize
    ensures h.WellFormed()
    ensures EncodeHeader(h) == fixed + text
  {
    var ws := DecodeWords(fixed[8..]);
    var h := Header(fixed[..8], ws[0], ws[1], ws[2], ws[3], ws[4], ws[5], ws[6], ws[7], ws[8], ws[9],
                    text[..16], text[16..528], DecodeWords(text[528..]));
    assert h.FixedWords() == ws;
    EncodeDecodeWords(fixed[8..]);
    EncodeDecodeWords(text[528..]);
    assert fixed == fixed[..8] + fixed[8..];
    assert text == text[..16] + text[16..528] + text[528..];
    h
  }

  /** Decoding what was encoded gives back every field. */
  lemma DecodeEncodeHeader(h: Header)
    requires h.WellFormed()
    ensures var e := EncodeHeader(h); DecodeHeader(e[..FixedSize], e[FixedSize..]) == h
  {
    var e := EncodeHeader(h);
    var fixed, text := e[..FixedSize], e[FixedSize..];
    assert fixed[..8] == h.magic;
    assert fixed[8..] == EncodeWords(h.FixedWords());
    assert text[..16] == h.name;
    assert text[16..528] == h.cmdline;
    assert text[528..] == EncodeWords(h.id);
    DecodeEncodeWords(h.FixedWords());
    DecodeEncodeWords(h.id);
  }

  /** A text field shorter than its width and free of NULs comes back
      unchanged from packing and cutting at the first NUL. */
  lemma CutPackedText(s: seq<Byte>, width: nat)
    requires |s| < width && 0 !in s
    ensures CutAtNul(PackText(s, width)) == Some(s)
  {
    var f := PackText(s, width);
    var r := CutAtNul(f);
    assert f[|s|] == 0;
    assert r.Some?;
    assert r.value == f[..|s|] == s;
  }

  /** A text at least as wide as its field loses its terminator: when the
      kept bytes hold no NUL, the field cannot be cut and reading it fails. */
  lemma FullWidthTextUncuttable(s: seq<Byte>, width: nat)
    requires |s| >= width && 0 !in s[..width]
    ensures CutAtNul(PackText(s, width)) == None
  {
  }
}
