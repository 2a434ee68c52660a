/** What the two scripts promise about each other and about the image:
    where every byte of an assembled image lies, what the digest covers,
    when each script fails, and that unpacking a repacked image gives back
    what was packed. */
module RoundTrip {
  import opened Bytes
  import opened Geometry
  import opened BootHeader
  import opened Repack
  import opened Unpack

  /** A word decoded from a packed run of words sits at four times its index. */
  lemma {:induction false} DecodeWordsAt(s: seq<Byte>, i: nat)
    requires |s| % 4 == 0 && 4 * i + 4 <= |s|
    ensures DecodeWords(s)[i] == DecodeU32(s[4 * i..4 * i + 4])
  {
    if i > 0 {
      DecodeWordsAt(s[4..], i - 1);
      assert s[4..][4 * (i - 1)..4 * (i - 1) + 4] == s[4 * i..4 * i + 4];
    }
  }

  /** The unpacker fails exactly on an image shorter than the 608 header
      bytes, on a board name or command line field with no NUL, and on a
      page size word of 0. Nothing else is checked: in particular not the
      magic, and not whether the segments fit in the image. */
  lemma DisassembleSucceeds(data: seq<Byte>)
    ensures Disassemble(data).Ok? <==>
              |data| >= HeaderSize && 0 in data[48..64] && 0 in data[64..576]
              && DecodeU32(data[36..40]) != 0
  {
    if |data| >= HeaderSize {
      var fixed := data[..FixedSize];
      DecodeWordsAt(fixed[8..], 7);
      forall j | 0 <= j < 4
        ensures fixed[8..][28..32][j] == data[36..40][j]
      {
        assert fixed[8..][28..32][j] == fixed[36 + j] == data[36 + j];
      }
      assert fixed[8..][28..32] == data[36..40];
      assert data[FixedSize..HeaderSize][..16] == data[48..64];
      assert data[FixedSize..HeaderSize][16..528] == data[64..576];
    }
  }

  /** Every extracted segment is the part of the image at its offset that
      the image still holds: complete when the image is long enough, the
      available prefix when it is truncated. */
  lemma ClipIsAvailablePrefix(data: seq<Byte>, from: nat, len: nat)
    ensures |Clip(data, from, len)| == len <==> len == 0 || from + len <= |data|
    ensures from <= |data| ==> Clip(data, from, len) == data[from..][..Min(len, |data| - from)]
  {
  }

  /** For a nonzero page size an absent segment is the same as an empty
      one: no bytes in the output, and the size word 0 fed to the digest.
      At page size 0 they differ: an empty file fails on `0 % 0`, a
      missing one does not. */
  lemma MissingSegment(pageSize: int)
    ensures Written(None, pageSize) == [] && Written(Some([]), pageSize) == []
    ensures Fed(None) == Fed(Some([])) == [0, 0, 0, 0]
    ensures AppendResult(None, pageSize) == AppendResult(Some([]), pageSize) <==> pageSize != 0
    ensures AppendResult(None, pageSize) == Ok(0)
  {
    assert Fed(None) == EncodeLE(0, 4);
  }

  /** The digest message is the three segments in order, each followed by
      its 4-byte little-endian size. */
  lemma DigestMessageOrder(kernel: Option<seq<Byte>>, ramdisk: Option<seq<Byte>>, second: Option<seq<Byte>>)
    requires FitsU32(|Supplied(kernel)|) && FitsU32(|Supplied(ramdisk)|) && FitsU32(|Supplied(second)|)
    ensures var k, r, s := Supplied(kernel), Supplied(ramdisk), Supplied(second);
            DigestMessage(kernel, ramdisk, second)
              == k + EncodeU32(|k|) + r + EncodeU32(|r|) + s + EncodeU32(|s|)
  {
  }

  /** The header's id0..id4 are the 20 digest bytes of that message read
      as five words, and id5..id7 are zero. */
  lemma HeaderCarriesDigest(cfg: Config, kernel: Option<seq<Byte>>, ramdisk: Option<seq<Byte>>,
                            second: Option<seq<Byte>>, sha1: seq<Byte> -> Digest)
    requires cfg.FieldsFit()
    requires FitsU32(|Supplied(kernel)|) && FitsU32(|Supplied(ramdisk)|) && FitsU32(|Supplied(second)|)
    ensures var h := AssembledHeader(cfg, kernel, ramdisk, second, sha1);
            EncodeWords(h.id[..5]) == sha1(DigestMessage(kernel, ramdisk, second))
            && h.id[5..] == [0, 0, 0]
  {
    var d := sha1(DigestMessage(kernel, ramdisk, second));
    var ids := DecodeWords(d);
    var h := AssembledHeader(cfg, kernel, ramdisk, second, sha1);
    assert h.id == ids + [0, 0, 0];
    assert h.id[..5] == ids;
    EncodeDecodeWords(d);
  }

  /** The header the repacker writes: magic "ANDROID!", the three sizes,
      the load addresses base + offset, the page size, dt_size and unused
      both 0, and the name and command line packed to their widths. */
  lemma AssembledHeaderFields(cfg: Config, kernel: Option<seq<Byte>>, ramdisk: Option<seq<Byte>>,
                              second: Option<seq<Byte>>, sha1: seq<Byte> -> Digest)
    requires cfg.FieldsFit()
    requires FitsU32(|Supplied(kernel)|) && FitsU32(|Supplied(ramdisk)|) && FitsU32(|Supplied(second)|)
    ensures var h := AssembledHeader(cfg, kernel, ramdisk, second, sha1);
            var e := EncodeHeader(h);
            && e[..8] == Magic
            && DecodeWords(e[8..FixedSize]) == [
                 |Supplied(kernel)|, cfg.base + cfg.kernelOffset,
                 |Supplied(ramdisk)|, cfg.base + cfg.ramdiskOffset,
                 |Supplied(second)|, cfg.base + cfg.secondOffset,
                 cfg.base + cfg.tagsOffset, cfg.pageSize, 0, 0]
            && e[FixedSize..FixedSize + NameWidth] == PackText(cfg.name, NameWidth)
            && e[FixedSize + NameWidth..FixedSize + NameWidth + CmdlineWidth] == PackText(cfg.cmdline, CmdlineWidth)
  {
    var h := AssembledHeader(cfg, kernel, ramdisk, second, sha1);
    var e := EncodeHeader(h);
    var fixed, text := EncodeFixed(h), EncodeText(h);
    assert e[..FixedSize] == fixed && e[FixedSize..] == text;
    assert e[8..FixedSize] == fixed[8..] == EncodeWords(h.FixedWords());
    assert e[FixedSize..FixedSize + NameWidth] == text[..NameWidth] == h.name;
    assert e[FixedSize + NameWidth..FixedSize + NameWidth + CmdlineWidth] == text[NameWidth..NameWidth + CmdlineWidth] == h.cmdline;
    DecodeEncodeWords(h.FixedWords());
  }

  /** An absent or empty segment padded is empty; a present one is what
      `append` wrote. */
  lemma WrittenIsPadded(file: Option<seq<Byte>>, pageSize: int)
    ensures Written(file, pageSize) == Padded(Supplied(file), pageSize)
  {
  }

  /** With a page of at least 608 bytes the image is the header, zeros to
      the end of the first page, then kernel, ramdisk and second stage,
      each padded to whole pages; its length is one page plus the three
      footprints. */
  lemma ImageLayout(cfg: Config, kernel: Option<seq<Byte>>, ramdisk: Option<seq<Byte>>,
                    second: Option<seq<Byte>>, sha1: seq<Byte> -> Digest)
    requires Assemble(cfg, kernel, ramdisk, second, sha1).Ok? && cfg.pageSize >= HeaderSize
    ensures var img := Assemble(cfg, kernel, ramdisk, second, sha1).value;
            var ps := cfg.pageSize;
            var k, r, s := Supplied(kernel), Supplied(ramdisk), Supplied(second);
            && |img| == ps + Footprint(|k|, ps) + Footprint(|r|, ps) + Footprint(|s|, ps)
            && img[..HeaderSize] == EncodeHeader(AssembledHeader(cfg, kernel, ramdisk, second, sha1))
            && (forall i :: HeaderSize <= i < ps ==> img[i] == 0)
            && img[ps..] == Padded(k, ps) + Padded(r, ps) + Padded(s, ps)
  {
    var ps := cfg.pageSize;
    var hdr := EncodeHeader(AssembledHeader(cfg, kernel, ramdisk, second, sha1));
    var tail := BodyLayout(ps, kernel, ramdisk, second);
    HeaderOverZeroPage(ps, hdr, tail);
  }

  /** The body the appends write, for a positive page size: a page of zeros
      and then the three padded segments, whose lengths are their
      footprints. */
  lemma BodyLayout(ps: nat, kernel: Option<seq<Byte>>, ramdisk: Option<seq<Byte>>, second: Option<seq<Byte>>)
    returns (tail: seq<Byte>)
    requires ps > 0
    ensures var k, r, s := Supplied(kernel), Supplied(ramdisk), Supplied(second);
            && tail == Padded(k, ps) + Padded(r, ps) + Padded(s, ps)
            && |tail| == Footprint(|k|, ps) + Footprint(|r|, ps) + Footprint(|s|, ps)
            && Body(ps, kernel, ramdisk, second) == Zeros(ps) + tail
  {
    var k, r, s := Supplied(kernel), Supplied(ramdisk), Supplied(second);
    WrittenIsPadded(kernel, ps);
    WrittenIsPadded(ramdisk, ps);
    WrittenIsPadded(second, ps);
    PaddedLayout(k, ps);
    PaddedLayout(r, ps);
    PaddedLayout(s, ps);
    tail := Padded(k, ps) + Padded(r, ps) + Padded(s, ps);
  }

  /** The header written over a page of zeros followed by `tail`, when the
      page holds the whole header. */
  lemma HeaderOverZeroPage(ps: nat, hdr: seq<Byte>, tail: seq<Byte>)
    requires |hdr| <= ps
    ensures var img := Overwrite(Zeros(ps) + tail, 0, hdr);
            && |img| == ps + |tail|
            && img[..|hdr|] == hdr
            && (forall i :: |hdr| <= i < ps ==> img[i] == 0)
            && img[ps..] == tail
  {
    var body := Zeros(ps) + tail;
    var img := Overwrite(body, 0, hdr);
    if |hdr| < |body| {
      assert img[|hdr|..] == body[|hdr|..];
      forall i | |hdr| <= i < ps
        ensures img[i] == 0
      {
        assert img[i] == body[|hdr|..][i - |hdr|] == body[i];
      }
      assert img[ps..] == body[|hdr|..][ps - |hdr|..] == tail;
    }
  }

  /** Whatever the page size, the 608 header bytes sit at offset 0: with a
      page smaller than 608 bytes they cover the start of the kernel. */
  lemma HeaderAtStart(cfg: Config, kernel: Option<seq<Byte>>, ramdisk: Option<seq<Byte>>,
                      second: Option<seq<Byte>>, sha1: seq<Byte> -> Digest)
    requires Assemble(cfg, kernel, ramdisk, second, sha1).Ok?
    ensures var img := Assemble(cfg, kernel, ramdisk, second, sha1).value;
            var body := Body(cfg.pageSize, kernel, ramdisk, second);
            && |img| == Max(HeaderSize, |body|)
            && img[..HeaderSize] == EncodeHeader(AssembledHeader(cfg, kernel, ramdisk, second, sha1))
            && (HeaderSize < |body| ==> img[HeaderSize..] == body[HeaderSize..])
  {
  }

  /** The segments the unpacker cuts out of an image laid out as header
      page then padded kernel, ramdisk and second stage. */
  lemma SegmentsOfLayout(img: seq<Byte>, ps: nat, k: seq<Byte>, r: seq<Byte>, s: seq<Byte>, h: Header)
    requires ps >= HeaderSize && h.pageSize == ps && ps <= |img|
    requires h.kernelSize == |k| && h.ramdiskSize == |r| && h.secondSize == |s| && h.dtSize == 0
    requires img[ps..] == Padded(k, ps) + Padded(r, ps) + Padded(s, ps)
    ensures Segments(img, h) == (k, r, if |s| > 0 then Some(s) else None, None)
  {
    PaddedLayout(k, ps);
    PaddedLayout(r, ps);
    PaddedLayout(s, ps);
    var tail := img[ps..];
    var a, b := Footprint(|k|, ps), Footprint(|r|, ps);
    assert KernelAt(h) == ps;
    assert img[ps..ps + |k|] == tail[..|k|] == Padded(k, ps)[..|k|] == k;
    assert img[ps + a..ps + a + |r|] == tail[a..a + |r|] == Padded(r, ps)[..|r|] == r;
    assert img[ps + a + b..ps + a + b + |s|] == tail[a + b..a + b + |s|] == Padded(s, ps)[..|s|] == s;
  }

  /** Round trip: with a page of at least 608 bytes, a board name under 16
      bytes and a command line under 512 bytes, neither holding a NUL, and
      sizes and addresses that fit 32 bits, repacking succeeds and unpacking
      the image gives back the header written, the name and command line,
      kernel and ramdisk, the second stage exactly when it is nonempty, and
      no device tree. */
  lemma DisassembleAssemble(cfg: Config, kernel: Option<seq<Byte>>, ramdisk: Option<seq<Byte>>,
                             second: Option<seq<Byte>>, sha1: seq<Byte> -> Digest)
    requires cfg.pageSize >= HeaderSize && cfg.FieldsFit()
    requires |cfg.name| < NameWidth && 0 !in cfg.name
    requires |cfg.cmdline| < CmdlineWidth && 0 !in cfg.cmdline
    requires FitsU32(|Supplied(kernel)|) && FitsU32(|Supplied(ramdisk)|) && FitsU32(|Supplied(second)|)
    ensures Assemble(cfg, kernel, ramdisk, second, sha1).Ok?
    ensures var s := Supplied(second);
            Disassemble(Assemble(cfg, kernel, ramdisk, second, sha1).value)
              == Ok(Unpacked(AssembledHeader(cfg, kernel, ramdisk, second, sha1), cfg.name, cfg.cmdline,
                             Supplied(kernel), Supplied(ramdisk), if |s| > 0 then Some(s) else None, None,
                             Reconstruct(AssembledHeader(cfg, kernel, ramdisk, second, sha1))))
  {
    var img := Assemble(cfg, kernel, ramdisk, second, sha1).value;
    var h := AssembledHeader(cfg, kernel, ramdisk, second, sha1);
    ImageLayout(cfg, kernel, ramdisk, second, sha1);
    var e := EncodeHeader(h);
    assert img[..FixedSize] == e[..FixedSize];
    assert img[FixedSize..HeaderSize] == e[FixedSize..];
    DecodeEncodeHeader(h);
    CutPackedText(cfg.name, NameWidth);
    CutPackedText(cfg.cmdline, CmdlineWidth);
    SegmentsOfLayout(img, cfg.pageSize, Supplied(kernel), Supplied(ramdisk), Supplied(second), h);
  }

  /** The rebuilt invocation gives back base and offsets whenever the
      kernel was placed at the conventional offset 0x8000. */
  lemma ReconstructAssembled(cfg: Config, kernel: Option<seq<Byte>>, ramdisk: Option<seq<Byte>>,
                             second: Option<seq<Byte>>, sha1: seq<Byte> -> Digest)
    requires cfg.FieldsFit() && cfg.kernelOffset == AssumedKernelOffset
    requires FitsU32(|Supplied(kernel)|) && FitsU32(|Supplied(ramdisk)|) && FitsU32(|Supplied(second)|)
    ensures Reconstruct(AssembledHeader(cfg, kernel, ramdisk, second, sha1))
              == Invocation(cfg.pageSize, cfg.base, cfg.kernelOffset, cfg.ramdiskOffset, cfg.secondOffset)
  {
  }

  /** A board name of 16 bytes or more with no NUL among its first 16 is
      accepted by the repacker, which truncates it and so drops its
      terminator, but then the unpacker fails on the image. */
  lemma LongNameNotUnpacked(cfg: Config, kernel: Option<seq<Byte>>, ramdisk: Option<seq<Byte>>,
                            second: Option<seq<Byte>>, sha1: seq<Byte> -> Digest)
    requires cfg.FieldsFit() && (cfg.pageSize == 0 ==> kernel.None? && ramdisk.None? && second.None?)
    requires |cfg.name| >= NameWidth && 0 !in cfg.name[..NameWidth]
    requires FitsU32(|Supplied(kernel)|) && FitsU32(|Supplied(ramdisk)|) && FitsU32(|Supplied(second)|)
    ensures Assemble(cfg, kernel, ramdisk, second, sha1).Ok?
    ensures Disassemble(Assemble(cfg, kernel, ramdisk, second, sha1).value) == Err(UnterminatedName)
  {
    var img := Assemble(cfg, kernel, ramdisk, second, sha1).value;
    var h := AssembledHeader(cfg, kernel, ramdisk, second, sha1);
    HeaderAtStart(cfg, kernel, ramdisk, second, sha1);
    var e := EncodeHeader(h);
    assert img[..FixedSize] == e[..FixedSize];
    assert img[FixedSize..HeaderSize] == e[FixedSize..];
    DecodeEncodeHeader(h);
    FullWidthTextUncuttable(cfg.name, NameWidth);
  }

  /** The worked example with the default options: a 1000-byte kernel and
      a 500-byte ramdisk in 2048-byte pages make a 6144-byte image whose
      kernel_size word is 1000 and whose kernel_addr word is 0x10008000. */
  lemma DefaultScenario(k: seq<Byte>, r: seq<Byte>, sha1: seq<Byte> -> Digest)
    requires |k| == 1000 && |r| == 500
    ensures Assemble(DefaultConfig, Some(k), Some(r), None, sha1).Ok?
    ensures var img := Assemble(DefaultConfig, Some(k), Some(r), None, sha1).value;
            |img| == 6144 && DecodeU32(img[8..12]) == 1000 && DecodeU32(img[12..16]) == 0x10008000
  {
    var cfg := DefaultConfig;
    var img := Assemble(cfg, Some(k), Some(r), None, sha1).value;
    ImageLayout(cfg, Some(k), Some(r), None, sha1);
    AssembledHeaderFields(cfg, Some(k), Some(r), None, sha1);
    PaddingFillsPages(1000, 2048);
    PaddingFillsPages(500, 2048);
    PaddingFillsPages(0, 2048);
    var e := EncodeHeader(AssembledHeader(cfg, Some(k), Some(r), None, sha1));
    var words := e[8..FixedSize];
    DecodeWordsAt(words, 0);
    DecodeWordsAt(words, 1);
    assert img[8..12] == words[0..4];
    assert img[12..16] == words[4..8];
  }
}
