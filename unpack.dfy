/** The unpacker: reads the two header records, cuts the text fields at
    their first NUL, skips to the end of the header page, then reads kernel,
    ramdisk, and (when their sizes are nonzero) second stage and device
    tree, skipping each one's padding; finally it derives the base address
    and offsets that would rebuild the image. */
module Unpack {
  import opened Bytes
  import opened Geometry
  import opened BootHeader

  datatype UnpackError =
    | TruncatedHeader      // struct.unpack of a record shorter than its format
    | UnterminatedName     // name.index('\0') finds no NUL
    | UnterminatedCmdline  // cmdline.index('\0') finds no NUL
    | ZeroPageSize         // the page counts divide by page_size 0

  /** The kernel offset the unpacker assumes when it rebuilds the repack
      command line. */
  const AssumedKernelOffset: int := 0x8000

  /** Base address and offsets for a repack invocation that reproduces the
      header's addresses. */
  datatype Invocation = Invocation(pageSize: nat, base: int, kernelOffset: int, ramdiskOffset: int, secondOffset: int)

  /** base = kernel_addr - 0x8000, and each offset is its address minus
      base: adding base back gives each stored address. tags_addr is not
      reconstructed. */
  function Reconstruct(h: Header): (inv: Invocation)
    ensures inv.pageSize == h.pageSize && inv.kernelOffset == AssumedKernelOffset
    ensures inv.base + inv.kernelOffset == h.kernelAddr
    ensures inv.base + inv.ramdiskOffset == h.ramdiskAddr
    ensures inv.base + inv.secondOffset == h.secondAddr
  {
    var base := h.kernelAddr - AssumedKernelOffset;
    Invocation(h.pageSize, base, AssumedKernelOffset, h.ramdiskAddr - base, h.secondAddr - base)
  }

  /** Everything the unpacker extracts: the decoded header, the text fields
      cut at their NUL, the four segments (second stage and device tree only
      when declared) and the rebuilt invocation. */
  datatype Unpacked = Unpacked(
    header: Header,
    name: seq<Byte>, cmdline: seq<Byte>,
    kernel: seq<Byte>, ramdisk: seq<Byte>,
    second: Option<seq<Byte>>, devicetree: Option<seq<Byte>>,
    invocation: Invocation)

  /** The `len` bytes of `data` from offset `from`, cut short at the end of
      the data: what a read at that position returns. */
  function Clip(data: seq<Byte>, from: nat, len: nat): (r: seq<Byte>)
    ensures |r| <= len
    ensures from + len <= |data| ==> r == data[from..from + len]
    ensures from >= |data| ==> r == []
  {
    data[Min(from, |data|)..Min(from + len, |data|)]
  }

  /** Reading from a position already clamped to the end of the data reads
      what reading from the unclamped position would. */
  lemma ClipFromClamped(data: seq<Byte>, from: nat, len: nat)
    ensures Clip(data, Min(from, |data|), len) == Clip(data, from, len)
  {
  }

  /** The image file opened for reading: its bytes and the read position. */
  class Reader {
    const data: seq<Byte>
    var pos: nat

    ghost predicate Valid()
      reads this
    {
      pos <= |data|
    }

    /** open(path, "rb") */
    constructor (data: seq<Byte>)
      ensures Valid() && this.data == data && pos == 0
    {
      this.data := data;
      pos := 0;
    }

    /** img.read(k): up to `k` bytes from the position, fewer at the end of
        the file, and the position moves past them. */
    method Read(k: nat) returns (buf: seq<Byte>)
      requires Valid()
      modifies this
      ensures Valid()
      ensures pos == Min(old(pos) + k, |data|)
      ensures buf == data[old(pos)..pos]
    {
      var end := Min(pos + k, |data|);
      buf := data[pos..end];
      pos := end;
    }
  }

  /** Where the kernel starts: the end of the header page, or right after
      the 608 header bytes when the page is smaller. */
  function KernelAt(h: Header): nat
  {
    Max(h.pageSize, HeaderSize)
  }

  /** The four segments as read from `data` for header `h`: each later
      segment starts one footprint after the previous one; every segment is
      cut short by the end of the data; second stage and device tree exist
      exactly when their declared size is nonzero. */
  function Segments(data: seq<Byte>, h: Header): (seq<Byte>, seq<Byte>, Option<seq<Byte>>, Option<seq<Byte>>)
    requires h.pageSize > 0
  {
    var ramdiskAt := KernelAt(h) + Footprint(h.kernelSize, h.pageSize);
    var secondAt := ramdiskAt + Footprint(h.ramdiskSize, h.pageSize);
    var dtAt := secondAt + Footprint(h.secondSize, h.pageSize);
    (Clip(data, KernelAt(h), h.kernelSize),
     Clip(data, ramdiskAt, h.ramdiskSize),
     if h.secondSize > 0 then Some(Clip(data, secondAt, h.secondSize)) else None,
     if h.dtSize > 0 then Some(Clip(data, dtAt, h.dtSize)) else None)
  }

  /** The unpacker as a function of the image bytes. The magic is decoded
      but never checked. */
  function Disassemble(data: seq<Byte>): Result<Unpacked, UnpackError>
  {
    if |data| < HeaderSize then Err(TruncatedHeader)
    else
      var h := DecodeHeader(data[..FixedSize], data[FixedSize..HeaderSize]);
      var name := CutAtNul(h.name);
      var cmdline := CutAtNul(h.cmdline);
      if name.None? then Err(UnterminatedName)
      else if cmdline.None? then Err(UnterminatedCmdline)
      else if h.pageSize == 0 then Err(ZeroPageSize)
      else
        var (kernel, ramdisk, second, devicetree) := Segments(data, h);
        Ok(Unpacked(h, name.value, cmdline.value, kernel, ramdisk, second, devicetree, Reconstruct(h)))
  }

  /** Reads one segment of `size` bytes that starts at offset `at`, and
      skips its padding up to whole pages: the position moves on by the
      segment's footprint. */
  method ReadSegment(img: Reader, size: U32, pageSize: nat, ghost at: nat) returns (buf: seq<Byte>)
    requires img.Valid() && pageSize > 0 && img.pos == Min(at, |img.data|)
    modifies img
    ensures img.Valid()
    ensures buf == Clip(img.data, at, size)
    ensures img.pos == Min(at + Footprint(size, pageSize), |img.data|)
  {
    var pages := PageCount(size, pageSize);
    PageCountIsCeiling(size, pageSize);
    buf := img.Read(size);
    ClipFromClamped(img.data, at, size);
    if size < pages * pageSize {
      var skipped := img.Read(pages * pageSize - size);
    }
  }

  /** The second stage and device tree blocks: the segment is read only
      when its page count is positive, which is when its size is. */
  method ReadOptionalSegment(img: Reader, size: U32, pageSize: nat, ghost at: nat)
    returns (seg: Option<seq<Byte>>)
    requires img.Valid() && pageSize > 0 && img.pos == Min(at, |img.data|)
    modifies img
    ensures img.Valid()
    ensures seg == if size > 0 then Some(Clip(img.data, at, size)) else None
    ensures img.pos == Min(at + Footprint(size, pageSize), |img.data|)
  {
    var pages := PageCount(size, pageSize);
    PageCountPositive(size, pageSize);
    seg := None;
    if pages > 0 {
      var buf := ReadSegment(img, size, pageSize, at);
      seg := Some(buf);
    }
  }

  /** The second half of the script: kernel and ramdisk always, second
      stage when o > 0, device tree when p > 0, each followed by a skip of
      its padding. */
  method ReadSegments(img: Reader, h: Header)
    returns (kernel: seq<Byte>, ramdisk: seq<Byte>, second: Option<seq<Byte>>, devicetree: Option<seq<Byte>>)
    requires img.Valid() && h.pageSize > 0 && img.pos == Min(KernelAt(h), |img.data|)
    modifies img
    ensures (kernel, ramdisk, second, devicetree) == Segments(img.data, h)
    ensures img.Valid()
    ensures img.pos == Min(KernelAt(h) + Footprint(h.kernelSize, h.pageSize) + Footprint(h.ramdiskSize, h.pageSize)
                           + Footprint(h.secondSize, h.pageSize) + Footprint(h.dtSize, h.pageSize), |img.data|)
  {
    ghost var ramdiskAt := KernelAt(h) + Footprint(h.kernelSize, h.pageSize);
    ghost var secondAt := ramdiskAt + Footprint(h.ramdiskSize, h.pageSize);
    ghost var dtAt := secondAt + Footprint(h.secondSize, h.pageSize);
    kernel := ReadSegment(img, h.kernelSize, h.pageSize, KernelAt(h));
    ramdisk := ReadSegment(img, h.ramdiskSize, h.pageSize, ramdiskAt);
    second := ReadOptionalSegment(img, h.secondSize, h.pageSize, secondAt);
    devicetree := ReadOptionalSegment(img, h.dtSize, h.pageSize, dtAt);
  }

  /** The unpack script, on the image bytes. */
  method Unpack(data: seq<Byte>) returns (r: Result<Unpacked, UnpackError>)
    ensures r == Disassemble(data)
  {
    var padding := 0;
    var img := new Reader(data);
    var fixed := img.Read(FixedSize);
    padding := padding + FixedSize;
    if |fixed| < FixedSize {
      return Err(TruncatedHeader);
    }
    var text := img.Read(TextSize);
    padding := padding + TextSize;
    if |text| < TextSize {
      return Err(TruncatedHeader);
    }
    assert fixed == data[..FixedSize] && text == data[FixedSize..HeaderSize];
    var h := DecodeHeader(fixed, text);
    var name := CutAtNul(h.name);
    if name.None? {
      return Err(UnterminatedName);
    }
    var cmdline := CutAtNul(h.cmdline);
    if cmdline.None? {
      return Err(UnterminatedCmdline);
    }
    if padding < h.pageSize {
      var skipped := img.Read(h.pageSize - padding);
    }
    if h.pageSize == 0 {
      return Err(ZeroPageSize);
    }
    var kernel, ramdisk, second, devicetree := ReadSegments(img, h);
    r := Ok(Unpacked(h, name.value, cmdline.value, kernel, ramdisk, second, devicetree, Reconstruct(h)));
  }
}
