/** The repacker: writes a page of zeros, appends kernel, ramdisk and the
    optional second stage (each padded to a page boundary) while feeding a
    SHA-1 object, then reopens the file and writes the header over its start. */
module Repack {
  import opened Bytes
  import opened Geometry
  import opened BootHeader

  /** A SHA-1 digest: always 20 bytes. The hash function itself is a
      parameter of the repacker (`hashlib.sha1` is not modelled). */
  type Digest = s: seq<Byte> | |s| == 20 witness Zeros(20)

  /** The resolved command-line options. Addresses are given as base and
      offsets and may be any integer; the page size likewise. */
  datatype Config = Config(
    pageSize: int,
    base: int,
    kernelOffset: int, ramdiskOffset: int, secondOffset: int, tagsOffset: int,
    name: seq<Byte>, cmdline: seq<Byte>)
  {
    function KernelAddr(): int { base + kernelOffset }
    function RamdiskAddr(): int { base + ramdiskOffset }
    function SecondAddr(): int { base + secondOffset }
    function TagsAddr(): int { base + tagsOffset }

    /** The integers of the first header record that do not come from
        `append` fit the 'I' format; `struct.pack` raises otherwise. */
    predicate FieldsFit() {
      FitsU32(KernelAddr()) && FitsU32(RamdiskAddr()) && FitsU32(SecondAddr())
      && FitsU32(TagsAddr()) && FitsU32(pageSize)
    }
  }

  /** The option defaults: page size 2048, base 0x10000000 and the four
      offsets 0x8000, 0x1000000, 0xf00000, 0x100, empty name and cmdline. */
  const DefaultConfig: Config :=
    Config(2048, 0x10000000, 0x8000, 0x1000000, 0xf00000, 0x100, [], [])

  datatype RepackError =
    | ZeroPageSize     // `file_size % page_size` with page_size 0
    | SizeOutOfRange   // struct.pack('I', file_size) of a file of 4 GiB or more
    | FieldOutOfRange  // struct.pack of an address or page size outside 0 .. 2^32 - 1

  /** The bytes of a segment, empty when no file name was given. */
  function Supplied(file: Option<seq<Byte>>): seq<Byte>
  {
    if file.Some? then file.value else []
  }

  /** Python's `a // b` (rounded toward minus infinity), for `b != 0`. */
  function PyDiv(a: int, b: int): int
    requires b != 0
  {
    if b > 0 then a / b else (-a) / (-b)
  }

  /** Python's `a % b` (the sign of the divisor), for `b != 0`: together
      with `a // b` it satisfies Python's division identity. */
  function PyMod(a: int, b: int): (r: int)
    requires b != 0
    ensures b > 0 ==> 0 <= r < b
    ensures b < 0 ==> b < r <= 0
    ensures a == PyDiv(a, b) * b + r
  {
    if b > 0 then a % b else -((-a) % (-b))
  }

  /** `file.write(b)` at the file position: overwrites what is there and
      extends the file when `b` runs past its end. */
  function Overwrite(c: seq<Byte>, at: nat, b: seq<Byte>): (r: seq<Byte>)
    requires at <= |c|
    ensures |r| == Max(|c|, at + |b|)
    ensures r[..at] == c[..at] && r[at..at + |b|] == b
    ensures at + |b| < |c| ==> r[at + |b|..] == c[at + |b|..]
  {
    c[..at] + b + (if at + |b| < |c| then c[at + |b|..] else [])
  }

  /** Writing at the end of the file appends. */
  lemma OverwriteAtEnd(c: seq<Byte>, b: seq<Byte>)
    ensures Overwrite(c, |c|, b) == c + b
  {
  }

  /** Two consecutive writes from offset 0 write their concatenation. */
  lemma OverwriteTwice(c: seq<Byte>, a: seq<Byte>, b: seq<Byte>)
    ensures Overwrite(Overwrite(c, 0, a), |a|, b) == Overwrite(c, 0, a + b)
  {
    var c1 := Overwrite(c, 0, a);
    var c2 := Overwrite(c1, |a|, b);
    var d := Overwrite(c, 0, a + b);
    assert |c2| == |d|;
    forall i | 0 <= i < |d|
      ensures c2[i] == d[i]
    {
      if i < |a| {
        assert c2[i] == c2[..|a|][i] == c1[..|a|][i] == a[i];
        assert d[i] == d[0..|a| + |b|][i];
      } else if i < |a| + |b| {
        assert c2[i] == c2[|a|..|a| + |b|][i - |a|];
        assert d[i] == d[0..|a| + |b|][i];
      } else {
        assert c2[i] == c2[|a| + |b|..][i - |a| - |b|];
        assert d[i] == d[|a| + |b|..][i - |a| - |b|];
      }
    }
  }

  /** The output file: its contents and the write position. */
  class OutputFile {
    var contents: seq<Byte>
    var pos: nat

    ghost predicate Valid()
      reads this
    {
      pos <= |contents|
    }

    /** open(name, "wb"): an empty file. */
    constructor ()
      ensures Valid() && contents == [] && pos == 0
    {
      contents, pos := [], 0;
    }

    method Write(b: seq<Byte>)
      requires Valid()
      modifies this
      ensures Valid()
      ensures contents == Overwrite(old(contents), old(pos), b)
      ensures pos == old(pos) + |b|
    {
      contents := Overwrite(contents, pos, b);
      pos := pos + |b|;
    }

    /** close, then open(name, "rb+"): same contents, position 0. */
    method Reopen()
      requires Valid()
      modifies this
      ensures Valid() && contents == old(contents) && pos == 0
    {
      pos := 0;
    }
  }

  /** The running SHA-1 object, represented by everything fed to it. */
  class Sha1State {
    var message: seq<Byte>

    /** hashlib.sha1() */
    constructor ()
      ensures message == []
    {
      message := [];
    }

    /** sha.update(b) */
    method Update(b: seq<Byte>)
      modifies this
      ensures message == old(message) + b
    {
      message := message + b;
    }

    /** sha.digest(): the hash of the whole message fed so far. */
    function Digest(sha1: seq<Byte> -> Digest): (d: Digest)
      reads this
    {
      sha1(message)
    }
  }

  /** What `append` returns: the size of the file, or the error that stops
      the script. */
  function AppendResult(file: Option<seq<Byte>>, pageSize: int): Result<U32, RepackError>
  {
    if file.Some? && pageSize == 0 then Err(ZeroPageSize)
    else if !FitsU32(|Supplied(file)|) then Err(SizeOutOfRange)
    else Ok(|Supplied(file)|)
  }

  /** What `append` writes to the output: the file and its padding. */
  function Written(file: Option<seq<Byte>>, pageSize: int): seq<Byte>
  {
    if file.Some? then Padded(file.value, pageSize) else []
  }

  /** What `append` feeds to the digest on success: the file, then its size
      as a 4-byte word (the word 0 alone for a missing file). */
  function Fed(file: Option<seq<Byte>>): seq<Byte>
    requires FitsU32(|Supplied(file)|)
  {
    Supplied(file) + EncodeU32(|Supplied(file)|)
  }

  /** append(filename, sha): writes the file and its padding at the end of
      the output, and feeds the file and its size to the digest. */
  method Append(output: OutputFile, sha: Sha1State, file: Option<seq<Byte>>, pageSize: int)
    returns (r: Result<U32, RepackError>)
    requires output.Valid() && output.pos == |output.contents|
    modifies output, sha
    ensures output.Valid() && output.pos == |output.contents|
    ensures r == AppendResult(file, pageSize)
    ensures output.contents == old(output.contents) + Written(file, pageSize)
    ensures r.Ok? ==> sha.message == old(sha.message) + Fed(file)
    ensures r.Err? ==> sha.message == old(sha.message) + Supplied(file)
  {
    var fileSize: nat := 0;
    if file.Some? {
      var buf := file.value;
      fileSize := |buf|;
      output.Write(buf);
      sha.Update(buf);
      if pageSize == 0 {
        return Err(ZeroPageSize);
      }
      var padding := PyMod(fileSize, pageSize);
      if padding > 0 {
        output.Write(Zeros(pageSize - padding));
      }
    }
    if !FitsU32(fileSize) {
      return Err(SizeOutOfRange);
    }
    sha.Update(EncodeU32(fileSize));
    r := Ok(fileSize);
  }

  /** The header record the repacker writes for the given sizes and digest
      words: magic, sizes and addresses, the page size, dt_size and unused
      both 0, the packed text fields, id0..id4 and three zero words. */
  function MakeHeader(cfg: Config, kernelSize: U32, ramdiskSize: U32, secondSize: U32, ids: seq<U32>): (h: Header)
    requires cfg.FieldsFit() && |ids| == 5
    ensures h.WellFormed()
  {
    Header(Magic, kernelSize, cfg.KernelAddr(), ramdiskSize, cfg.RamdiskAddr(),
           secondSize, cfg.SecondAddr(), cfg.TagsAddr(), cfg.pageSize, 0, 0,
           PackText(cfg.name, NameWidth), PackText(cfg.cmdline, CmdlineWidth),
           ids + [0, 0, 0])
  }

  /** The message the digest covers: kernel, its size, ramdisk, its size,
      second stage, its size. */
  function DigestMessage(kernel: Option<seq<Byte>>, ramdisk: Option<seq<Byte>>, second: Option<seq<Byte>>): seq<Byte>
    requires FitsU32(|Supplied(kernel)|) && FitsU32(|Supplied(ramdisk)|) && FitsU32(|Supplied(second)|)
  {
    Fed(kernel) + Fed(ramdisk) + Fed(second)
  }

  /** The image body before the header is written: a page of zeros, then
      each supplied segment padded, in the order kernel, ramdisk, second. */
  function Body(pageSize: int, kernel: Option<seq<Byte>>, ramdisk: Option<seq<Byte>>, second: Option<seq<Byte>>): seq<Byte>
  {
    Zeros(if pageSize > 0 then pageSize else 0)
      + Written(kernel, pageSize) + Written(ramdisk, pageSize) + Written(second, pageSize)
  }

  /** The header of a successful run. */
  function AssembledHeader(cfg: Config, kernel: Option<seq<Byte>>, ramdisk: Option<seq<Byte>>,
                           second: Option<seq<Byte>>, sha1: seq<Byte> -> Digest): (h: Header)
    requires cfg.FieldsFit()
    requires FitsU32(|Supplied(kernel)|) && FitsU32(|Supplied(ramdisk)|) && FitsU32(|Supplied(second)|)
    ensures h.WellFormed()
  {
    MakeHeader(cfg, |Supplied(kernel)|, |Supplied(ramdisk)|, |Supplied(second)|,
               DecodeWords(sha1(DigestMessage(kernel, ramdisk, second))))
  }

  /** The error of the first of the three appends that fails, if any. */
  function FirstAppendError(pageSize: int, kernel: Option<seq<Byte>>, ramdisk: Option<seq<Byte>>,
                            second: Option<seq<Byte>>): Option<RepackError>
  {
    var kr := AppendResult(kernel, pageSize);
    var rr := AppendResult(ramdisk, pageSize);
    var sr := AppendResult(second, pageSize);
    if kr.Err? then Some(kr.error)
    else if rr.Err? then Some(rr.error)
    else if sr.Err? then Some(sr.error)
    else None
  }

  /** What the first phase leaves in the output file: the zero page, then
      what each append writes, up to and including the first that fails. */
  function WrittenSoFar(pageSize: int, kernel: Option<seq<Byte>>, ramdisk: Option<seq<Byte>>,
                        second: Option<seq<Byte>>): seq<Byte>
  {
    var zeros := Zeros(if pageSize > 0 then pageSize else 0);
    if AppendResult(kernel, pageSize).Err? then zeros + Written(kernel, pageSize)
    else if AppendResult(ramdisk, pageSize).Err? then zeros + Written(kernel, pageSize) + Written(ramdisk, pageSize)
    else Body(pageSize, kernel, ramdisk, second)
  }

  /** What the first phase feeds to the digest: each append that succeeds
      feeds its file and size; the one that fails has fed its file only. */
  function FedSoFar(pageSize: int, kernel: Option<seq<Byte>>, ramdisk: Option<seq<Byte>>,
                    second: Option<seq<Byte>>): seq<Byte>
  {
    if AppendResult(kernel, pageSize).Err? then Supplied(kernel)
    else if AppendResult(ramdisk, pageSize).Err? then Fed(kernel) + Supplied(ramdisk)
    else if AppendResult(second, pageSize).Err? then Fed(kernel) + Fed(ramdisk) + Supplied(second)
    else DigestMessage(kernel, ramdisk, second)
  }

  /** The whole repacker as a function of its inputs: the first failing
      step's error, or the finished image. */
  function Assemble(cfg: Config, kernel: Option<seq<Byte>>, ramdisk: Option<seq<Byte>>,
                    second: Option<seq<Byte>>, sha1: seq<Byte> -> Digest): (r: Result<seq<Byte>, RepackError>)
    ensures r.Ok? <==>
              && cfg.FieldsFit()
              && (cfg.pageSize == 0 ==> kernel.None? && ramdisk.None? && second.None?)
              && FitsU32(|Supplied(kernel)|) && FitsU32(|Supplied(ramdisk)|) && FitsU32(|Supplied(second)|)
    ensures r.Ok? ==> |r.value| >= HeaderSize
  {
    var e := FirstAppendError(cfg.pageSize, kernel, ramdisk, second);
    if e.Some? then Err(e.value)
    else if !cfg.FieldsFit() then Err(FieldOutOfRange)
    else Ok(Overwrite(Body(cfg.pageSize, kernel, ramdisk, second), 0,
                      EncodeHeader(AssembledHeader(cfg, kernel, ramdisk, second, sha1))))
  }

  /** The repack script: the output file's contents on success. */
  method Repack(cfg: Config, kernel: Option<seq<Byte>>, ramdisk: Option<seq<Byte>>,
                second: Option<seq<Byte>>, sha1: seq<Byte> -> Digest)
    returns (r: Result<seq<Byte>, RepackError>)
    ensures r == Assemble(cfg, kernel, ramdisk, second, sha1)
  {
    var output := new OutputFile();
    var m := new Sha1State();
    var sizes := WriteSegments(output, m, cfg.pageSize, kernel, ramdisk, second);
    if sizes.Err? {
      return Err(sizes.error);
    }
    ghost var body := output.contents;
    var ids := DecodeWords(m.Digest(sha1));
    if !cfg.FieldsFit() {
      return Err(FieldOutOfRange);
    }
    var (kernelSize, ramdiskSize, secondSize) := sizes.value;
    var h := MakeHeader(cfg, kernelSize, ramdiskSize, secondSize, ids);
    assert h == AssembledHeader(cfg, kernel, ramdisk, second, sha1);
    output.Reopen();
    output.Write(EncodeFixed(h));
    output.Write(EncodeText(h));
    OverwriteTwice(body, EncodeFixed(h), EncodeText(h));
    r := Ok(output.contents);
  }

  /** The first phase of the script: the zero header page, then the three
      appends, stopping at the first error. */
  method WriteSegments(output: OutputFile, m: Sha1State, pageSize: int, kernel: Option<seq<Byte>>,
                       ramdisk: Option<seq<Byte>>, second: Option<seq<Byte>>)
    returns (sizes: Result<(U32, U32, U32), RepackError>)
    requires output.Valid() && output.contents == [] && output.pos == 0 && m.message == []
    modifies output, m
    ensures output.Valid() && output.pos == |output.contents|
    ensures sizes.Err? ==> FirstAppendError(pageSize, kernel, ramdisk, second) == Some(sizes.error)
    ensures sizes.Ok? ==> FirstAppendError(pageSize, kernel, ramdisk, second) == None
    ensures sizes.Ok? ==> sizes.value == (|Supplied(kernel)|, |Supplied(ramdisk)|, |Supplied(second)|)
    ensures output.contents == WrittenSoFar(pageSize, kernel, ramdisk, second)
    ensures m.message == FedSoFar(pageSize, kernel, ramdisk, second)
    ensures sizes.Ok? ==> output.contents == Body(pageSize, kernel, ramdisk, second)
                          && m.message == DigestMessage(kernel, ramdisk, second)
  {
    var zeros := Zeros(if pageSize > 0 then pageSize else 0);
    output.Write(zeros);
    OverwriteAtEnd([], zeros);
    var kernelSize := Append(output, m, kernel, pageSize);
    if kernelSize.Err? {
      return Err(kernelSize.error);
    }
    assert output.contents == zeros + Written(kernel, pageSize);
    assert m.message == Fed(kernel);
    var ramdiskSize := Append(output, m, ramdisk, pageSize);
    if ramdiskSize.Err? {
      return Err(ramdiskSize.error);
    }
    assert output.contents == zeros + Written(kernel, pageSize) + Written(ramdisk, pageSize);
    assert m.message == Fed(kernel) + Fed(ramdisk);
    var secondSize := Append(output, m, second, pageSize);
    if secondSize.Err? {
      return Err(secondSize.error);
    }
    sizes := Ok((kernelSize.value, ramdiskSize.value, secondSize.value));
  }
}
