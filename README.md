# Android boot image codec (version-0 header), modelled in Dafny

This project models the two scripts of `android_tools_img` that build and
take apart an Android boot image. Both follow the layout of
`system/core/mkbootimg/bootimg.h` in the Android sources; that header is not
part of this model.

- **Repack** (`repack-boot-img.py`) first writes one page of zeros. It then
  appends kernel, ramdisk and an optional second-stage loader, each padded
  with zeros to a multiple of `page_size`, and feeds each one, followed by
  its 4-byte size, to a SHA-1 object. Last, it reopens the file and writes
  the 608-byte header over its start. The header holds the magic
  `ANDROID!`, sizes, load addresses `base + offset`, the page size, board
  name, command line and the digest as five words.
- **Unpack** (`unpack-boot-img.py`) reads the 48-byte and 560-byte header
  records and cuts name and command line at their first NUL. It then skips
  to the end of the header page. It computes page counts by ceiling
  division, reads kernel and ramdisk, and reads second stage and device tree
  only when their sizes are nonzero, skipping each segment's padding.
  Finally it derives base and offsets back from the stored addresses.

Files, one module each:

- `bytes.dfy` (`Bytes`): bytes, 32-bit words and their little-endian encoding.
- `geometry.dfy` (`Geometry`): page counts, padding, footprints.
- `header.dfy` (`BootHeader`): the header record, its encoding and decoding,
  and the fixed-width text fields.
- `repack.dfy` (`Repack`): the output file and the SHA-1 object as classes.
  `Append` and `Repack` are methods, proved equal to the pure function
  `Assemble`.
- `unpack.dfy` (`Unpack`): the image file as a `Reader` class with a read
  position. `Unpack` is a method, proved equal to the pure function
  `Disassemble`, which says where each segment lies without reference to
  the stream.
- `roundtrip.dfy` (`RoundTrip`): layout, digest, success conditions and the
  round trip between the two scripts.

Inputs are already-resolved values: segment files are `Option<seq<Byte>>`
(`None` when no file name was given). The options are a `Config` of
integers and byte strings. SHA-1 is a parameter `sha1: seq<Byte> -> Digest`
whose results are 20 bytes long.

On these edge cases the model does what the scripts do:

- A name or command-line field with no NUL byte is an error (`str.index`
  raises); it is not read as the full field width.
- The magic is decoded but never checked.
- A truncated image is not an error: each segment is whatever the image
  still holds at its offset.
- A positive page size below 608 is not rejected. The unpacker then starts the
  kernel at offset 608, and the repacker writes the header over the start
  of the kernel.
- Text longer than its field is truncated by `struct.pack`, not rejected.

## Model

| member | source | states |
|---|---|---|
| Bytes.DecodeEncodeU32 | repack-boot-img.py:117 | a 32-bit value packed as four little-endian bytes decodes back to itself |
| Bytes.EncodeDecodeU32 | unpack-boot-img.py:65-67 | any four bytes are the encoding of the word decoded from them |
| Bytes.DecodeEncodeWords | repack-boot-img.py:129-132 | a run of packed words decodes back to the same words |
| Bytes.EncodeDecodeWords | unpack-boot-img.py:65-71 | unpacking words from a record and packing them again gives the same bytes |
| Geometry.PageCountIsCeiling | unpack-boot-img.py:86-89 | `(size + page_size - 1) / page_size` pages hold the segment, and one page fewer does not |
| Geometry.PageCountPositive | unpack-boot-img.py:108-117 | o > 0 and p > 0 hold exactly when the declared size is nonzero |
| Geometry.PaddingFillsPages | repack-boot-img.py:114-116 | the bytes plus the padding `append` writes are exactly the footprint the unpacker computes, and the padding is shorter than a page |
| Geometry.PaddedLayout | repack-boot-img.py:112-116 | an appended segment is its bytes followed by zeros, and its length is its page count times the page size |
| BootHeader.PackText | repack-boot-img.py:132 | the '16s'/'512s' field is the text cut to the width, or the text followed by NUL bytes up to the width |
| BootHeader.CutAtNul | unpack-boot-img.py:72-75 | no result exactly when the field holds no NUL; otherwise the result is the field's prefix up to its first NUL and holds no NUL |
| BootHeader.EncodeFixed | repack-boot-img.py:129-131 | the first record is 48 bytes |
| BootHeader.EncodeText | repack-boot-img.py:132 | the second record is 560 bytes |
| BootHeader.EncodeHeader | repack-boot-img.py:129-132 | the header is 608 bytes |
| BootHeader.DecodeHeader | unpack-boot-img.py:63-71 | the header decoded from the 48- and 560-byte records has every field at its width and encodes back to exactly those bytes |
| BootHeader.DecodeEncodeHeader | unpack-boot-img.py:65-71 | decoding an encoded header gives back every field |
| BootHeader.CutPackedText | unpack-boot-img.py:72-75 | a text shorter than its field and free of NULs comes back unchanged from packing and cutting |
| BootHeader.FullWidthTextUncuttable | unpack-boot-img.py:72-75 | a text that fills its field with no NUL cannot be cut, so unpacking fails |
| Repack.PyMod | repack-boot-img.py:114 | Python's remainder lies in [0, page_size) for a positive page size and in (page_size, 0] for a negative one, and with floor division it satisfies `a == (a // b) * b + a % b` |
| Repack.Overwrite | repack-boot-img.py:128-132 | a write at a position replaces the bytes there, keeps those before and after, and extends the file when it runs past the end |
| Repack.OverwriteAtEnd | repack-boot-img.py:104 | writing at the end of the file appends |
| Repack.OverwriteTwice | repack-boot-img.py:129-132 | the two header writes from offset 0 write the two records back to back |
| Repack.OutputFile.constructor | repack-boot-img.py:103 | a file opened for writing is empty, with position 0 |
| Repack.OutputFile.Write | repack-boot-img.py:104 | the contents after a write are the old contents overwritten at the position, and the position moves past the bytes written |
| Repack.OutputFile.Reopen | repack-boot-img.py:128 | reopening keeps the contents and moves the position to 0 |
| Repack.Sha1State.constructor | repack-boot-img.py:121 | a new digest object has been fed nothing |
| Repack.Sha1State.Update | repack-boot-img.py:113 | an update appends its bytes to the message fed so far |
| Repack.Append | repack-boot-img.py:106-118 | appends the file and its padding to the output and feeds the file, then its size, to the digest. A missing file writes nothing and feeds the word 0. Page size 0 with a file fails after the file is written; a size of 2^32 or more fails before its size is fed |
| Repack.WriteSegments | repack-boot-img.py:103-124 | writes a page of zeros, then kernel, ramdisk and second through `Append`, stopping at the first error. The output holds the zero page and what each append wrote, up to and including the one that failed; the digest message holds each successful segment followed by its size, then the failed segment's bytes alone. On success the output is that body and the digest message is the three segments each followed by its size |
| Repack.Assemble | repack-boot-img.py:96-132 | the repacker succeeds exactly when every address `base + offset` and the page size fit 32 bits, every size fits 32 bits, and page size 0 comes with no file; its image is at least 608 bytes long |
| Repack.Repack | repack-boot-img.py:103-132 | the script's output equals `Assemble` of its inputs, error included |
| Unpack.Reconstruct | unpack-boot-img.py:126-129 | kernel offset is 0x8000, and base plus each offset gives back the stored kernel, ramdisk and second addresses |
| Unpack.Clip | unpack-boot-img.py:92 | a read returns at most the requested length, exactly the requested bytes when the image holds them, and nothing past the end |
| Unpack.Reader.constructor | unpack-boot-img.py:62 | a file opened for reading has position 0 |
| Unpack.Reader.Read | unpack-boot-img.py:63 | a read returns the bytes from the position to the requested length or the end of the file, and moves the position there |
| Unpack.ReadSegment | unpack-boot-img.py:92-97 | reading a segment and skipping its padding returns the segment's bytes at its offset, cut short by the end of the image, and advances by one footprint |
| Unpack.ReadOptionalSegment | unpack-boot-img.py:107-114 | an optional segment is read exactly when its size is nonzero, and the position advances by its footprint |
| Unpack.ReadSegments | unpack-boot-img.py:86-123 | the streamed reads yield exactly the segments at the offsets the header implies: kernel at the end of the header page, each later one a footprint further; the read position ends after the device tree's footprint, or at the end of the image |
| Unpack.Unpack | unpack-boot-img.py:61-129 | the script's result equals `Disassemble` of the image bytes, error included |
| RoundTrip.DisassembleSucceeds | unpack-boot-img.py:63-89 | the unpacker succeeds exactly when the image has 608 header bytes, both text fields hold a NUL and the page-size word is nonzero; the magic is never checked |
| RoundTrip.ClipIsAvailablePrefix | unpack-boot-img.py:92-123 | an extracted segment has its declared length exactly when the image holds it, and otherwise is the prefix the image still holds |
| RoundTrip.MissingSegment | repack-boot-img.py:106-118 | a missing segment and an empty one both write nothing; for a nonzero page size both succeed and feed the word 0 to the digest, while at page size 0 an empty file fails (`0 % 0`) and a missing one succeeds with size 0 |
| RoundTrip.DigestMessageOrder | repack-boot-img.py:121-124 | the digest covers kernel, its size, ramdisk, its size, second, its size, in that order |
| RoundTrip.HeaderCarriesDigest | repack-boot-img.py:126-132 | id0..id4 packed again are the 20 digest bytes, and id5..id7 are zero |
| RoundTrip.AssembledHeaderFields | repack-boot-img.py:96-132 | the header starts with "ANDROID!". Its ten words are kernel size, base + kernel offset, ramdisk size, base + ramdisk offset, second size, base + second offset, base + tags offset, page size, dt_size 0 and unused 0. Then come the packed name and command line |
| RoundTrip.WrittenIsPadded | repack-boot-img.py:106-116 | what `append` writes is the supplied bytes padded, empty for a missing file |
| RoundTrip.BodyLayout | repack-boot-img.py:104-124 | before the header write, the file is a zero page followed by the three padded segments, each as long as its footprint |
| RoundTrip.HeaderOverZeroPage | repack-boot-img.py:128-132 | a header written over a zero page at least as long keeps the rest of the page zero and the segments after it untouched |
| RoundTrip.ImageLayout | repack-boot-img.py:104-132 | with page size at least 608, the image is one page plus the three footprints long. The header is at offset 0, bytes 608 to page_size - 1 are zero, and kernel, ramdisk and second follow in that order, each padded |
| RoundTrip.HeaderAtStart | repack-boot-img.py:128-132 | for every page size the header is the first 608 bytes; with a page smaller than 608 it covers the start of the kernel |
| RoundTrip.SegmentsOfLayout | unpack-boot-img.py:91-123 | reading a zero-padded layout returns kernel, ramdisk, the second stage only when it is nonempty, and no device tree |
| RoundTrip.DisassembleAssemble | unpack-boot-img.py:63-114 | with page size at least 608, a name under 16 and a command line under 512 bytes without NULs, and sizes and addresses that fit 32 bits, repacking succeeds. Unpacking then gives back the written header, name, command line, kernel, ramdisk, the second stage when nonempty, and no device tree |
| RoundTrip.ReconstructAssembled | unpack-boot-img.py:126-129 | when the kernel offset was 0x8000, the derived base and offsets are the ones the image was built with |
| RoundTrip.LongNameNotUnpacked | unpack-boot-img.py:72-73 | a board name of 16 or more bytes with no NUL in its first 16 is accepted by the repacker, but unpacking the image fails |
| RoundTrip.DefaultScenario | repack-boot-img.py:70-99 | with the default options, a 1000-byte kernel and a 500-byte ramdisk make a 6144-byte image whose kernel_size word is 1000 and whose kernel_addr word is 0x10008000 |

## Left out

- SHA-1 itself is not modelled. The hash is a parameter that returns 20
  bytes, and only the exact message fed to it is specified.
- File I/O: reading the input files, their open errors, the fixed output
  file names of the unpacker, closing files and the progress messages. The
  image is an in-memory byte sequence, and the extracted segments are
  fields of the result.
- Repack.Repack: on an error the result is the error alone. The partly
  written file left on disk is not part of it; the states that `Append` and
  `WriteSegments` leave behind (`WrittenSoFar`, `FedSoFar`) describe that
  file up to the failing append. A `FieldOutOfRange` failure happens after
  those appends, so its file is the whole body with no header written.
- The option tables and the parsing of numbers from decimal and hexadecimal
  text: the model takes the resolved integers and byte strings, with the
  option defaults in `Repack.DefaultConfig`.
- The text of the rebuilt repack command line is left out; only the
  arithmetic behind it (`Unpack.Reconstruct`) is modelled. That command line
  names a `--dt` option the repacker does not have, and the repacker cannot
  write a device tree; the model keeps that asymmetry.
- Host byte order: words are little-endian in the model, where `struct`'s
  native order depends on the host.
- Python 2 string details: text is a byte sequence, with no encoding or
  Unicode handling.
