/** Page arithmetic shared by both scripts: the zero padding the repacker
    writes after a segment, and the page counts n, m, o, p the unpacker
    derives from the declared sizes. */
module Geometry {
  import opened Bytes

  /** The number of pages a segment of `size` bytes occupies:
      `(size + page_size - 1) / page_size`, Python 2 integer division. */
  function PageCount(size: nat, pageSize: nat): nat
    requires pageSize > 0
  {
    (size + pageSize - 1) / pageSize
  }

  /** Bytes a segment occupies on disk: its pages times the page size. */
  function Footprint(size: nat, pageSize: nat): nat
    requires pageSize > 0
  {
    PageCount(size, pageSize) * pageSize
  }

  /** The zeros `append` writes after a segment: `page_size - size % page_size`
      when that remainder is positive, nothing otherwise. A non-positive page
      size never pads: `x % 0` is reported as an error before this point, and
      Python's remainder by a negative divisor is never positive. */
  function PadLen(size: nat, pageSize: int): nat
  {
    if pageSize > 0 && size % pageSize > 0 then pageSize - size % pageSize else 0
  }

  /** A segment followed by the padding `append` writes for it. */
  function Padded(data: seq<Byte>, pageSize: int): seq<Byte>
  {
    data + Zeros(PadLen(|data|, pageSize))
  }

  lemma DivUnique(a: nat, b: nat, q: nat, t: nat)
    requires b > 0 && a == q * b + t && t < b
    ensures a / b == q
  {
    var q', t' := a / b, a % b;
    assert a == q' * b + t';
    if q' > q {
      assert q' * b >= (q + 1) * b by { MulMono(q + 1, q', b); }
    } else if q' < q {
      assert q * b >= (q' + 1) * b by { MulMono(q' + 1, q, b); }
    }
  }

  lemma MulMono(x: nat, y: nat, b: nat)
    requires x <= y
    ensures x * b <= y * b
  {
  }

  /** PageCount is the ceiling of size / page_size: the fewest pages that
      hold `size` bytes. */
  lemma PageCountIsCeiling(size: nat, pageSize: nat)
    requires pageSize > 0
    ensures PageCount(size, pageSize) * pageSize >= size
    ensures PageCount(size, pageSize) == 0 || (PageCount(size, pageSize) - 1) * pageSize < size
  {
    var q, r := size / pageSize, size % pageSize;
    if r == 0 {
      DivUnique(size + pageSize - 1, pageSize, q, pageSize - 1);
    } else {
      DivUnique(size + pageSize - 1, pageSize, q + 1, r - 1);
    }
  }

  /** A segment has pages exactly when it has bytes. */
  lemma PageCountPositive(size: nat, pageSize: nat)
    requires pageSize > 0
    ensures PageCount(size, pageSize) > 0 <==> size > 0
  {
    PageCountIsCeiling(size, pageSize);
  }

  /** The repacker's padding fills the segment up to exactly the footprint
      the unpacker computes, and pads by less than one page. */
  lemma PaddingFillsPages(size: nat, pageSize: nat)
    requires pageSize > 0
    ensures size + PadLen(size, pageSize) == Footprint(size, pageSize)
    ensures PadLen(size, pageSize) < pageSize
  {
    var q, r := size / pageSize, size % pageSize;
    if r == 0 {
      DivUnique(size + pageSize - 1, pageSize, q, pageSize - 1);
    } else {
      DivUnique(size + pageSize - 1, pageSize, q + 1, r - 1);
      assert size + pageSize - r == (q + 1) * pageSize;
    }
  }

  /** What `append` writes for a segment: the raw bytes, then zeros up to
      the next page boundary. */
  lemma PaddedLayout(data: seq<Byte>, pageSize: nat)
    requires pageSize > 0
    ensures |Padded(data, pageSize)| == Footprint(|data|, pageSize)
    ensures Padded(data, pageSize)[..|data|] == data
    ensures forall i :: |data| <= i < |Padded(data, pageSize)| ==> Padded(data, pageSize)[i] == 0
  {
    PaddingFillsPages(|data|, pageSize);
    assert Padded(data, pageSize)[..|data|] == data;
  }
}
