/**
 Byte layout of the mapped section (src/shd_section.c, src/shd_data.c,
 src/shd_sample.c): header, blob metadata header, then the samples.
 */
module Layout {

  /** Sizes fixed by the compiler: sizeof(struct shd_hdr) and offsetof(struct shd_sample, blob). */
  datatype Platform = Platform(hdrSize: nat, blobOffset: nat)

  datatype HdrInfo = HdrInfo(blobSize: nat, maxNbSamples: nat, mdataHdrSize: nat)

  /** ALIGN_UP: adds 3 and clears the two low bits. */
  function AlignUp(x: nat): (r: nat)
    ensures r % 4 == 0 && x <= r < x + 4
  {
    x + 3 - (x + 3) % 4
  }

  function SampleSize(pf: Platform, blobSize: nat): (r: nat)
    ensures r % 4 == 0 && pf.blobOffset + blobSize <= r < pf.blobOffset + blobSize + 4
  {
    AlignUp(pf.blobOffset + blobSize)
  }

  function DataSize(pf: Platform, info: HdrInfo): nat {
    Product(info.maxNbSamples, SampleSize(pf, info.blobSize))
  }

  function Product(a: nat, b: nat): nat {
    a * b
  }

  /** The size requested when the section is created. */
  function TotalSize(pf: Platform, info: HdrInfo): nat {
    AlignUp(pf.hdrSize) + AlignUp(info.mdataHdrSize) + DataSize(pf, info)
  }

  /** Offset of sample i in the data section. */
  function SampleOffset(pf: Platform, info: HdrInfo, i: nat): nat {
    Product(i, SampleSize(pf, info.blobSize))
  }

  /** struct shd_section_mapping. */
  class Mapping {
    var metadataOffset: nat
    var metadataSize: nat
    var dataOffset: nat
    var dataSize: nat
    var totalSize: nat

    constructor ()
    {
      metadataOffset, metadataSize, dataOffset, dataSize, totalSize := 0, 0, 0, 0, 0;
    }

    /** The mapping has the size requested at creation; its three regions follow each
        other without overlap, and the last two start on multiples of 4. */
    method GetOffsets(pf: Platform, info: HdrInfo)
      modifies this
      ensures totalSize == TotalSize(pf, info)
      ensures pf.hdrSize <= metadataOffset < pf.hdrSize + 4 && metadataOffset % 4 == 0
      ensures metadataSize == info.mdataHdrSize && dataOffset % 4 == 0
      ensures metadataOffset + metadataSize <= dataOffset < metadataOffset + metadataSize + 4
      ensures dataSize == DataSize(pf, info) && dataOffset + dataSize == totalSize
    {
      metadataOffset := AlignUp(pf.hdrSize);
      metadataSize := info.mdataHdrSize;
      dataOffset := AlignUp(metadataOffset + metadataSize);
      dataSize := DataSize(pf, info);
      totalSize := dataOffset + dataSize;
      AlignShift(metadataOffset, metadataSize);
    }

    /** Every slot lies in the data region, on a multiple of 4, holds its blob, and
        meets no other slot. */
    lemma SlotsDisjoint(pf: Platform, info: HdrInfo, i: nat, j: nat)
      requires i < j < info.maxNbSamples && dataSize == DataSize(pf, info)
      ensures SampleOffset(pf, info, i) + SampleSize(pf, info.blobSize) <= SampleOffset(pf, info, j)
      ensures SampleOffset(pf, info, j) + SampleSize(pf, info.blobSize) <= dataSize
      ensures SampleOffset(pf, info, i) % 4 == SampleOffset(pf, info, j) % 4 == 0
      ensures pf.blobOffset + info.blobSize <= SampleSize(pf, info.blobSize)
    {
      var size := SampleSize(pf, info.blobSize);
      ProductStep(i, j, size);
      ProductStep(j, info.maxNbSamples, size);
      ProductAligned(i, size);
      ProductAligned(j, size);
    }
  }

  /** The slots follow each other without gaps, from the start of the data region to its
      end. */
  lemma SlotsAreContiguous(pf: Platform, info: HdrInfo, i: nat)
    requires i < info.maxNbSamples
    ensures SampleOffset(pf, info, 0) == 0
    ensures SampleOffset(pf, info, i + 1) == SampleOffset(pf, info, i) + SampleSize(pf, info.blobSize)
    ensures i + 1 == info.maxNbSamples ==> SampleOffset(pf, info, i + 1) == DataSize(pf, info)
  {
    var size := SampleSize(pf, info.blobSize);
    assert Product(i + 1, size) == Product(i, size) + size;
  }

  lemma AlignShift(a: nat, x: nat)
    requires a % 4 == 0
    ensures AlignUp(a + x) == a + AlignUp(x)
  {
  }

  lemma {:induction false} ProductStep(i: nat, j: nat, size: nat)
    requires i < j
    ensures Product(i, size) + size <= Product(j, size)
  {
    assert Product(j, size) == Product(j - 1, size) + size;
    if i < j - 1 {
      ProductStep(i, j - 1, size);
    }
  }

  lemma {:induction false} ProductAligned(i: nat, size: nat)
    requires size % 4 == 0
    ensures Product(i, size) % 4 == 0
  {
    if i > 0 {
      ProductAligned(i - 1, size);
      SumAligned(Product(i - 1, size), size);
    }
  }

  lemma SumAligned(a: nat, b: nat)
    requires a % 4 == 0 && b % 4 == 0
    ensures (a + b) % 4 == 0
  {
  }
}
