/** The image layout: one page holding the header, then the kernel, ramdisk
    and second-stage regions, each padded to a whole number of pages. The
    script cuts and reassembles it with the struct format '<%ds%ds%ds%ds'. */
module Layout {
  import opened Bytes
  import opened Outcome
  import opened BootHeader

  /** pad_size: ((n + page_size - 1) // page_size) * page_size. The operands
      are non-negative, so Dafny's division agrees with Python's floor division. */
  function PadSize(n: nat, pageSize: nat): nat
    requires pageSize > 0
  {
    ((n + pageSize - 1) / pageSize) * pageSize
  }

  /** pad_size rounds up to the next multiple of the page size: it is a
      multiple, at least n and less than n + page_size; so it is the least
      such multiple, and it leaves a multiple (zero included) unchanged. */
  lemma PadSizeRoundsUp(n: nat, pageSize: nat)
    requires pageSize > 0
    ensures PadSize(n, pageSize) % pageSize == 0
    ensures n <= PadSize(n, pageSize) < n + pageSize
    ensures n % pageSize == 0 ==> PadSize(n, pageSize) == n
  {
    var m := n + pageSize - 1;
    var q := m / pageSize;
    assert m == q * pageSize + m % pageSize;
    assert (q * pageSize) % pageSize == 0 by {
      MultipleMod(q, pageSize);
    }
    if n % pageSize == 0 {
      var k := n / pageSize;
      assert n == k * pageSize;
      assert m == k * pageSize + (pageSize - 1);
      DivUnique(m, pageSize, k, pageSize - 1);
    }
  }

  lemma MultipleMod(q: nat, p: nat)
    requires p > 0
    ensures (q * p) % p == 0
  {
    DivUnique(q * p, p, q, 0);
  }

  lemma MulMono(a: int, b: int, p: nat)
    requires a <= b
    ensures a * p <= b * p
  {
    assert b * p - a * p == (b - a) * p;
  }

  /** Quotient and remainder are unique. */
  lemma DivUnique(m: int, p: int, q: int, r: int)
    requires p > 0 && 0 <= r < p && m == q * p + r
    ensures m / p == q && m % p == r
  {
    var q0, r0 := m / p, m % p;
    var d := q0 - q;
    assert d * p == r - r0 by {
      assert q0 * p + r0 == q * p + r;
      assert q0 * p - q * p == d * p;
    }
    if d >= 1 {
      MulMono(1, d, p);
    }
    if d <= -1 {
      MulMono(d, -1, p);
    }
  }

  /** Any multiple of the page size that is at least n is at least pad_size(n). */
  lemma PadSizeIsLeast(n: nat, pageSize: nat, k: nat)
    requires pageSize > 0 && k * pageSize >= n
    ensures PadSize(n, pageSize) <= k * pageSize
  {
    PadSizeRoundsUp(n, pageSize);
    var m := n + pageSize - 1;
    var q := m / pageSize;
    assert PadSize(n, pageSize) == q * pageSize;
    assert m < (k + 1) * pageSize by {
      assert (k + 1) * pageSize == k * pageSize + pageSize;
    }
    assert m == q * pageSize + m % pageSize;
    if q >= k + 1 {
      MulMono(k + 1, q, pageSize);
    }
    MulMono(q, k, pageSize);
  }

  /** The four regions of an image, in file order. */
  datatype Image = Image(header: seq<byte>, kernel: seq<byte>, ramdisk: seq<byte>, second: seq<byte>)

  /** Offsets of the regions, driven by the header alone. */
  function KernelOffset(h: Header): nat { h.pageSize }

  function RamdiskOffset(h: Header): nat
    requires h.pageSize > 0
  {
    h.pageSize + PadSize(h.kernelSize, h.pageSize)
  }

  function SecondOffset(h: Header): nat
    requires h.pageSize > 0
  {
    RamdiskOffset(h) + PadSize(h.ramdiskSize, h.pageSize)
  }

  /** struct.calcsize of the image format. */
  function ImageLength(h: Header): nat
    requires h.pageSize > 0
  {
    SecondOffset(h) + PadSize(h.secondSize, h.pageSize)
  }

  /** Image._make(struct.unpack_from(image_struct, content)): a zero page size
      fails in pad_size (ZeroDivisionError), a buffer shorter than the four
      regions fails (struct.error); otherwise the four regions partition the
      first ImageLength(h) bytes, with the padded lengths. */
  function Split(content: seq<byte>, h: Header): (r: Result<Image>)
    ensures h.pageSize == 0 ==> r == Err(DivisionByZero)
    ensures h.pageSize > 0 ==> (r.Err? <==> |content| < ImageLength(h))
    ensures h.pageSize > 0 && r.Err? ==> r.error == ImageTooShort
    ensures r.Ok? ==> h.pageSize > 0
    ensures r.Ok? ==> |r.value.header| == h.pageSize
    ensures r.Ok? ==> |r.value.kernel| == PadSize(h.kernelSize, h.pageSize)
    ensures r.Ok? ==> |r.value.ramdisk| == PadSize(h.ramdiskSize, h.pageSize)
    ensures r.Ok? ==> |r.value.second| == PadSize(h.secondSize, h.pageSize)
    ensures r.Ok? ==> r.value.header + r.value.kernel + r.value.ramdisk + r.value.second
                      == content[..ImageLength(h)]
  {
    if h.pageSize == 0 then Err(DivisionByZero)
    else if |content| < ImageLength(h) then Err(ImageTooShort)
    else
      Ok(Image(content[..KernelOffset(h)],
               content[KernelOffset(h)..RamdiskOffset(h)],
               content[RamdiskOffset(h)..SecondOffset(h)],
               content[SecondOffset(h)..ImageLength(h)]))
  }

  /** The regions are the slices at offsets 0, P, P + pad(k) and
      P + pad(k) + pad(r). */
  lemma SplitOffsets(content: seq<byte>, h: Header)
    requires Split(content, h).Ok?
    ensures var img := Split(content, h).value;
            img.header == content[..KernelOffset(h)]
            && img.kernel == content[KernelOffset(h)..RamdiskOffset(h)]
            && img.ramdisk == content[RamdiskOffset(h)..SecondOffset(h)]
            && img.second == content[SecondOffset(h)..ImageLength(h)]
  {
    var img := Split(content, h).value;
    var whole := content[..ImageLength(h)];
    assert whole == img.header + img.kernel + img.ramdisk + img.second;
    assert img.header == whole[..KernelOffset(h)];
    assert img.kernel == whole[KernelOffset(h)..RamdiskOffset(h)];
    assert img.ramdisk == whole[RamdiskOffset(h)..SecondOffset(h)];
    assert img.second == whole[SecondOffset(h)..ImageLength(h)];
  }

  /** Bytes past the last region never influence the split. */
  lemma SplitIgnoresTail(content: seq<byte>, h: Header)
    requires h.pageSize > 0 && |content| >= ImageLength(h)
    ensures Split(content, h) == Split(content[..ImageLength(h)], h)
  {
    var c := content[..ImageLength(h)];
    assert content[..KernelOffset(h)] == c[..KernelOffset(h)];
    assert content[KernelOffset(h)..RamdiskOffset(h)] == c[KernelOffset(h)..RamdiskOffset(h)];
    assert content[RamdiskOffset(h)..SecondOffset(h)] == c[RamdiskOffset(h)..SecondOffset(h)];
    assert content[SecondOffset(h)..ImageLength(h)] == c[SecondOffset(h)..ImageLength(h)];
  }

  /** struct.pack(image_struct, *image): each region zero-padded or truncated
      to its padded width, as declared by h. */
  function Join(img: Image, h: Header): (r: seq<byte>)
    requires h.pageSize > 0
    ensures |r| == ImageLength(h)
  {
    Fit(img.header, h.pageSize)
    + Fit(img.kernel, PadSize(h.kernelSize, h.pageSize))
    + Fit(img.ramdisk, PadSize(h.ramdiskSize, h.pageSize))
    + Fit(img.second, PadSize(h.secondSize, h.pageSize))
  }

  /** Where the regions land in the joined image. */
  lemma JoinRegions(img: Image, h: Header)
    requires h.pageSize > 0
    ensures var out := Join(img, h);
            out[..KernelOffset(h)] == Fit(img.header, h.pageSize)
            && out[KernelOffset(h)..RamdiskOffset(h)] == Fit(img.kernel, PadSize(h.kernelSize, h.pageSize))
            && out[RamdiskOffset(h)..SecondOffset(h)] == Fit(img.ramdisk, PadSize(h.ramdiskSize, h.pageSize))
            && out[SecondOffset(h)..] == Fit(img.second, PadSize(h.secondSize, h.pageSize))
  {
  }

  /** Joining what was split gives back the image bytes, without any tail. */
  lemma JoinSplit(content: seq<byte>, h: Header)
    requires Split(content, h).Ok?
    ensures Join(Split(content, h).value, h) == content[..ImageLength(h)]
  {
    var img := Split(content, h).value;
    FitExact(img.header);
    FitExact(img.kernel);
    FitExact(img.ramdisk);
    FitExact(img.second);
  }
}
