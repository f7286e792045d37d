/** The body of main between reading the input file and writing the output
    file: decode the header, split the image, patch the cmdline, unpack,
    patch and repack the ramdisk, record its new size, re-encode the header
    and join the regions again. The gzip codec is passed in as two functions. */
module Pipeline {
  import opened Bytes
  import opened Outcome
  import opened BootHeader
  import opened Layout
  import opened Patch

  /** The header main encodes: the patched cmdline and the new ramdisk size;
      every other field, addresses included, is the decoded one. */
  function UpdatedHeader(h: Header, newRamdiskSize: nat): (r: Header)
    ensures r.Ints() == h.Ints()[2 := newRamdiskSize]
    ensures r.magic == h.magic && r.name == h.name && r.id == h.id && r.extraCmdline == h.extraCmdline
    ensures r.cmdline == ModifyCmdline(h.cmdline)
  {
    h.(cmdline := ModifyCmdline(h.cmdline)).(ramdiskSize := newRamdiskSize)
  }

  /** The updated header can be packed exactly when the new ramdisk size fits 'I'. */
  lemma UpdatedHeaderFits(h: Header, newRamdiskSize: nat)
    requires h.IntegersFit()
    ensures UpdatedHeader(h, newRamdiskSize).IntegersFit() <==> newRamdiskSize < U32Limit
  {
    var u := UpdatedHeader(h, newRamdiskSize);
    assert u.Ints()[2] == newRamdiskSize;
  }

  /** The re-encoded header reads back as the input header with only cmdline
      (patched, then cut to its 512-byte slot) and ramdisk_size changed. */
  lemma HeaderUpdate(h: Header, newRamdiskSize: nat)
    requires h.WellFormed() && newRamdiskSize < U32Limit
    ensures Encode(UpdatedHeader(h, newRamdiskSize)).Ok?
    ensures Decode(Encode(UpdatedHeader(h, newRamdiskSize)).value)
            == Ok(h.(cmdline := Fit(ModifyCmdline(h.cmdline), ArgsSize), ramdiskSize := newRamdiskSize))
  {
    var u := UpdatedHeader(h, newRamdiskSize);
    DecodeEncode(u);
    FitExact(h.magic);
    FitExact(h.name);
    FitExact(h.id);
    FitExact(h.extraCmdline);
  }

  /** The input has a header and all four regions. */
  predicate Splits(content: seq<byte>) {
    Decode(content).Ok? && Split(content, Decode(content).value).Ok?
  }

  function InputHeader(content: seq<byte>): Header
    requires Splits(content)
  {
    Decode(content).value
  }

  function InputImage(content: seq<byte>): Image
    requires Splits(content)
  {
    Split(content, InputHeader(content)).value
  }

  /** The ramdisk main writes: unpacked, patched with the active table, repacked. */
  function NewRamdisk(content: seq<byte>, disableEncryption: bool,
                      uncompress: seq<byte> -> Option<seq<byte>>,
                      compress: seq<byte> -> seq<byte>): seq<byte>
    requires Splits(content) && uncompress(InputImage(content).ramdisk).Some?
  {
    compress(ApplyTable(uncompress(InputImage(content).ramdisk).value, ActiveTable(disableEncryption)))
  }

  /** What the output of main is made of, given the decoded input header h
      and the recompressed ramdisk rd: the kernel and second-stage regions
      are copied from the input unchanged, rd is followed by zeros up to its
      padded size, and the header page holds the re-encoded header followed
      by zeros (cut to the page when the page is smaller than the header). */
  predicate Repacked(content: seq<byte>, h: Header, rd: seq<byte>, out: seq<byte>)
    requires h.pageSize > 0 && |content| >= ImageLength(h)
  {
    var h' := UpdatedHeader(h, |rd|);
    && Encode(h').Ok?
    && |out| == ImageLength(h')
    && out[..KernelOffset(h)] == Fit(Encode(h').value, h.pageSize)
    && out[KernelOffset(h)..RamdiskOffset(h)] == content[KernelOffset(h)..RamdiskOffset(h)]
    && out[RamdiskOffset(h)..SecondOffset(h')] == Fit(rd, PadSize(|rd|, h.pageSize))
    && out[SecondOffset(h')..] == content[SecondOffset(h)..ImageLength(h)]
  }

  /** Joining the input regions with the new ramdisk and the re-encoded
      header gives an output made as Repacked says, whose header reads back
      with only cmdline and ramdisk_size changed when the page can hold it. */
  lemma RepackedOutput(content: seq<byte>, h: Header, img: Image, rd: seq<byte>, enc: seq<byte>)
    requires Split(content, h) == Ok(img)
    requires Encode(UpdatedHeader(h, |rd|)) == Ok(enc)
    ensures Repacked(content, h, rd, Join(img.(ramdisk := rd, header := enc), UpdatedHeader(h, |rd|)))
    ensures h.WellFormed() && h.pageSize >= HeaderSize ==>
              Decode(Join(img.(ramdisk := rd, header := enc), UpdatedHeader(h, |rd|)))
              == Ok(h.(cmdline := Fit(ModifyCmdline(h.cmdline), ArgsSize), ramdiskSize := |rd|))
  {
    var h' := UpdatedHeader(h, |rd|);
    var joined := img.(ramdisk := rd, header := enc);
    SplitOffsets(content, h);
    JoinRegions(joined, h');
    FitExact(img.kernel);
    FitExact(img.second);
    if h.WellFormed() && h.pageSize >= HeaderSize {
      JoinedHeader(h, joined, enc);
    }
  }

  /** The first HeaderSize bytes of the joined image are the encoded header,
      which reads back with cmdline and ramdisk_size updated. */
  lemma JoinedHeader(h: Header, joined: Image, enc: seq<byte>)
    requires h.WellFormed() && h.pageSize >= HeaderSize
    requires Encode(UpdatedHeader(h, |joined.ramdisk|)) == Ok(enc) && joined.header == enc
    ensures Decode(Join(joined, UpdatedHeader(h, |joined.ramdisk|)))
            == Ok(h.(cmdline := Fit(ModifyCmdline(h.cmdline), ArgsSize), ramdiskSize := |joined.ramdisk|))
  {
    var n := |joined.ramdisk|;
    var h' := UpdatedHeader(h, n);
    var out := Join(joined, h');
    JoinRegions(joined, h');
    assert out[..HeaderSize] == enc by {
      assert out[..HeaderSize] == out[..KernelOffset(h')][..HeaderSize];
    }
    DecodeIgnoresTail(out);
    UpdatedHeaderFits(h, n);
    HeaderUpdate(h, n);
  }

  /** main, from the bytes read to the bytes written. Every failure of the
      script is an error result, in the order the script meets them; on
      success the kernel and second-stage regions are copied unchanged, the
      new ramdisk is followed by zeros up to its padded size, and the header
      page holds the re-encoded header followed by zeros. */
  method PatchImage(content: seq<byte>, disableEncryption: bool,
                    uncompress: seq<byte> -> Option<seq<byte>>,
                    compress: seq<byte> -> seq<byte>)
    returns (r: Result<seq<byte>>)
    ensures Decode(content).Err? ==> r == Err(HeaderTooShort)
    ensures Decode(content).Ok? && !Splits(content)
            ==> r == Err(Split(content, Decode(content).value).error)
    ensures Splits(content) && uncompress(InputImage(content).ramdisk).None?
            ==> r == Err(DecompressFailure)
    ensures Splits(content) && uncompress(InputImage(content).ramdisk).Some?
            && |NewRamdisk(content, disableEncryption, uncompress, compress)| >= U32Limit
            ==> r == Err(IntegerOutOfRange)
    ensures r.Ok? <==> (Splits(content) && uncompress(InputImage(content).ramdisk).Some?
                        && |NewRamdisk(content, disableEncryption, uncompress, compress)| < U32Limit)
    ensures r.Ok? ==> Repacked(content, InputHeader(content),
                               NewRamdisk(content, disableEncryption, uncompress, compress), r.value)
    ensures r.Ok? && InputHeader(content).pageSize >= HeaderSize ==>
              var h := InputHeader(content);
              var rd := NewRamdisk(content, disableEncryption, uncompress, compress);
              Decode(r.value) == Ok(h.(cmdline := Fit(ModifyCmdline(h.cmdline), ArgsSize), ramdiskSize := |rd|))
  {
    var decoded := Decode(content);
    if decoded.Err? {
      return Err(decoded.error);
    }
    var header := decoded.value;
    var split := Split(content, header);
    if split.Err? {
      return Err(split.error);
    }
    var image := split.value;
    ghost var original := header;

    header := header.(cmdline := ModifyCmdline(header.cmdline));

    var table := ActiveTable(disableEncryption);
    var unpacked := uncompress(image.ramdisk);
    if unpacked.None? {
      return Err(DecompressFailure);
    }
    var patched := ModifyRamdisk(unpacked.value, table);
    image := image.(ramdisk := compress(patched));
    assert image.ramdisk == NewRamdisk(content, disableEncryption, uncompress, compress) by {
      assert split.value == InputImage(content);
      assert patched == ApplyTable(unpacked.value, ActiveTable(disableEncryption));
    }
    header := header.(ramdiskSize := |image.ramdisk|);
    assert header == UpdatedHeader(original, |image.ramdisk|);

    UpdatedHeaderFits(original, |image.ramdisk|);
    var packed := Encode(header);
    if packed.Err? {
      return Err(packed.error);
    }
    image := image.(header := packed.value);

    var out := Join(image, header);
    RepackedOutput(content, original, split.value, image.ramdisk, packed.value);
    r := Ok(out);
  }
}
