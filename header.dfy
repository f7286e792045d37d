/** The version-0 Android boot image header (the layout of
    system/core/mkbootimg/bootimg.h) read and written with the struct format
    '<8sIIIIIIIIII16s512s32s1024s': an 8-byte magic, ten little-endian u32
    fields, then byte fields of 16, 512, 32 and 1024 bytes. */
module BootHeader {
  import opened Bytes
  import opened Outcome

  const MagicSize: nat := 8
  const NameSize: nat := 16
  const ArgsSize: nat := 512
  const IdSize: nat := 32
  const ExtraArgsSize: nat := 1024
  const IntCount: nat := 10

  /** struct.calcsize of the header format: 8 + 10 * 4 + 16 + 512 + 32 + 1024. */
  const HeaderSize: nat := 1632

  /** The ImageHeader namedtuple. Integers are unbounded here; the 'I' code's
      range is enforced when the header is encoded. */
  datatype Header = Header(
    magic: seq<byte>,
    kernelSize: nat,
    kernelAddr: nat,
    ramdiskSize: nat,
    ramdiskAddr: nat,
    secondSize: nat,
    secondAddr: nat,
    tagsAddr: nat,
    pageSize: nat,
    unused: nat,
    osVersion: nat,
    name: seq<byte>,
    cmdline: seq<byte>,
    id: seq<byte>,
    extraCmdline: seq<byte>)
  {
    /** The ten 'I' fields, in struct order. */
    function Ints(): (r: seq<nat>)
      ensures |r| == IntCount
    {
      [kernelSize, kernelAddr, ramdiskSize, ramdiskAddr, secondSize,
       secondAddr, tagsAddr, pageSize, unused, osVersion]
    }

    /** Every 'I' field is in the range struct.pack accepts. */
    predicate IntegersFit() {
      forall i :: 0 <= i < IntCount ==> Ints()[i] < U32Limit
    }

    /** Every 's' field has exactly its slot's width. */
    predicate WidthsExact() {
      |magic| == MagicSize && |name| == NameSize && |cmdline| == ArgsSize
      && |id| == IdSize && |extraCmdline| == ExtraArgsSize
    }

    /** A header as struct.unpack_from returns it. */
    predicate WellFormed() {
      IntegersFit() && WidthsExact()
    }

    /** The header as it reads back after struct.pack: each byte field
        zero-padded or truncated to its width. */
    function Normalized(): (r: Header)
      ensures r.WidthsExact()
      ensures r.Ints() == Ints()
    {
      this.(magic := Fit(magic, MagicSize), name := Fit(name, NameSize),
            cmdline := Fit(cmdline, ArgsSize), id := Fit(id, IdSize),
            extraCmdline := Fit(extraCmdline, ExtraArgsSize))
    }
  }

  /** A run of 'I' fields. */
  function EncodeU32s(xs: seq<nat>): (r: seq<byte>)
    requires forall i :: 0 <= i < |xs| ==> xs[i] < U32Limit
    ensures |r| == 4 * |xs|
  {
    if xs == [] then [] else EncodeU32(xs[0]) + EncodeU32s(xs[1..])
  }

  /** A run of 'I' fields read back. */
  function DecodeU32s(b: seq<byte>): (r: seq<nat>)
    requires |b| % 4 == 0
    ensures 4 * |r| == |b|
    ensures forall i :: 0 <= i < |r| ==> r[i] < U32Limit
  {
    if b == [] then [] else [DecodeU32(b[..4])] + DecodeU32s(b[4..])
  }

  lemma {:induction false} DecodeEncodeU32s(xs: seq<nat>)
    requires forall i :: 0 <= i < |xs| ==> xs[i] < U32Limit
    ensures DecodeU32s(EncodeU32s(xs)) == xs
  {
    if xs != [] {
      var b := EncodeU32s(xs);
      assert b[..4] == EncodeU32(xs[0]);
      assert b[4..] == EncodeU32s(xs[1..]);
      DecodeEncodeU32(xs[0]);
      DecodeEncodeU32s(xs[1..]);
    }
  }

  lemma {:induction false} EncodeDecodeU32s(b: seq<byte>)
    requires |b| % 4 == 0
    ensures EncodeU32s(DecodeU32s(b)) == b
    decreases |b|
  {
    if b != [] {
      var xs := DecodeU32s(b);
      assert xs[1..] == DecodeU32s(b[4..]);
      EncodeDecodeU32(b[..4]);
      EncodeDecodeU32s(b[4..]);
      assert b == b[..4] + b[4..];
    }
  }

  /** struct.pack(HEADER_STRUCT, *header): fails (struct.error) when an
      integer does not fit 'I'; otherwise exactly HeaderSize bytes. */
  function Encode(h: Header): (r: Result<seq<byte>>)
    ensures r.Ok? <==> h.IntegersFit()
    ensures r.Err? ==> r.error == IntegerOutOfRange
    ensures r.Ok? ==> |r.value| == HeaderSize
  {
    if !h.IntegersFit() then Err(IntegerOutOfRange)
    else Ok(Fit(h.magic, MagicSize) + EncodeU32s(h.Ints()) + Fit(h.name, NameSize)
            + Fit(h.cmdline, ArgsSize) + Fit(h.id, IdSize) + Fit(h.extraCmdline, ExtraArgsSize))
  }

  /** ImageHeader._make(struct.unpack_from(HEADER_STRUCT, b)): fails
      (struct.error) on fewer than HeaderSize bytes, reads only the first
      HeaderSize bytes, and does not look at the magic. */
  function Decode(b: seq<byte>): (r: Result<Header>)
    ensures r.Ok? <==> |b| >= HeaderSize
    ensures r.Err? ==> r.error == HeaderTooShort
    ensures r.Ok? ==> r.value.WellFormed()
  {
    if |b| < HeaderSize then Err(HeaderTooShort)
    else
      var n := DecodeU32s(b[8..48]);
      Ok(Header(b[0..8], n[0], n[1], n[2], n[3], n[4], n[5], n[6], n[7], n[8], n[9],
                b[48..64], b[64..576], b[576..608], b[608..1632]))
  }

  /** Bytes past the header never influence the decoded header. */
  lemma DecodeIgnoresTail(b: seq<byte>)
    requires |b| >= HeaderSize
    ensures Decode(b) == Decode(b[..HeaderSize])
  {
    var c := b[..HeaderSize];
    assert b[0..8] == c[0..8] && b[8..48] == c[8..48] && b[48..64] == c[48..64];
    assert b[64..576] == c[64..576] && b[576..608] == c[576..608] && b[608..1632] == c[608..1632];
  }

  /** Packing then unpacking gives back the header with its byte fields
      fitted to their widths; integers are unchanged. */
  lemma DecodeEncode(h: Header)
    requires h.IntegersFit()
    ensures Encode(h).Ok? && Decode(Encode(h).value) == Ok(h.Normalized())
  {
    var a := Fit(h.magic, MagicSize);
    var ints := EncodeU32s(h.Ints());
    var b := Fit(h.name, NameSize);
    var c := Fit(h.cmdline, ArgsSize);
    var d := Fit(h.id, IdSize);
    var e := Fit(h.extraCmdline, ExtraArgsSize);
    var enc := Encode(h).value;
    assert enc == a + ints + b + c + d + e;
    assert enc[0..8] == a;
    assert enc[8..48] == ints;
    assert enc[48..64] == b;
    assert enc[64..576] == c;
    assert enc[576..608] == d;
    assert enc[608..1632] == e;
    DecodeEncodeU32s(h.Ints());
  }

  /** The round trip of a well-formed header is exact. */
  lemma DecodeEncodeExact(h: Header)
    requires h.WellFormed()
    ensures Encode(h).Ok? && Decode(Encode(h).value) == Ok(h)
  {
    DecodeEncode(h);
    FitExact(h.magic);
    FitExact(h.name);
    FitExact(h.cmdline);
    FitExact(h.id);
    FitExact(h.extraCmdline);
  }

  /** Unpacking then packing gives back exactly the first HeaderSize bytes. */
  lemma EncodeDecode(b: seq<byte>)
    requires |b| >= HeaderSize
    ensures Decode(b).Ok? && Encode(Decode(b).value) == Ok(b[..HeaderSize])
  {
    var h := Decode(b).value;
    var n := DecodeU32s(b[8..48]);
    assert h.Ints() == n;
    EncodeDecodeU32s(b[8..48]);
    FitExact(b[0..8]);
    FitExact(b[48..64]);
    FitExact(b[64..576]);
    FitExact(b[576..608]);
    FitExact(b[608..1632]);
    assert Encode(h).value == b[0..8] + b[8..48] + b[48..64] + b[64..576] + b[576..608] + b[608..1632];
    assert b[..HeaderSize] == b[0..8] + b[8..48] + b[48..64] + b[64..576] + b[576..608] + b[608..1632];
  }
}
