# disable_cpu_cores: a verified model of the boot-image patcher

`disable_cpu_cores.py` patches an Android boot (or recovery) image, header
version 0, so that the kernel only brings up four CPUs. It reads the
image, decodes the header with the struct format
`'<8sIIIIIIIIII16s512s32s1024s'`, and cuts the file into a header page,
the kernel, the ramdisk and the second stage. Each region is padded to a
whole number of pages. The script then:

- rewrites `boot_cpus=0-5` in the kernel cmdline;
- gunzips the ramdisk and applies an ordered table of equal-width
  search/replace pairs to the whole unpacked ramdisk (they target the
  cpuset lines of the init scripts and, with `--disable-encryption`, the
  fstab options);
- gzips the ramdisk again and stores its new size in the header;
- packs the header and the four regions back into one image.

This project models that pipeline on byte sequences and proves what it
does:

- `outcome.dfy`: the error kinds the script can hit, as a `Result`, and an `Option`.
- `bytes.dfy`: bytes, the zero-padding or truncating `s` field (`Fit`),
  and the little-endian `I` field.
- `search.dfy`: Python's `bytes.find`, `bytes.replace` (non-overlapping,
  left to right, including the empty-pattern case), `bytes.count`, and
  `strip`. The lemmas pin `replace` down by its first occurrence and
  measure it with `count`.
- `header.dfy`: the header datatype and its codec, with round trips in both directions.
- `layout.dfy`: `pad_size`, and the split and join of the image by the format `'<%ds%ds%ds%ds'`.
- `patch.dfy`: the two replacement tables, `modify_cmdline`, and
  `modify_ramdisk` as a loop proved against the function `ApplyTable`.
- `pipeline.dfy`: the body of `main` as a method `PatchImage`. It has
  every error exit of the script, and a postcondition that describes the
  output image region by region.

The header format is 1632 bytes wide: 8 + 10 × 4 + 16 + 512 + 32 + 1024.

Python integers are unbounded and so are the model's (`nat`). The `I`
code's range check (`struct.error` for a value of 2^32 or more) is the
`IntegerOutOfRange` error of `BootHeader.Encode`.

## Model

| member | source | states |
|---|---|---|
| Bytes.Fit | disable_cpu_cores.py:88 | an `s` field of width n: exactly n bytes, the value's bytes first (truncated if longer), zeros after it |
| Bytes.EncodeU32 | disable_cpu_cores.py:14 | the `I` code with `<`: four bytes, least significant first; DecodeEncodeU32 and EncodeDecodeU32 make it the inverse of DecodeU32 |
| Bytes.DecodeU32 | disable_cpu_cores.py:14 | the `I` code read back from four bytes is below 2^32 |
| Bytes.DecodeEncodeU32 | disable_cpu_cores.py:14 | reading back a packed little-endian `I` gives the value |
| Bytes.EncodeDecodeU32 | disable_cpu_cores.py:14 | packing an unpacked `I` gives back the four bytes |
| BootHeader.EncodeU32s | disable_cpu_cores.py:14 | the run of ten `I` fields: four bytes per integer; DecodeEncodeU32s and EncodeDecodeU32s make it the inverse of DecodeU32s |
| BootHeader.DecodeU32s | disable_cpu_cores.py:14 | a run of `I` fields read back: one integer per four bytes, each below 2^32 |
| BootHeader.DecodeEncodeU32s | disable_cpu_cores.py:14 | reading back a packed run of `I` fields gives the integers |
| BootHeader.EncodeDecodeU32s | disable_cpu_cores.py:14 | packing an unpacked run of `I` fields gives back its bytes |
| BootHeader.Encode | disable_cpu_cores.py:84 | struct.pack of the header succeeds exactly when every integer is below 2^32 (otherwise IntegerOutOfRange) and gives 1632 bytes |
| BootHeader.Decode | disable_cpu_cores.py:63 | struct.unpack_from succeeds exactly when there are at least 1632 bytes (otherwise HeaderTooShort); the header has exact field widths and 32-bit integers |
| BootHeader.DecodeIgnoresTail | disable_cpu_cores.py:63 | bytes past the header never change the decoded header |
| BootHeader.DecodeEncode | disable_cpu_cores.py:84 | unpacking a packed header gives it back with each byte field padded or cut to its width; the integers are unchanged |
| BootHeader.DecodeEncodeExact | disable_cpu_cores.py:84 | for a header with exact widths and 32-bit integers the round trip is the identity |
| BootHeader.EncodeDecode | disable_cpu_cores.py:63 | packing an unpacked header gives back exactly the first 1632 input bytes |
| Layout.PadSize | disable_cpu_cores.py:66-67 | pad_size with floor division; specified by PadSizeRoundsUp and PadSizeIsLeast |
| Layout.PadSizeRoundsUp | disable_cpu_cores.py:66-67 | pad_size is a multiple of page_size, at least n and below n + page_size; a multiple (0 included) is unchanged |
| Layout.PadSizeIsLeast | disable_cpu_cores.py:66-67 | pad_size is at most any multiple of page_size that is at least n |
| Layout.Split | disable_cpu_cores.py:69-70 | a zero page size fails (ZeroDivisionError); otherwise the split fails exactly when the input is shorter than P + pad(k) + pad(r) + pad(s); the regions have lengths P, pad(k), pad(r), pad(s) and together are the input's first bytes |
| Layout.SplitOffsets | disable_cpu_cores.py:69-70 | the regions are the slices starting at 0, P, P + pad(k) and P + pad(k) + pad(r) |
| Layout.SplitIgnoresTail | disable_cpu_cores.py:70 | trailing bytes after the last region never change the split |
| Layout.Join | disable_cpu_cores.py:87-88 | struct.pack of the image has length P + pad(k) + pad(r) + pad(s) of the header it is given |
| Layout.JoinRegions | disable_cpu_cores.py:87-88 | each region of the packed image is that field padded with zeros or cut to its padded width |
| Layout.JoinSplit | disable_cpu_cores.py:88 | packing what was unpacked gives back the image bytes without the tail |
| ByteSearch.FindFrom | disable_cpu_cores.py:109 | the lowest position at or after i where the pattern occurs, or none when it occurs nowhere from i on |
| ByteSearch.Find | disable_cpu_cores.py:109 | bytes.find: a result is an occurrence and no earlier position is one; no result means no occurrence anywhere |
| ByteSearch.CountPositiveIffFound | disable_cpu_cores.py:109-112 | the non-overlapping count is positive exactly when find succeeds |
| ByteSearch.InsertEverywhere | disable_cpu_cores.py:112 | replace with an empty pattern gives len(s) + (len(s) + 1) * len(rep) bytes, the length of one replacement in each of the len(s) + 1 gaps |
| ByteSearch.ReplaceAll | disable_cpu_cores.py:112 | bytes.replace, scanning left to right without overlap; specified by ReplaceAllAbsent and ReplaceAllAtFirst (which together fix the result) and measured by ReplaceAllLength |
| ByteSearch.ReplaceAllLength | disable_cpu_cores.py:112 | replace changes the length by len(rep) - len(pat) per counted occurrence |
| ByteSearch.EqualWidthReplaceKeepsLength | disable_cpu_cores.py:18 | an equal-width pair keeps the length of the bytes |
| ByteSearch.ReplaceAllAbsent | disable_cpu_cores.py:112 | a non-empty pattern that is absent leaves the bytes unchanged |
| ByteSearch.ReplaceAllAtFirst | disable_cpu_cores.py:112 | the first occurrence becomes the replacement, the bytes before it are kept, and the scan resumes right after it |
| ByteSearch.Strip | disable_cpu_cores.py:94-95 | partition(b'\0')[0]: a prefix of the input without zero bytes, ending at the first zero byte if there is one |
| Patch.ReplaceStrings | disable_cpu_cores.py:19-40 | REPLACE_STRINGS holds five pairs, each of equal width |
| Patch.ReplaceEncryption | disable_cpu_cores.py:42-51 | REPLACE_ENCRYPTION holds two pairs, each of equal width |
| Patch.ActiveTable | disable_cpu_cores.py:76-78 | the table in use starts with REPLACE_STRINGS, has 7 pairs with --disable-encryption and 5 without, and all its pairs have equal widths |
| Patch.ModifyCmdline | disable_cpu_cores.py:98-104 | cmdline without boot_cpus=0-5 is unchanged; otherwise it grows by 10 bytes per occurrence |
| Patch.ModifyCmdlineFirst | disable_cpu_cores.py:100 | the first boot_cpus=0-5 becomes boot_cpus=0-3 maxcpus=4, bytes before it are kept, and it stays whole in the 512-byte slot when it ends within it |
| Patch.ApplyReplacement | disable_cpu_cores.py:109-112 | a pair whose search bytes are absent changes nothing; an equal-width pair keeps the length |
| Patch.ApplyTable | disable_cpu_cores.py:108-112 | the pairs applied one after another in list order; specified by ApplyTableAppend, ApplyTableFirst, ApplyTableKeepsLength and ApplyTableNothingFound, and computed by ModifyRamdisk |
| Patch.ApplyTableAppend | disable_cpu_cores.py:108-112 | applying a concatenation of tables is applying the first and then the second to its result |
| Patch.ApplyTableFirst | disable_cpu_cores.py:108-112 | the first pair sees the input and the remaining pairs see its result |
| Patch.ApplyTableKeepsLength | disable_cpu_cores.py:18 | a table of equal-width pairs keeps the ramdisk's length |
| Patch.ApplyTableNothingFound | disable_cpu_cores.py:107-116 | a table none of whose search strings is found returns the ramdisk unchanged |
| Patch.ModifyRamdisk | disable_cpu_cores.py:107-116 | the loop computes ApplyTable of the pairs in list order; an equal-width table keeps the length |
| Pipeline.UpdatedHeader | disable_cpu_cores.py:73-81 | the two `_replace` calls on the header: among the integers only ramdisk_size changes (to the new size), cmdline becomes the patched cmdline, and magic, name, id and extra_cmdline are kept |
| Pipeline.NewRamdisk | disable_cpu_cores.py:80 | the ramdisk main writes: the input ramdisk unpacked, patched with the active table and packed again; its length becomes ramdisk_size through UpdatedHeader |
| Pipeline.UpdatedHeaderFits | disable_cpu_cores.py:81-84 | the updated header packs exactly when the new ramdisk size is below 2^32 |
| Pipeline.HeaderUpdate | disable_cpu_cores.py:73-84 | the re-encoded header reads back as the decoded one with only cmdline (patched, cut to 512 bytes) and ramdisk_size changed |
| Pipeline.RepackedOutput | disable_cpu_cores.py:84-88 | the output is the encoded header page, the unchanged kernel, the new ramdisk padded with zeros, and the unchanged second stage; its header reads back patched when the page holds it |
| Pipeline.JoinedHeader | disable_cpu_cores.py:84-88 | when page_size is at least 1632, the first bytes of the output decode to the patched header |
| Pipeline.PatchImage | disable_cpu_cores.py:63-88 | main: each failure in the order the script meets it (short header, zero page size, short image, bad gzip, ramdisk too large for `I`), and success exactly when none of them happens; on success the output is made as RepackedOutput states and its header reads back with only cmdline and ramdisk_size changed |

## Left out

- Argument parsing and file I/O (disable_cpu_cores.py:54-61, :90-91): the input bytes and the `--disable-encryption` flag are parameters of `PatchImage`, and the output is its result.
- `print` and `.decode('ascii')` (disable_cpu_cores.py:101-102, :110-114): console output only. The `UnicodeDecodeError` a non-ASCII cmdline or ramdisk string would raise is not modelled.
- gzip (disable_cpu_cores.py:119-127): `uncompress` and `compress` are function parameters of `PatchImage`. `uncompress` returns `None` for data that is not gzip. No round trip or determinism of the codec is claimed, and the `mtime=0` setting is inside the library.
- Magic checks, address recomputation and any runtime check of pair widths: the script has none of these, so the model has none.
- The unused `original_cmdline` (disable_cpu_cores.py:99): `Strip` is modelled on its own and is not connected to the output.
- Patch.Ascii: reduces characters modulo 256. All the literals it converts are ASCII, so this never changes a byte.
- Layout.Join: requires a positive page size, where Python's `pad_size` would raise ZeroDivisionError. `PatchImage` only joins after `Split` has succeeded with the same page size.
- Pipeline.PatchImage: states the decoded output header only when page_size is at least 1632. For a smaller page, `struct.pack` truncates the encoded header to fit the page, so it does not decode back.
