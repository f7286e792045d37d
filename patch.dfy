/** The two patches: the cmdline rewrite that limits the kernel to four CPUs,
    and the ordered search-and-replace table applied to the unpacked ramdisk. */
module Patch {
  import opened Bytes
  import opened ByteSearch
  import opened Outcome

  /** A Python bytes literal written as a string: character i stands for byte
      i. Only the literals of this module are converted, and they are ASCII,
      so the reduction modulo 256 never changes a character. */
  function Ascii(s: string): (r: seq<byte>)
    ensures |r| == |s|
    ensures forall i :: 0 <= i < |s| && s[i] as int < 256 ==> r[i] as int == s[i] as int
  {
    seq(|s|, i requires 0 <= i < |s| => (s[i] as int % 256) as byte)
  }

  /** One (search, replace) entry of a replacement table. */
  datatype Replacement = Replacement(search: seq<byte>, replace: seq<byte>)

  /** Every entry keeps the width of what it replaces, so the unparsed cpio
      archive inside the ramdisk keeps all its offsets. */
  predicate SameWidths(table: seq<Replacement>) {
    forall i :: 0 <= i < |table| ==> |table[i].search| == |table[i].replace|
  }

  /** The init-script line that writes a CPU list into a cpuset group:
      "write /dev/cpuset/<group>/cpus <cpus>". */
  function CpusetWrite(group: string, cpus: string): (r: seq<byte>)
    ensures |r| == 24 + |group| + |cpus|
  {
    Ascii("write /dev/cpuset/" + group + "/cpus " + cpus)
  }

  /** The metadata partition named in the fstab options. */
  function MetadataPartition(): (r: string)
    ensures |r| == 57
  {
    "/dev/block/platform/soc.0/" + "f9824900.sdhci/" + "by-name/metadata"
  }

  /** n ASCII spaces. */
  function Spaces(n: nat): (r: seq<byte>)
    ensures |r| == n
    ensures forall i :: 0 <= i < n ==> r[i] == 32
  {
    seq(n, _ => 32)
  }

  /** REPLACE_STRINGS: the cpuset directives of the init scripts, each
      rewritten to CPUs 0-3 (padded with spaces to the original width). */
  function ReplaceStrings(): (r: seq<Replacement>)
    ensures |r| == 5 && SameWidths(r)
  {
    [Replacement(CpusetWrite("foreground", "0-2,4-5"), CpusetWrite("foreground", "0-3    ")),
     Replacement(CpusetWrite("foreground/boost", "4-5"), CpusetWrite("foreground/boost", "0-3")),
     Replacement(CpusetWrite("background", "0"), CpusetWrite("background", "3")),
     Replacement(CpusetWrite("system-background", "0-2"), CpusetWrite("system-background", "2-3")),
     Replacement(CpusetWrite("top-app", "0-5"), CpusetWrite("top-app", "0-3"))]
  }

  /** REPLACE_ENCRYPTION: the fstab options that enable verified boot and
      forced encryption, blanked with 65 and 72 spaces. */
  function ReplaceEncryption(): (r: seq<Replacement>)
    ensures |r| == 2 && SameWidths(r)
  {
    [Replacement(Ascii(",verify=" + MetadataPartition()), Spaces(65)),
     Replacement(Ascii(",forcefdeorfbe=" + MetadataPartition()), Spaces(72))]
  }

  /** The table main uses: REPLACE_STRINGS, followed by REPLACE_ENCRYPTION
      with --disable-encryption. */
  function ActiveTable(disableEncryption: bool): (r: seq<Replacement>)
    ensures SameWidths(r)
    ensures |r| == if disableEncryption then 7 else 5
    ensures r[..5] == ReplaceStrings()
  {
    var base := ReplaceStrings();
    if disableEncryption then
      var extra := ReplaceEncryption();
      SameWidthsAppend(base, extra);
      assert (base + extra)[..5] == base;
      base + extra
    else
      base
  }

  lemma SameWidthsAppend(a: seq<Replacement>, b: seq<Replacement>)
    requires SameWidths(a) && SameWidths(b)
    ensures SameWidths(a + b)
  {
    forall i | 0 <= i < |a + b| ensures |(a + b)[i].search| == |(a + b)[i].replace| {
      if i >= |a| {
        assert (a + b)[i] == b[i - |a|];
      }
    }
  }

  /** The cmdline directive and its four-CPU replacement. */
  function BootCpus(): (r: seq<byte>)
    ensures |r| == 13
  {
    Ascii("boot_cpus=0-5")
  }

  function BootCpusReduced(): (r: seq<byte>)
    ensures |r| == 23
  {
    Ascii("boot_cpus=0-3 maxcpus=4")
  }

  /** modify_cmdline: cmdline.replace(b'boot_cpus=0-5', b'boot_cpus=0-3 maxcpus=4').
      Nothing changes when the directive is absent; each occurrence grows
      the buffer by ten bytes. */
  function ModifyCmdline(cmdline: seq<byte>): (r: seq<byte>)
    ensures Find(cmdline, BootCpus()).None? ==> r == cmdline
    ensures |r| == |cmdline| + 10 * Count(cmdline, BootCpus())
  {
    ReplaceAllLength(cmdline, BootCpus(), BootCpusReduced());
    if Find(cmdline, BootCpus()).None? then
      ReplaceAllAbsent(cmdline, BootCpus(), BootCpusReduced());
      ReplaceAll(cmdline, BootCpus(), BootCpusReduced())
    else
      ReplaceAll(cmdline, BootCpus(), BootCpusReduced())
  }

  /** The first directive in the cmdline becomes the reduced one, and it is
      still whole in the 512-byte slot when it ends within it. */
  lemma ModifyCmdlineFirst(cmdline: seq<byte>, i: nat)
    requires Find(cmdline, BootCpus()) == Some(i)
    ensures ModifyCmdline(cmdline)[..i] == cmdline[..i]
    ensures |ModifyCmdline(cmdline)| >= i + 23 && ModifyCmdline(cmdline)[i..i + 23] == BootCpusReduced()
    ensures i + 23 <= 512 ==> Fit(ModifyCmdline(cmdline), 512)[i..i + 23] == BootCpusReduced()
  {
    ReplaceAllAtFirst(cmdline, BootCpus(), BootCpusReduced(), i);
    var r := ModifyCmdline(cmdline);
    var tail := ReplaceAll(cmdline[i + 13..], BootCpus(), BootCpusReduced());
    assert r == cmdline[..i] + BootCpusReduced() + tail;
    assert r[i..i + 23] == BootCpusReduced();
  }

  /** One turn of the loop in modify_ramdisk: the pair is applied only when
      ramdisk.find(search) >= 0. */
  function ApplyReplacement(ramdisk: seq<byte>, p: Replacement): (r: seq<byte>)
    ensures Find(ramdisk, p.search).None? ==> r == ramdisk
    ensures |p.search| == |p.replace| ==> |r| == |ramdisk|
  {
    if Find(ramdisk, p.search).None? then ramdisk
    else if |p.search| == |p.replace| then
      EqualWidthReplaceKeepsLength(ramdisk, p.search, p.replace);
      ReplaceAll(ramdisk, p.search, p.replace)
    else
      ReplaceAll(ramdisk, p.search, p.replace)
  }

  /** The table applied entry by entry, in order, each entry to the result
      of the ones before it. */
  function ApplyTable(ramdisk: seq<byte>, table: seq<Replacement>): seq<byte>
    decreases |table|
  {
    if table == [] then ramdisk
    else ApplyReplacement(ApplyTable(ramdisk, table[..|table| - 1]), table[|table| - 1])
  }

  /** Applying a concatenation of tables is applying one after the other. */
  lemma {:induction false} ApplyTableAppend(ramdisk: seq<byte>, a: seq<Replacement>, b: seq<Replacement>)
    ensures ApplyTable(ramdisk, a + b) == ApplyTable(ApplyTable(ramdisk, a), b)
    decreases |b|
  {
    if b == [] {
      assert a + b == a;
    } else {
      var ab := a + b;
      assert ab[..|ab| - 1] == a + b[..|b| - 1];
      assert ab[|ab| - 1] == b[|b| - 1];
      ApplyTableAppend(ramdisk, a, b[..|b| - 1]);
    }
  }

  /** The first entry sees the input; the rest see its result. */
  lemma ApplyTableFirst(ramdisk: seq<byte>, p: Replacement, rest: seq<Replacement>)
    ensures ApplyTable(ramdisk, [p] + rest) == ApplyTable(ApplyReplacement(ramdisk, p), rest)
  {
    ApplyTableAppend(ramdisk, [p], rest);
    assert [p][..0] == [];
  }

  /** A table whose entries all keep their width keeps the ramdisk's length. */
  lemma {:induction false} ApplyTableKeepsLength(ramdisk: seq<byte>, table: seq<Replacement>)
    requires SameWidths(table)
    ensures |ApplyTable(ramdisk, table)| == |ramdisk|
    decreases |table|
  {
    if table != [] {
      ApplyTableKeepsLength(ramdisk, table[..|table| - 1]);
    }
  }

  /** A table none of whose search strings ever turns up changes nothing. */
  lemma {:induction false} ApplyTableNothingFound(ramdisk: seq<byte>, table: seq<Replacement>)
    requires forall i :: 0 <= i < |table| ==> Find(ramdisk, table[i].search).None?
    ensures ApplyTable(ramdisk, table) == ramdisk
    decreases |table|
  {
    if table != [] {
      ApplyTableNothingFound(ramdisk, table[..|table| - 1]);
    }
  }

  /** modify_ramdisk: the for loop that rebinds ramdisk once per table entry. */
  method ModifyRamdisk(ramdisk: seq<byte>, table: seq<Replacement>) returns (r: seq<byte>)
    ensures r == ApplyTable(ramdisk, table)
    ensures SameWidths(table) ==> |r| == |ramdisk|
  {
    r := ramdisk;
    for i := 0 to |table|
      invariant r == ApplyTable(ramdisk, table[..i])
      invariant SameWidths(table) ==> |r| == |ramdisk|
    {
      assert table[..i + 1][..i] == table[..i];
      var search, replace := table[i].search, table[i].replace;
      if Find(r, search).Some? {
        r := ReplaceAll(r, search, replace);
      }
    }
    assert table[..|table|] == table;
  }
}
