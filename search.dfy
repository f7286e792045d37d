/** The three operations on Python bytes that the patcher relies on:
    bytes.find, bytes.replace (every occurrence) and the first part of
    bytes.partition. bytes.count measures how many replacements replace
    makes. */
module ByteSearch {
  import opened Bytes
  import opened Outcome

  /** pat occurs in s starting at offset i. */
  predicate OccursAt(s: seq<byte>, pat: seq<byte>, i: nat) {
    i + |pat| <= |s| && s[i..i + |pat|] == pat
  }

  /** The lowest offset at or after i where pat occurs. */
  function FindFrom(s: seq<byte>, pat: seq<byte>, i: nat): (r: Option<nat>)
    requires i <= |s|
    ensures r.Some? ==> i <= r.value && OccursAt(s, pat, r.value)
    ensures r.Some? ==> forall j: nat :: i <= j < r.value ==> !OccursAt(s, pat, j)
    ensures r.None? ==> forall j: nat :: i <= j ==> !OccursAt(s, pat, j)
    decreases |s| - i
  {
    if OccursAt(s, pat, i) then Some(i)
    else if i + |pat| >= |s| then None
    else FindFrom(s, pat, i + 1)
  }

  /** bytes.find: the lowest offset of pat in s, None where Python returns -1.
      The empty pattern is found at offset 0. */
  function Find(s: seq<byte>, pat: seq<byte>): (r: Option<nat>)
    ensures r.Some? ==> OccursAt(s, pat, r.value)
    ensures r.Some? ==> forall j: nat :: j < r.value ==> !OccursAt(s, pat, j)
    ensures r.None? ==> forall j: nat :: !OccursAt(s, pat, j)
  {
    FindFrom(s, pat, 0)
  }

  /** Find is determined by where the first occurrence is. */
  lemma FindIsFirst(s: seq<byte>, pat: seq<byte>, k: nat)
    requires OccursAt(s, pat, k)
    requires forall j: nat :: j < k ==> !OccursAt(s, pat, j)
    ensures Find(s, pat) == Some(k)
  {
    var r := Find(s, pat);
    assert r.Some? && OccursAt(s, pat, r.value);
  }

  /** Dropping the first byte moves every occurrence one place left. */
  lemma OccursShift(s: seq<byte>, pat: seq<byte>, j: nat)
    requires |s| > 0
    ensures OccursAt(s[1..], pat, j) <==> OccursAt(s, pat, j + 1)
  {
    if j + 1 + |pat| <= |s| {
      assert s[1..][j..j + |pat|] == s[j + 1..j + 1 + |pat|];
    }
  }

  /** When pat does not start s, finding it in the tail is finding it in s,
      one place to the left. */
  lemma FindInTail(s: seq<byte>, pat: seq<byte>)
    requires |s| > 0 && !OccursAt(s, pat, 0)
    ensures Find(s, pat).None? ==> Find(s[1..], pat).None?
    ensures Find(s, pat).Some? ==> Find(s, pat).value > 0 && Find(s[1..], pat) == Some(Find(s, pat).value - 1)
  {
    var t := s[1..];
    if Find(t, pat).Some? {
      OccursShift(s, pat, Find(t, pat).value);
    }
    if Find(s, pat).Some? {
      var i := Find(s, pat).value;
      OccursShift(s, pat, i - 1);
      forall j: nat | j < i - 1 ensures !OccursAt(t, pat, j) {
        OccursShift(s, pat, j);
      }
      FindIsFirst(t, pat, i - 1);
    }
  }

  /** bytes.replace(b'', rep): rep before every byte and once at the end. */
  function InsertEverywhere(s: seq<byte>, rep: seq<byte>): (r: seq<byte>)
    ensures |r| == |s| + (|s| + 1) * |rep|
  {
    if s == [] then rep
    else rep + [s[0]] + InsertEverywhere(s[1..], rep)
  }

  /** bytes.replace(pat, rep): scanning left to right, every occurrence of pat
      that does not overlap an earlier replaced one becomes rep. */
  function ReplaceAll(s: seq<byte>, pat: seq<byte>, rep: seq<byte>): seq<byte>
    decreases |s|
  {
    if |pat| == 0 then InsertEverywhere(s, rep)
    else if |s| < |pat| then s
    else if s[..|pat|] == pat then rep + ReplaceAll(s[|pat|..], pat, rep)
    else [s[0]] + ReplaceAll(s[1..], pat, rep)
  }

  /** bytes.count: the number of non-overlapping occurrences, left to right;
      the empty pattern is counted once per gap, |s| + 1 times. */
  function Count(s: seq<byte>, pat: seq<byte>): nat
    decreases |s|
  {
    if |pat| == 0 then |s| + 1
    else if |s| < |pat| then 0
    else if s[..|pat|] == pat then 1 + Count(s[|pat|..], pat)
    else Count(s[1..], pat)
  }

  /** Each replacement changes the length by |rep| - |pat|. */
  lemma {:induction false} ReplaceAllLength(s: seq<byte>, pat: seq<byte>, rep: seq<byte>)
    ensures |ReplaceAll(s, pat, rep)| == |s| + Count(s, pat) * (|rep| - |pat|)
    decreases |s|
  {
    var d := |rep| - |pat|;
    if |pat| == 0 {
    } else if |s| < |pat| {
    } else if s[..|pat|] == pat {
      var t := s[|pat|..];
      ReplaceAllLength(t, pat, rep);
      var c := Count(t, pat);
      assert |ReplaceAll(s, pat, rep)| == |rep| + |ReplaceAll(t, pat, rep)|;
      assert Count(s, pat) == 1 + c;
      OneMore(c, d);
    } else {
      ReplaceAllLength(s[1..], pat, rep);
    }
  }

  lemma OneMore(c: int, d: int)
    ensures (1 + c) * d == d + c * d
  {
  }

  /** Equal-width pairs never change the length. */
  lemma EqualWidthReplaceKeepsLength(s: seq<byte>, pat: seq<byte>, rep: seq<byte>)
    requires |pat| == |rep|
    ensures |ReplaceAll(s, pat, rep)| == |s|
  {
    ReplaceAllLength(s, pat, rep);
  }

  /** Count is positive exactly when find succeeds. */
  lemma {:induction false} CountPositiveIffFound(s: seq<byte>, pat: seq<byte>)
    ensures Count(s, pat) > 0 <==> Find(s, pat).Some?
    decreases |s|
  {
    if |pat| == 0 {
      assert OccursAt(s, pat, 0);
    } else if |s| < |pat| {
    } else if s[..|pat|] == pat {
      assert OccursAt(s, pat, 0);
    } else {
      FindInTail(s, pat);
      CountPositiveIffFound(s[1..], pat);
    }
  }

  /** A pattern that is absent leaves the bytes unchanged. */
  lemma {:induction false} ReplaceAllAbsent(s: seq<byte>, pat: seq<byte>, rep: seq<byte>)
    requires |pat| > 0 && Find(s, pat).None?
    ensures ReplaceAll(s, pat, rep) == s
    decreases |s|
  {
    if |s| >= |pat| {
      assert !OccursAt(s, pat, 0);
      FindInTail(s, pat);
      ReplaceAllAbsent(s[1..], pat, rep);
      assert s == [s[0]] + s[1..];
    }
  }

  /** The leftmost occurrence is replaced and the scan resumes after it:
      together with ReplaceAllAbsent this pins ReplaceAll down completely. */
  lemma ReplaceAllAtFirst(s: seq<byte>, pat: seq<byte>, rep: seq<byte>, i: nat)
    requires |pat| > 0 && OccursAt(s, pat, i)
    requires forall j: nat :: j < i ==> !OccursAt(s, pat, j)
    ensures ReplaceAll(s, pat, rep) == s[..i] + rep + ReplaceAll(s[i + |pat|..], pat, rep)
  {
    SkipPrefix(s, pat, rep, i);
    ReplaceAtStart(s[i..], pat, rep);
    assert s[i..][|pat|..] == s[i + |pat|..];
    AppendAssoc(s[..i], rep, ReplaceAll(s[i + |pat|..], pat, rep));
  }

  lemma AppendAssoc(a: seq<byte>, b: seq<byte>, c: seq<byte>)
    ensures a + (b + c) == a + b + c
  {
  }

  /** Bytes before the first occurrence are copied one by one. */
  lemma {:induction false} SkipPrefix(s: seq<byte>, pat: seq<byte>, rep: seq<byte>, k: nat)
    requires |pat| > 0 && k <= |s|
    requires forall j: nat :: j < k ==> !OccursAt(s, pat, j)
    ensures ReplaceAll(s, pat, rep) == s[..k] + ReplaceAll(s[k..], pat, rep)
    decreases k
  {
    if k == 0 {
      assert s[0..] == s;
    } else {
      SkipPrefix(s, pat, rep, k - 1);
      SkipOne(s, pat, rep, k - 1);
      AppendOne(s, k, ReplaceAll(s[k..], pat, rep));
    }
  }

  /** At an offset where pat does not occur, ReplaceAll copies one byte. */
  lemma SkipOne(s: seq<byte>, pat: seq<byte>, rep: seq<byte>, j: nat)
    requires |pat| > 0 && j < |s| && !OccursAt(s, pat, j)
    ensures ReplaceAll(s[j..], pat, rep) == [s[j]] + ReplaceAll(s[j + 1..], pat, rep)
  {
    var u := s[j..];
    assert u[1..] == s[j + 1..];
    if |u| >= |pat| {
      assert u[..|pat|] == s[j..j + |pat|];
    } else {
      assert u == [s[j]] + s[j + 1..];
    }
  }

  lemma AppendOne(s: seq<byte>, k: nat, rest: seq<byte>)
    requires 0 < k <= |s|
    ensures s[..k - 1] + ([s[k - 1]] + rest) == s[..k] + rest
  {
    assert s[..k - 1] + [s[k - 1]] == s[..k];
  }

  lemma ReplaceAtStart(s: seq<byte>, pat: seq<byte>, rep: seq<byte>)
    requires |pat| > 0 && OccursAt(s, pat, 0)
    ensures ReplaceAll(s, pat, rep) == rep + ReplaceAll(s[|pat|..], pat, rep)
  {
    assert s[0..|pat|] == s[..|pat|];
  }

  /** partition(b'\0')[0]: the bytes before the first zero byte, or all of s
      when it holds none. */
  function Strip(s: seq<byte>): (r: seq<byte>)
    ensures r <= s
    ensures forall i :: 0 <= i < |r| ==> r[i] != 0
    ensures |r| < |s| ==> s[|r|] == 0
  {
    if s == [] || s[0] == 0 then []
    else [s[0]] + Strip(s[1..])
  }
}
