/** The kernel-side code patch (libsu.c `kernel_entry`, lines 71-82).

    Kernel code is viewed as an array of 32-bit instruction words starting
    at a fixed base.  The first `ScanLimit` positions are scanned for the
    four-word access-control check; at every match words 0 and 2 are
    overwritten by a NOP.  The model proves that the in-place loop, which
    reads words it may already have rewritten, patches exactly the matches
    present in the original array.
 */
module Signature {

  type Word = bv32

  /** The four instruction words of the access-control check. */
  const Sig0: Word := 0x0AFF_FFEA
  const Sig1: Word := 0xE35A_0000
  const Sig2: Word := 0x0A00_000D
  const Sig3: Word := 0xE3A0_E000

  /** The ARM `nop` written over words 0 and 2 of a match. */
  const Nop: Word := 0xE320_F000

  /** Number of start positions the loop examines (`i < 0x10000`). */
  const ScanLimit: int := 0x10000

  /** The last start position reads index `ScanLimit + 2`, so the scanned
      region must hold at least this many words. */
  const RegionWords: int := ScanLimit + 3

  /** The four-word signature starts at index `i` of `a`. */
  predicate MatchAt(a: seq<Word>, i: int)
    requires 0 <= i && i + 3 < |a|
  {
    a[i] == Sig0 && a[i + 1] == Sig1 && a[i + 2] == Sig2 && a[i + 3] == Sig3
  }

  /** Word `j` lies at offset 0 or 2 of a match in `a` that starts before
      `n`: it is one of the words the scan of the first `n` positions
      overwrites. */
  predicate Patched(a: seq<Word>, n: int, j: int)
    requires 0 <= n <= ScanLimit && |a| >= RegionWords
    requires 0 <= j < |a|
  {
    (j < n && MatchAt(a, j)) || (2 <= j < n + 2 && MatchAt(a, j - 2))
  }

  /** Reference result: every match of the ORIGINAL array among the first
      `n` start positions patched, every other word kept. */
  function PatchPrefix(a: seq<Word>, n: int): (r: seq<Word>)
    requires 0 <= n <= ScanLimit && |a| >= RegionWords
    ensures |r| == |a|
    ensures forall j :: 0 <= j < |a| && Patched(a, n, j) ==> r[j] == Nop
    ensures forall j :: 0 <= j < |a| && !Patched(a, n, j) ==> r[j] == a[j]
  {
    seq(|a|, j requires 0 <= j < |a| => if Patched(a, n, j) then Nop else a[j])
  }

  /** The result `kernel_entry` is meant to have: every match of the
      original array patched. */
  function PatchAll(a: seq<Word>): (r: seq<Word>)
    requires |a| >= RegionWords
    ensures |r| == |a|
    ensures forall i :: 0 <= i < ScanLimit && MatchAt(a, i) ==>
              r[i] == Nop && r[i + 1] == a[i + 1] && r[i + 2] == Nop && r[i + 3] == a[i + 3]
    ensures forall j :: 0 <= j < |a| && r[j] != a[j] ==> r[j] == Nop && Patched(a, ScanLimit, j)
    ensures forall j :: ScanLimit + 2 <= j < |a| ==> r[j] == a[j]
  {
    var r := PatchPrefix(a, ScanLimit);
    assert forall i :: 0 <= i < ScanLimit && MatchAt(a, i) ==> r[i + 1] == a[i + 1] && r[i + 3] == a[i + 3] by {
      forall i | 0 <= i < ScanLimit && MatchAt(a, i)
        ensures r[i + 1] == a[i + 1] && r[i + 3] == a[i + 3]
      {
        NoOverlap(a, i);
      }
    }
    r
  }

  /** Two matches never share a word: the words at offsets 1..3 of a match
      cannot begin a match, and the words at offsets 0..1 cannot be offset 2
      of one. */
  lemma NoOverlap(a: seq<Word>, i: int)
    requires 0 <= i && i + 3 < |a| && MatchAt(a, i)
    ensures forall j :: 0 <= j && j + 3 < |a| && i < j <= i + 3 ==> !MatchAt(a, j)
    ensures forall j :: 0 <= j && j + 3 < |a| && i - 3 <= j < i ==> !MatchAt(a, j)
  {
  }

  /** The patch word differs from every signature word, so a patched word
      can never be part of a match. */
  lemma NopBreaksSignature()
    ensures Nop != Sig0 && Nop != Sig1 && Nop != Sig2 && Nop != Sig3
  {
  }

  /** At step `i` the loop sees the same match decision in the partly
      patched array as in the original one: the only words rewritten so far
      near `i` are at `i` and `i + 1`, and they can only have been rewritten
      because the original holds `Sig2` there, which rules out a match at
      `i` in the original as well. */
  lemma {:induction false} StepSeesOriginal(a: seq<Word>, i: int)
    requires 0 <= i < ScanLimit && |a| >= RegionWords
    ensures MatchAt(PatchPrefix(a, i), i) <==> MatchAt(a, i)
  {
    var r := PatchPrefix(a, i);
    assert !Patched(a, i, i + 2) && !Patched(a, i, i + 3);
    if MatchAt(a, i) {
      NoOverlap(a, i);
      assert !Patched(a, i, i) && !Patched(a, i, i + 1);
    }
  }

  /** Extending the scan by position `i` adds exactly the words at offsets
      0 and 2 of a match at `i`. */
  lemma PatchedStep(a: seq<Word>, i: int, j: int)
    requires 0 <= i < ScanLimit && |a| >= RegionWords
    requires 0 <= j < |a|
    ensures Patched(a, i + 1, j) <==> Patched(a, i, j) || (MatchAt(a, i) && (j == i || j == i + 2))
  {
  }

  /** One loop step turns the prefix-`i` result into the prefix-`i + 1`
      result. */
  lemma {:induction false} StepExtends(a: seq<Word>, i: int)
    requires 0 <= i < ScanLimit && |a| >= RegionWords
    ensures MatchAt(a, i) ==> PatchPrefix(a, i)[i := Nop][i + 2 := Nop] == PatchPrefix(a, i + 1)
    ensures !MatchAt(a, i) ==> PatchPrefix(a, i) == PatchPrefix(a, i + 1)
  {
    var r := PatchPrefix(a, i);
    var r' := PatchPrefix(a, i + 1);
    if MatchAt(a, i) {
      forall j | 0 <= j < |a|
        ensures r[i := Nop][i + 2 := Nop][j] == r'[j]
      {
        PatchedStep(a, i, j);
      }
    } else {
      forall j | 0 <= j < |a|
        ensures r[j] == r'[j]
      {
        PatchedStep(a, i, j);
      }
    }
  }

  /** The scan loop of `kernel_entry`, run on a copy of the kernel code
      region: it tests the signature against the words as they stand,
      already-rewritten ones included, and the result equals patching every
      match of the original region. */
  method KernelCodePatch(kmem: seq<Word>) returns (r: seq<Word>)
    requires |kmem| >= RegionWords
    ensures r == PatchAll(kmem)
  {
    r := kmem;
    var i := 0;
    while i < ScanLimit
      invariant 0 <= i <= ScanLimit
      invariant r == PatchPrefix(kmem, i)
    {
      StepSeesOriginal(kmem, i);
      StepExtends(kmem, i);
      if r[i] == Sig0 && r[i + 1] == Sig1 && r[i + 2] == Sig2 && r[i + 3] == Sig3 {
        r := r[i := Nop][i + 2 := Nop];
      }
      i := i + 1;
    }
  }

  /** No match survives the patch inside the scanned positions. */
  lemma {:induction false} NoMatchAfterPatch(a: seq<Word>, i: int)
    requires |a| >= RegionWords && 0 <= i < ScanLimit
    ensures !MatchAt(PatchAll(a), i)
  {
    var r := PatchAll(a);
    if MatchAt(r, i) {
      assert false;
    }
  }

  /** Running the patch a second time changes nothing. */
  lemma {:induction false} PatchIdempotent(a: seq<Word>)
    requires |a| >= RegionWords
    ensures PatchAll(PatchAll(a)) == PatchAll(a)
  {
    var r := PatchAll(a);
    forall j | 0 <= j < |r|
      ensures !Patched(r, ScanLimit, j)
    {
      if j < ScanLimit {
        NoMatchAfterPatch(a, j);
      }
      if 2 <= j < ScanLimit + 2 {
        NoMatchAfterPatch(a, j - 2);
      }
    }
  }
}
