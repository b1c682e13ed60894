/** Locality-sensitive bands over MinHash signatures. */
module LshBands {
  import opened Arith
  import opened Mix64
  import opened MinHash

  /** Words per band: enough for `bands` bands to cover a signature of length `n`. */
  function BandWidth(n: nat, bands: nat): nat { AtLeastOne(CeilDiv(n, AtLeastOne(bands))) }

  /** The consecutive chunks of `width` words; the last one may be shorter. */
  function Chunks(words: seq<Word>, width: nat): seq<seq<Word>>
    requires width >= 1
  {
    if words == [] then []
    else if |words| <= width then [words]
    else [words[..width]] + Chunks(words[width..], width)
  }

  function Concat(chunks: seq<seq<Word>>): seq<Word> {
    if chunks == [] then [] else chunks[0] + Concat(chunks[1..])
  }

  function BandHash(chunk: seq<Word>): Word { Mix(FnvFold(FNV_OFFSET, chunk)) }

  /** The key of a band: its index as a 32-bit integer and the hash of its words. */
  function BandKey(i: nat, chunk: seq<Word>): (nat, Word) { (i % 0x1_0000_0000, BandHash(chunk)) }

  function Keys(chunks: seq<seq<Word>>): seq<(nat, Word)> {
    seq(|chunks|, i requires 0 <= i < |chunks| => BandKey(i, chunks[i]))
  }

  method AbsorbAll(words: seq<Word>) returns (h: Word)
    ensures h == FnvFold(FNV_OFFSET, words)
  {
    h := FNV_OFFSET;
    for k := 0 to |words|
      invariant h == FnvFold(FNV_OFFSET, words[..k])
    {
      FnvFoldAppend(FNV_OFFSET, words[..k], words[k]);
      assert words[..k] + [words[k]] == words[..k + 1];
      h := Absorb(h, words[k]);
    }
    assert words[..|words|] == words;
  }

  method BandKeys(signature: seq<Word>, bands: nat) returns (keys: seq<(nat, Word)>)
    ensures keys == Keys(Chunks(signature, BandWidth(|signature|, bands)))
    ensures forall i :: 0 <= i < |keys| ==> keys[i].0 == i % 0x1_0000_0000
  {
    var width := BandWidth(|signature|, bands);
    ghost var chunks := Chunks(signature, width);
    keys := [];
    var rest, i := signature, 0;
    while rest != []
      invariant i == |keys| <= |chunks|
      invariant Chunks(rest, width) == chunks[i..]
      invariant keys == Keys(chunks[..i])
      decreases |rest|
    {
      var chunk := if |rest| <= width then rest else rest[..width];
      assert chunk == chunks[i];
      var h := AbsorbAll(chunk);
      keys := keys + [(i % 0x1_0000_0000, Mix(h))];
      assert Chunks(rest, width)[1..] == chunks[i + 1..];
      rest := rest[|chunk|..];
      i := i + 1;
    }
    assert chunks[..i] == chunks;
  }

  lemma DivStep(n: nat, d: nat)
    requires 1 <= d < n
    ensures CeilDiv(n, d) == 1 + CeilDiv(n - d, d)
  {
    assert (n - 1 + d) / d == (n - 1) / d + 1 by { DivAddOne(n - 1, d); }
  }

  /** The chunks partition the signature: there are ceil(n / width) of them, each between 1
      and `width` words long, and they concatenate to the signature. */
  lemma {:induction false} ChunksPartition(words: seq<Word>, width: nat)
    requires width >= 1
    ensures |Chunks(words, width)| == CeilDiv(|words|, width)
    ensures Concat(Chunks(words, width)) == words
    ensures forall c :: c in Chunks(words, width) ==> 1 <= |c| <= width
    decreases |words|
  {
    if words == [] {
      assert (width - 1) / width == 0 by { QuotientUnique(width - 1, width, 0, width - 1); }
    } else if |words| <= width {
      QuotientUnique(|words| + width - 1, width, 1, |words| - 1);
      assert Concat([words]) == words + Concat([words][1..]);
    } else {
      var tail := words[width..];
      ChunksPartition(tail, width);
      DivStep(|words|, width);
      var chunks := Chunks(words, width);
      assert chunks[1..] == Chunks(tail, width);
      assert words == words[..width] + tail;
    }
  }

  /** A signature of length `n` yields ceil(n / ceil(n / bands)) keys, never more than the
      requested number of bands (at least one), and some unless the signature is empty. */
  lemma BandCount(signature: seq<Word>, bands: nat)
    ensures var width := BandWidth(|signature|, bands);
            && |Chunks(signature, width)| == CeilDiv(|signature|, width)
            && |Chunks(signature, width)| <= AtLeastOne(bands)
            && (signature != [] ==> Chunks(signature, width) != [])
  {
    var n, b := |signature|, AtLeastOne(bands);
    var width := BandWidth(n, bands);
    ChunksPartition(signature, width);
    WidthCovers(n, b);
    CeilDivBound(n, width, b);
    hide CeilDiv, BandWidth, Chunks;
    if Chunks(signature, width) == [] {
      assert signature == Concat([]) == [];
    }
  }

  /** The bands are as narrow as their number allows: any narrower ones would be too many. */
  lemma WidthIsLeast(n: nat, bands: nat, width: nat)
    requires width >= 1 && CeilDiv(n, width) <= AtLeastOne(bands)
    ensures BandWidth(n, bands) <= width
  {
    CeilDivCovers(n, width);
    MulMonotone(CeilDiv(n, width), AtLeastOne(bands), width);
    assert AtLeastOne(bands) * width == width * AtLeastOne(bands);
    CeilDivBound(n, AtLeastOne(bands), width);
  }

  lemma WidthCovers(n: nat, b: nat)
    requires b >= 1
    ensures n <= AtLeastOne(CeilDiv(n, b)) * b
  {
    hide CeilDiv;
    CeilDivCovers(n, b);
    MulMonotone(CeilDiv(n, b), AtLeastOne(CeilDiv(n, b)), b);
  }

  /** The number of positions where two sequences of equal length differ. */
  function Differences<T(==)>(a: seq<T>, b: seq<T>): nat
    requires |a| == |b|
  {
    if a == [] then 0 else (if a[0] == b[0] then 0 else 1) + Differences(a[1..], b[1..])
  }

  lemma {:induction false} DifferencesSplit<T>(a: seq<T>, b: seq<T>, k: nat)
    requires k <= |a| == |b|
    ensures Differences(a, b) == Differences(a[..k], b[..k]) + Differences(a[k..], b[k..])
  {
    if k > 0 {
      DifferencesSplit(a[1..], b[1..], k - 1);
      assert a[..k][1..] == a[1..][..k - 1] && b[..k][1..] == b[1..][..k - 1];
      assert a[1..][k - 1..] == a[k..] && b[1..][k - 1..] == b[k..];
    }
  }

  lemma {:induction false} NoDifferences<T>(a: seq<T>, b: seq<T>)
    requires |a| == |b| && Differences(a, b) == 0
    ensures a == b
  {
    if a != [] {
      NoDifferences(a[1..], b[1..]);
    }
  }

  /** Each band that differs uses up at least one differing position. */
  lemma {:induction false} DifferingBandsBound(a: seq<Word>, b: seq<Word>, width: nat)
    requires width >= 1 && |a| == |b|
    ensures |Chunks(a, width)| == |Chunks(b, width)|
    ensures Differences(Chunks(a, width), Chunks(b, width)) <= Differences(a, b)
    decreases |a|
  {
    if a == [] {
    } else if |a| <= width {
      if Differences(a, b) == 0 { NoDifferences(a, b); }
    } else {
      DifferingBandsBound(a[width..], b[width..], width);
      DifferencesSplit(a, b, width);
      if Differences(a[..width], b[..width]) == 0 { NoDifferences(a[..width], b[..width]); }
      assert Chunks(a, width)[1..] == Chunks(a[width..], width);
      assert Chunks(b, width)[1..] == Chunks(b[width..], width);
    }
  }

  lemma {:induction false} FewDifferencesLeaveAgreement<T>(a: seq<T>, b: seq<T>) returns (i: nat)
    requires |a| == |b| && Differences(a, b) < |a|
    ensures i < |a| && a[i] == b[i]
    decreases |a|
  {
    if a[0] == b[0] {
      i := 0;
    } else {
      i := FewDifferencesLeaveAgreement(a[1..], b[1..]);
      i := i + 1;
    }
  }

  /** The pigeonhole behind candidate search: two signatures of equal length that differ in
      fewer positions than there are bands share a key at the same band index. */
  lemma NearSignaturesShareKey(a: seq<Word>, b: seq<Word>, bands: nat) returns (i: nat)
    requires |a| == |b|
    requires Differences(a, b) < CeilDiv(|a|, BandWidth(|a|, bands))
    ensures var width := BandWidth(|a|, bands);
            && i < |Chunks(a, width)| == |Chunks(b, width)|
            && Keys(Chunks(a, width))[i] == Keys(Chunks(b, width))[i]
  {
    var width := BandWidth(|a|, bands);
    DifferingBandsBound(a, b, width);
    ChunksPartition(a, width);
    i := FewDifferencesLeaveAgreement(Chunks(a, width), Chunks(b, width));
  }

  /** Conversely a key never hides a single changed word: bands that differ in exactly one
      word have different keys. */
  lemma OneChangedWordChangesKey(i: nat, c: seq<Word>, d: seq<Word>, k: nat)
    requires DifferOnlyAt(c, d, k)
    ensures BandKey(i, c) != BandKey(i, d)
  {
    FnvSeparatesOneChange(FNV_OFFSET, c, d, k);
    if BandHash(c) == BandHash(d) {
      MixInjective(FnvFold(FNV_OFFSET, c), FnvFold(FNV_OFFSET, d));
    }
  }

  predicate SomeKeyShared(a: seq<Word>, b: seq<Word>, width: nat)
    requires width >= 1
  {
    var ka, kb := Keys(Chunks(a, width)), Keys(Chunks(b, width));
    exists i :: 0 <= i < |ka| && i < |kb| && ka[i] == kb[i]
  }

  function Flip(w: Word): Word { w ^ 1 }

  lemma FlipChanges(w: Word)
    ensures Flip(w) != w
  {
  }

  /** The signature with the first word of every band changed. */
  function FlipHeads(words: seq<Word>, width: nat): (r: seq<Word>)
    requires width >= 1
    ensures |r| == |words|
  {
    if words == [] then []
    else if |words| <= width then [Flip(words[0])] + words[1..]
    else [Flip(words[0])] + words[1..width] + FlipHeads(words[width..], width)
  }

  lemma {:induction false} SameIsNoDifference<T>(a: seq<T>)
    ensures Differences(a, a) == 0
  {
    if a != [] {
      SameIsNoDifference(a[1..]);
    }
  }

  /** One word changed per band: as many differences as bands, and every band changed in its first
      word. */
  lemma {:induction false} FlippedHeads(words: seq<Word>, width: nat)
    requires width >= 1
    ensures var a, b := Chunks(words, width), Chunks(FlipHeads(words, width), width);
            && |a| == |b| == Differences(words, FlipHeads(words, width))
            && forall i :: 0 <= i < |a| ==> DifferOnlyAt(a[i], b[i], 0)
    decreases |words|
  {
    var flipped := FlipHeads(words, width);
    if words == [] {
    } else if |words| <= width {
      FlipChanges(words[0]);
      assert flipped[1..] == words[1..];
      SameIsNoDifference(words[1..]);
    } else {
      FlipChanges(words[0]);
      FlippedHeads(words[width..], width);
      var head := [Flip(words[0])] + words[1..width];
      assert flipped[..width] == head && flipped[width..] == FlipHeads(words[width..], width);
      DifferencesSplit(words, flipped, width);
      assert words[..width][1..] == head[1..];
      SameIsNoDifference(head[1..]);
      assert Differences(words[..width], head) == 1;
      assert DifferOnlyAt(words[..width], head, 0);
    }
  }

  /** The bound of the pigeonhole is the exact one: signatures of `n` words that differ in at most
      `d` positions always share a key precisely when there are more than `d` bands. */
  lemma SharedKeyExactly(n: nat, bands: nat, d: nat)
    ensures (forall a: seq<Word>, b: seq<Word> :: |a| == n && |b| == n && Differences(a, b) <= d ==>
               SomeKeyShared(a, b, BandWidth(n, bands)))
       <==> d < CeilDiv(n, BandWidth(n, bands))
  {
    var width := BandWidth(n, bands);
    if d < CeilDiv(n, width) {
      forall a: seq<Word>, b: seq<Word> | |a| == n && |b| == n && Differences(a, b) <= d
        ensures SomeKeyShared(a, b, width)
      {
        var i := NearSignaturesShareKey(a, b, bands);
      }
    } else {
      var a := seq(n, _ => 0 as Word);
      var b := FlipHeads(a, width);
      FlippedHeads(a, width);
      ChunksPartition(a, width);
      var ca, cb := Chunks(a, width), Chunks(b, width);
      forall i | 0 <= i < |ca|
        ensures Keys(ca)[i] != Keys(cb)[i]
      {
        OneChangedWordChangesKey(i, ca[i], cb[i], 0);
      }
      assert !SomeKeyShared(a, b, width);
    }
  }

  /** Each key carries the index of its band, as 32 bits hold it. With no more bands than 32 bits
      count, the keys of one signature are all different, and a key of one signature is a key of
      another only at the same band: texts that agree in different bands do not meet. */
  lemma KeysTellTheirBand(a: seq<Word>, b: seq<Word>, width: nat, i: nat, j: nat)
    requires width >= 1 && i < |Chunks(a, width)| && j < |Chunks(b, width)|
    ensures Keys(Chunks(a, width))[i].0 == i % 0x1_0000_0000
    ensures |Chunks(a, width)| <= 0x1_0000_0000 && |Chunks(b, width)| <= 0x1_0000_0000 ==>
              (Keys(Chunks(a, width))[i] == Keys(Chunks(b, width))[j] ==> i == j)
  {
    hide Chunks, BandHash;
  }

  /** So signatures with a key in common, wherever it stands in either list, share it at one band
      index, and the bands there have the same hash. */
  lemma CommonKeyIsShared(a: seq<Word>, b: seq<Word>, width: nat, i: nat, j: nat)
    requires width >= 1 && i < |Chunks(a, width)| <= 0x1_0000_0000 && j < |Chunks(b, width)| <= 0x1_0000_0000
    ensures Keys(Chunks(a, width))[i] == Keys(Chunks(b, width))[j]
       <==> i == j && BandHash(Chunks(a, width)[i]) == BandHash(Chunks(b, width)[i])
  {
    hide Chunks, BandHash;
  }

  lemma {:induction false} SingletonChunks(words: seq<Word>)
    ensures |Chunks(words, 1)| == |words|
    ensures forall i :: 0 <= i < |words| ==> Chunks(words, 1)[i] == [words[i]]
    decreases |words|
  {
    if |words| > 1 {
      SingletonChunks(words[1..]);
    }
  }

  /** With one word per band, two signatures share the key of band `i` exactly when they
      agree at position `i`. */
  lemma SingleWordBandsAreExact(a: seq<Word>, b: seq<Word>, i: nat)
    requires i < |a| == |b|
    ensures i < |Chunks(a, 1)| && i < |Chunks(b, 1)|
    ensures Keys(Chunks(a, 1))[i] == Keys(Chunks(b, 1))[i] <==> a[i] == b[i]
  {
    SingletonChunks(a);
    SingletonChunks(b);
    if a[i] != b[i] {
      assert DifferOnlyAt([a[i]], [b[i]], 0);
      OneChangedWordChangesKey(i, [a[i]], [b[i]], 0);
    }
  }
}
