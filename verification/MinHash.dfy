/** MinHash signatures of `extraction-det` and the theorem that makes their agreement rate an
    estimate of Jaccard similarity. */
module MinHash {
  import opened Wrappers
  import opened Mix64

  const FNV_OFFSET: Word := 0xcbf2_9ce4_8422_2325
  const MAX_WORD: Word := 0xFFFF_FFFF_FFFF_FFFF

  type Byte = bv8
  type Bytes = seq<Byte>

  // ---------------------------------------------------------------- FNV-1a

  /** The FNV-1a accumulator after absorbing `words` from `h`. */
  function FnvFold(h: Word, words: seq<Word>): Word
    decreases |words|
  {
    if words == [] then h else FnvFold(Absorb(h, words[0]), words[1..])
  }

  function ByteWord(b: bv8): Word { b as Word }

  function Widen(bytes: Bytes): seq<Word> {
    seq(|bytes|, i requires 0 <= i < |bytes| => ByteWord(bytes[i]))
  }

  function HashOf(bytes: Bytes): Word { Mix(FnvFold(FNV_OFFSET, Widen(bytes))) }

  lemma FnvFoldAppend(h: Word, words: seq<Word>, w: Word)
    ensures FnvFold(h, words + [w]) == Absorb(FnvFold(h, words), w)
    decreases |words|
  {
    if words == [] {
      assert [w][1..] == [];
    } else {
      assert (words + [w])[1..] == words[1..] + [w];
      FnvFoldAppend(Absorb(h, words[0]), words[1..], w);
    }
  }

  /** The hash of a string, computed byte by byte. */
  method HashStr(bytes: Bytes) returns (r: Word)
    ensures r == HashOf(bytes)
  {
    var h := FNV_OFFSET;
    ghost var words := Widen(bytes);
    for k := 0 to |bytes|
      invariant h == FnvFold(FNV_OFFSET, words[..k])
    {
      FnvFoldAppend(FNV_OFFSET, words[..k], words[k]);
      assert words[..k] + [words[k]] == words[..k + 1];
      h := Absorb(h, ByteWord(bytes[k]));
    }
    assert words[..|bytes|] == words;
    r := Mix(h);
  }

  /** The fold from a fixed input is a bijection of the accumulator. */
  lemma FnvFoldInjective(g: Word, h: Word, words: seq<Word>)
    requires FnvFold(g, words) == FnvFold(h, words)
    ensures g == h
    decreases |words|
  {
    if words != [] {
      FnvFoldInjective(Absorb(g, words[0]), Absorb(h, words[0]), words[1..]);
      AbsorbInverts(g, words[0]);
      AbsorbInverts(h, words[0]);
    }
  }

  ghost predicate DifferOnlyAt<T>(a: seq<T>, b: seq<T>, k: nat) {
    && |a| == |b|
    && k < |a|
    && a[k] != b[k]
    && forall j :: 0 <= j < |a| && j != k ==> a[j] == b[j]
  }

  /** FNV-1a never confuses two inputs that differ in exactly one position. */
  lemma {:induction false} FnvSeparatesOneChange(h: Word, a: seq<Word>, b: seq<Word>, k: nat)
    requires DifferOnlyAt(a, b, k)
    ensures FnvFold(h, a) != FnvFold(h, b)
    decreases k
  {
    if k == 0 {
      assert a[1..] == b[1..];
      if FnvFold(h, a) == FnvFold(h, b) {
        FnvFoldInjective(Absorb(h, a[0]), Absorb(h, b[0]), a[1..]);
        AbsorbInverts(h, a[0]);
        AbsorbInverts(h, b[0]);
      }
    } else {
      assert a[0] == b[0];
      FnvSeparatesOneChange(Absorb(h, a[0]), a[1..], b[1..], k - 1);
    }
  }

  lemma WidenInjective(x: bv8, y: bv8)
    ensures ByteWord(x) == ByteWord(y) ==> x == y
  {
  }

  /** Two strings of equal length that differ in exactly one byte have different hashes. */
  lemma HashSeparatesOneChange(a: Bytes, b: Bytes, k: nat)
    requires DifferOnlyAt(a, b, k)
    ensures HashOf(a) != HashOf(b)
  {
    WidenInjective(a[k], b[k]);
    assert DifferOnlyAt(Widen(a), Widen(b), k);
    FnvSeparatesOneChange(FNV_OFFSET, Widen(a), Widen(b), k);
    if HashOf(a) == HashOf(b) {
      MixInjective(FnvFold(FNV_OFFSET, Widen(a)), FnvFold(FNV_OFFSET, Widen(b)));
    }
  }

  // ---------------------------------------------------------------- shingles

  function Join(tokens: seq<Bytes>, separator: Bytes): Bytes {
    if tokens == [] then []
    else if |tokens| == 1 then tokens[0]
    else tokens[0] + separator + Join(tokens[1..], separator)
  }

  /** The shingles of a tokenised text: every window of `width` tokens, or the whole text as
      one shingle when it is shorter than a window. */
  function Shingles(tokens: seq<Bytes>, width: nat): seq<Word>
    requires width >= 1
  {
    if tokens == [] then []
    else if |tokens| < width then [HashOf(Join(tokens, [0x20]))]
    else seq(|tokens| - width + 1,
             i requires 0 <= i <= |tokens| - width => HashOf(Join(tokens[i..i + width], [1])))
  }

  ghost function Elements<T(!new)>(items: seq<T>): set<T> { set x | x in items }

  /** Adding words before or after a text only adds shingles, so a padded prompt keeps every
      shingle of the original. */
  lemma PaddingKeepsShingles(before: seq<Bytes>, tokens: seq<Bytes>, after: seq<Bytes>, width: nat)
    requires 1 <= width <= |tokens|
    ensures Elements(Shingles(tokens, width)) <= Elements(Shingles(before + tokens + after, width))
    ensures |Shingles(before + tokens + after, width)|
         == |Shingles(tokens, width)| + |before| + |after|
  {
    var padded := before + tokens + after;
    var inner, outer := Shingles(tokens, width), Shingles(padded, width);
    forall w | w in Elements(inner)
      ensures w in Elements(outer)
    {
      var i :| 0 <= i < |inner| && inner[i] == w;
      assert padded[|before| + i..|before| + i + width] == tokens[i..i + width];
      assert outer[|before| + i] == w;
    }
  }

  lemma {:induction false} JoinAppend(tokens: seq<Bytes>, last: Bytes, separator: Bytes)
    requires tokens != []
    ensures Join(tokens + [last], separator) == Join(tokens, separator) + separator + last
    decreases |tokens|
  {
    assert (tokens + [last])[1..] == tokens[1..] + [last];
    if |tokens| == 1 {
      assert Join([last], separator) == last;
    } else {
      JoinAppend(tokens[1..], last, separator);
      var head, middle := tokens[0] + separator, Join(tokens[1..], separator);
      assert head + (middle + separator + last) == head + middle + separator + last;
    }
  }

  /** A text of at most one window is one shingle. */
  lemma OneShingle(tokens: seq<Bytes>, width: nat)
    requires tokens != [] && |tokens| <= width
    ensures Shingles(tokens, width) == [HashOf(Join(tokens, if |tokens| < width then [0x20] else [1]))]
  {
    hide HashOf, Join;
    assert tokens[0..0 + |tokens|] == tokens;
  }

  lemma OneElement<T(!new)>(x: T)
    ensures Elements([x]) == {x}
  {
  }

  /** Appending one token to a text shorter than a window leaves one shingle, that of the whole. */
  lemma ShortTextAppended(tokens: seq<Bytes>, last: Bytes, width: nat)
    requires tokens != [] && |tokens| < width
    ensures Shingles(tokens, width) == [HashOf(Join(tokens, [0x20]))]
    ensures var separator := if |tokens| + 1 < width then [0x20] else [1];
            Shingles([] + tokens + [last], width) == [HashOf(Join(tokens, separator) + separator + last)]
  {
    hide *;
    assert [] + tokens + [last] == tokens + [last];
    OneShingle(tokens, width);
    OneShingle(tokens + [last], width);
    JoinAppend(tokens, last, if |tokens| + 1 < width then [0x20] else [1]);
  }

  /** A text shorter than a window can be padded so that its shingle is lost. */
  lemma ShortTextLosesShingle(tokens: seq<Bytes>, width: nat) returns (lost: Bytes)
    requires tokens != [] && |tokens| < width
    ensures var inner, outer := Shingles(tokens, width), Shingles([] + tokens + [lost], width);
            |inner| == |outer| == 1 && inner[0] != outer[0]
  {
    hide *;
    var separator: Bytes := if |tokens| + 1 < width then [0x20] else [1];
    var front := Join(tokens, separator) + separator;
    var a, b: Bytes := [0x61], [0x62];
    ShortTextAppended(tokens, a, width);
    ShortTextAppended(tokens, b, width);
    OneLetterApart(front);
    HashSeparatesOneChange(front + a, front + b, |front|);
    lost := if HashOf(front + a) == HashOf(Join(tokens, [0x20])) then b else a;
  }

  lemma OneLetterApart(front: Bytes)
    ensures DifferOnlyAt(front + [0x61], front + [0x62], |front|)
  {
  }

  /** Padding keeps the shingles of a text, whatever it is padded with, exactly when the text is
      empty or has at least one whole window: a shorter text is one shingle, and of two texts that
      extend it by different letters at most one can have its hash. */
  lemma PaddingKeepsShinglesExactly(tokens: seq<Bytes>, width: nat)
    requires width >= 1
    ensures (forall before, after ::
               Elements(Shingles(tokens, width)) <= Elements(Shingles(before + tokens + after, width)))
       <==> tokens == [] || width <= |tokens|
  {
    if tokens == [] {
      assert Elements(Shingles(tokens, width)) == {};
    } else if width <= |tokens| {
      forall before, after
        ensures Elements(Shingles(tokens, width)) <= Elements(Shingles(before + tokens + after, width))
      {
        PaddingKeepsShingles(before, tokens, after, width);
      }
    } else {
      hide *;
      var lost := ShortTextLosesShingle(tokens, width);
      var inner, outer := Shingles(tokens, width), Shingles([] + tokens + [lost], width);
      assert inner == [inner[0]] && outer == [outer[0]];
      OneElement(inner[0]);
      OneElement(outer[0]);
      assert inner[0] !in Elements(outer);
    }
  }

  /** A text of at least one window has a shingle for each window, in order: the hash of its words with
      the separator between them. A shorter one is a single shingle. */
  lemma ShinglesAreWindows(tokens: seq<Bytes>, width: nat)
    requires width >= 1
    ensures |Shingles(tokens, width)|
         == if tokens == [] then 0 else if |tokens| <= width then 1 else |tokens| - width + 1
    ensures forall i :: 0 <= i <= |tokens| - width && tokens != [] ==>
              Shingles(tokens, width)[i] == HashOf(Join(tokens[i..i + width], [1]))
  {
    hide HashOf, Join;
  }

  lemma JoinUnfolds(tokens: seq<Bytes>, separator: Byte)
    requires |tokens| > 1
    ensures Join(tokens, [separator]) == tokens[0] + [separator] + Join(tokens[1..], [separator])
  {
  }

  lemma FirstWordIsNoShorter(a: Bytes, x: Bytes, s: Bytes, n: nat, separator: Byte)
    requires separator !in a && s == a + [separator] + x && n < |s| && s[n] == separator
    ensures |a| <= n
  {
    assert forall i :: 0 <= i < |a| ==> s[i] == a[i] && a[i] in a;
  }

  lemma SameFirstWord(a: Bytes, b: Bytes, x: Bytes, y: Bytes, separator: Byte)
    requires separator !in a && separator !in b && a + [separator] + x == b + [separator] + y
    ensures a == b && x == y
  {
    var s, t := a + [separator] + x, b + [separator] + y;
    FirstWordIsNoShorter(a, x, s, |b|, separator);
    FirstWordIsNoShorter(b, y, s, |a|, separator);
    assert a == s[..|a|] && b == t[..|b|] && x == s[|a| + 1..] && y == t[|b| + 1..];
  }

  /** Joining loses nothing: windows of equally many words, none of which has the separator in it,
      are joined alike only if they are the same words. So two such windows share a shingle only
      if they are equal or the hash collides. */
  lemma {:induction false} JoinTellsWordsApart(a: seq<Bytes>, b: seq<Bytes>, separator: Byte)
    requires |a| == |b| && Join(a, [separator]) == Join(b, [separator])
    requires forall i :: 0 <= i < |a| ==> separator !in a[i] && separator !in b[i]
    ensures a == b
    decreases |a|
  {
    if |a| > 1 {
      JoinUnfolds(a, separator);
      JoinUnfolds(b, separator);
      hide Join;
      SameFirstWord(a[0], b[0], Join(a[1..], [separator]), Join(b[1..], [separator]), separator);
      JoinTellsWordsApart(a[1..], b[1..], separator);
      assert a == [a[0]] + a[1..] && b == [b[0]] + b[1..];
    }
  }

  // ---------------------------------------------------------------- signatures

  /** The hash function of one signature position. */
  function Rank(seed: Word): Word -> Word { s => Mix(Xor(s, seed)) }

  /** The unsigned integer a word denotes; words are compared by it. */
  function Value(x: Word): nat { x as nat }

  function WordOf(n: nat): Word
    requires n < 0x1_0000_0000_0000_0000
  {
    n as Word
  }

  function AtMost(x: Word, y: Word): bool { Value(x) <= Value(y) }

  function Least<R>(le: (R, R) -> bool, x: R, y: R): R { if le(x, y) then x else y }

  /** The least rank of the items, or `top` when there are none. */
  function MinRank<S, R>(le: (R, R) -> bool, top: R, rank: S -> R, items: seq<S>): R {
    if items == [] then top
    else Least(le, rank(items[0]), MinRank(le, top, rank, items[1..]))
  }

  function SignatureOf(seeds: seq<Word>, shingles: seq<Word>): seq<Word> {
    seq(|seeds|, i requires 0 <= i < |seeds| => MinRank(AtMost, MAX_WORD, Rank(seeds[i]), shingles))
  }

  ghost predicate TotalOrder<R(!new)>(le: (R, R) -> bool, top: R) {
    && (forall x, y :: le(x, y) || le(y, x))
    && (forall x, y :: le(x, y) && le(y, x) ==> x == y)
    && (forall x, y, z :: le(x, y) && le(y, z) ==> le(x, z))
    && (forall x :: le(x, top))
  }

  ghost predicate Injective<S(!new), R>(rank: S -> R) {
    forall x, y :: rank(x) == rank(y) ==> x == y
  }

  ghost predicate IsMinimiser<S(!new), R>(le: (R, R) -> bool, rank: S -> R, m: S, items: set<S>) {
    m in items && forall s :: s in items ==> le(rank(m), rank(s))
  }

  lemma WordsAreOrdered()
    ensures TotalOrder(AtMost, MAX_WORD)
  {
    forall x, y | AtMost(x, y) && AtMost(y, x)
      ensures x == y
    {
      ValueInverts(x);
      ValueInverts(y);
    }
    forall x
      ensures AtMost(x, MAX_WORD)
    {
      ValueBounded(x);
    }
  }

  lemma ValueInverts(x: Word)
    ensures WordOf(Value(x)) == x
  {
    ValueUnfolded(x);
  }

  lemma ValueUnfolded(x: Word)
    ensures WordOf(x as nat) == x
  {
  }

  lemma ValueBounded(x: Word)
    ensures Value(x) <= Value(MAX_WORD)
  {
    assert x as nat <= 0xFFFF_FFFF_FFFF_FFFF;
    assert 0xFFFF_FFFF_FFFF_FFFF as Word as nat == 0xFFFF_FFFF_FFFF_FFFF;
  }

  lemma RankInjective(seed: Word)
    ensures Injective(Rank(seed))
  {
    forall x, y | Rank(seed)(x) == Rank(seed)(y)
      ensures x == y
    {
      MixInjective(Xor(x, seed), Xor(y, seed));
      XorTwice(x, seed);
      XorTwice(y, seed);
    }
  }

  /** Different seeds rank each shingle differently. */
  lemma SeedsTellApart(a: Word, b: Word, s: Word)
    ensures Rank(a)(s) == Rank(b)(s) <==> a == b
  {
    if Rank(a)(s) == Rank(b)(s) {
      MixInjective(Xor(s, a), Xor(s, b));
      XorTwice(a, s);
      XorTwice(b, s);
      XorCommutes(s, a);
      XorCommutes(s, b);
    }
  }

  lemma XorCommutes(x: Word, y: Word)
    ensures Xor(x, y) == Xor(y, x)
  {
  }

  /** `MinRank` is the least rank: below all ranks, and one of them unless there are none. */
  lemma {:induction false} MinRankIsLeast<S(!new), R(!new)>(le: (R, R) -> bool, top: R, rank: S -> R,
                                                            items: seq<S>)
    requires TotalOrder(le, top)
    ensures forall s :: s in items ==> le(MinRank(le, top, rank, items), rank(s))
    ensures items != [] ==>
              exists s :: s in items && rank(s) == MinRank(le, top, rank, items)
  {
    if items != [] {
      var rest := items[1..];
      MinRankIsLeast(le, top, rank, rest);
      assert items == [items[0]] + rest;
      if le(rank(items[0]), MinRank(le, top, rank, rest)) {
        assert items[0] in items;
      } else {
        assert le(rank(items[0]), top);
        var s :| s in rest && rank(s) == MinRank(le, top, rank, rest);
        assert s in items;
      }
    }
  }

  lemma MinimiserExists<S(!new), R(!new)>(le: (R, R) -> bool, top: R, rank: S -> R, items: seq<S>)
      returns (m: S)
    requires TotalOrder(le, top) && items != []
    ensures IsMinimiser(le, rank, m, Elements(items))
  {
    MinRankIsLeast(le, top, rank, items);
    m :| m in items && rank(m) == MinRank(le, top, rank, items);
  }

  lemma MinimiserGivesMinRank<S(!new), R(!new)>(le: (R, R) -> bool, top: R, rank: S -> R,
                                                items: seq<S>, m: S)
    requires TotalOrder(le, top) && IsMinimiser(le, rank, m, Elements(items))
    ensures MinRank(le, top, rank, items) == rank(m)
  {
    assert m in items;
    MinRankIsLeast(le, top, rank, items);
    var s :| s in items && rank(s) == MinRank(le, top, rank, items);
    assert s in Elements(items);
  }

  lemma MinRankDependsOnSet<S(!new), R(!new)>(le: (R, R) -> bool, top: R, rank: S -> R,
                                              a: seq<S>, b: seq<S>)
    requires TotalOrder(le, top) && Elements(a) == Elements(b)
    ensures MinRank(le, top, rank, a) == MinRank(le, top, rank, b)
  {
    if a == [] {
      assert forall i :: 0 <= i < |b| ==> b[i] in Elements(a);
      assert b == [];
    } else {
      assert a[0] in Elements(b);
      var m := MinimiserExists(le, top, rank, a);
      MinimiserGivesMinRank(le, top, rank, a, m);
      MinimiserGivesMinRank(le, top, rank, b, m);
    }
  }

  lemma {:induction false} MinRankOfUnion<S(!new), R(!new)>(le: (R, R) -> bool, top: R, rank: S -> R,
                                                            a: seq<S>, b: seq<S>)
    requires TotalOrder(le, top)
    ensures MinRank(le, top, rank, a + b)
         == Least(le, MinRank(le, top, rank, a), MinRank(le, top, rank, b))
    decreases |a|
  {
    if a == [] {
      assert a + b == b;
    } else {
      assert (a + b)[1..] == a[1..] + b;
      MinRankOfUnion(le, top, rank, a[1..], b);
    }
  }

  lemma AgreementAtMinimiser<S(!new), R(!new)>(le: (R, R) -> bool, top: R, rank: S -> R,
                                               a: seq<S>, b: seq<S>, m: S)
    requires TotalOrder(le, top) && Injective(rank) && a != [] && b != []
    requires IsMinimiser(le, rank, m, Elements(a) + Elements(b))
    ensures MinRank(le, top, rank, a) == MinRank(le, top, rank, b) <==> m in a && m in b
  {
    if m in a && m in b {
      MinimiserGivesMinRank(le, top, rank, a, m);
      MinimiserGivesMinRank(le, top, rank, b, m);
    } else if MinRank(le, top, rank, a) == MinRank(le, top, rank, b) {
      var x := MinimiserExists(le, top, rank, a);
      var y := MinimiserExists(le, top, rank, b);
      MinimiserGivesMinRank(le, top, rank, a, x);
      MinimiserGivesMinRank(le, top, rank, b, y);
    }
  }

  /** Signatures depend only on the set of shingles: order and repetition do not matter. */
  lemma SignatureDependsOnSet(seeds: seq<Word>, a: seq<Word>, b: seq<Word>)
    requires Elements(a) == Elements(b)
    ensures SignatureOf(seeds, a) == SignatureOf(seeds, b)
  {
    WordsAreOrdered();
    forall i | 0 <= i < |seeds|
      ensures SignatureOf(seeds, a)[i] == SignatureOf(seeds, b)[i]
    {
      MinRankDependsOnSet(AtMost, MAX_WORD, Rank(seeds[i]), a, b);
    }
  }

  /** The signature of a union is the pointwise minimum of the signatures. */
  lemma SignatureOfUnion(seeds: seq<Word>, a: seq<Word>, b: seq<Word>)
    ensures forall i :: 0 <= i < |seeds| ==>
              SignatureOf(seeds, a + b)[i]
              == Least(AtMost, SignatureOf(seeds, a)[i], SignatureOf(seeds, b)[i])
  {
    WordsAreOrdered();
    forall i | 0 <= i < |seeds|
      ensures SignatureOf(seeds, a + b)[i]
           == Least(AtMost, SignatureOf(seeds, a)[i], SignatureOf(seeds, b)[i])
    {
      MinRankOfUnion(AtMost, MAX_WORD, Rank(seeds[i]), a, b);
    }
  }

  /** `m` is the only minimiser of hash function `i` over the union of two shingle sets. */
  ghost predicate UniqueMinimiser(seed: Word, m: Word, a: seq<Word>, b: seq<Word>) {
    && IsMinimiser(AtMost, Rank(seed), m, Elements(a) + Elements(b))
    && forall n :: IsMinimiser(AtMost, Rank(seed), n, Elements(a) + Elements(b)) ==> n == m
  }

  lemma UniqueMinimiserExists(seed: Word, a: seq<Word>, b: seq<Word>) returns (m: Word)
    requires a != []
    ensures UniqueMinimiser(seed, m, a, b)
  {
    WordsAreOrdered();
    RankInjective(seed);
    assert Elements(a + b) == Elements(a) + Elements(b);
    var rank := Rank(seed);
    m := MinimiserExists(AtMost, MAX_WORD, rank, a + b);
    forall n | IsMinimiser(AtMost, rank, n, Elements(a) + Elements(b))
      ensures n == m
    {
      assert rank(n) == rank(m);
    }
  }

  /** The MinHash theorem. For non-empty shingle sets the hash of position `i` has exactly one
      minimiser over their union, and the signatures agree at `i` exactly when that shingle
      belongs to both sets. */
  lemma MinHashTheorem(seeds: seq<Word>, a: seq<Word>, b: seq<Word>, i: nat) returns (m: Word)
    requires a != [] && b != [] && i < |seeds|
    ensures UniqueMinimiser(seeds[i], m, a, b)
    ensures SignatureOf(seeds, a)[i] == SignatureOf(seeds, b)[i] <==> m in a && m in b
  {
    WordsAreOrdered();
    RankInjective(seeds[i]);
    m := UniqueMinimiserExists(seeds[i], a, b);
    AgreementAtMinimiser(AtMost, MAX_WORD, Rank(seeds[i]), a, b, m);
  }

  // ---------------------------------------------------------------- similarity

  function Matches(a: seq<Word>, b: seq<Word>): nat
    requires |a| == |b|
  {
    if a == [] then 0 else (if a[0] == b[0] then 1 else 0) + Matches(a[1..], b[1..])
  }

  /** The share of signature positions that agree, or nothing for signatures of different
      lengths or of length 0. */
  function Similarity(a: seq<Word>, b: seq<Word>): Option<real> {
    if a == [] || |a| != |b| then None
    else Some(Matches(a, b) as real / |a| as real)
  }

  lemma {:induction false} NoMatches(a: seq<Word>, b: seq<Word>)
    requires |a| == |b| && forall i :: 0 <= i < |a| ==> a[i] != b[i]
    ensures Matches(a, b) == 0
  {
    if a != [] {
      NoMatches(a[1..], b[1..]);
    }
  }

  lemma {:induction false} AllMatch(a: seq<Word>)
    ensures Matches(a, a) == |a|
  {
    if a != [] {
      AllMatch(a[1..]);
    }
  }

  /** Texts without a common shingle score exactly 0. */
  lemma DisjointSetsScoreZero(seeds: seq<Word>, a: seq<Word>, b: seq<Word>)
    requires seeds != [] && a != [] && b != []
    requires Elements(a) !! Elements(b)
    ensures Similarity(SignatureOf(seeds, a), SignatureOf(seeds, b)) == Some(0.0)
  {
    var p, q := SignatureOf(seeds, a), SignatureOf(seeds, b);
    forall i | 0 <= i < |seeds|
      ensures p[i] != q[i]
    {
      var m := MinHashTheorem(seeds, a, b, i);
      assert !(m in Elements(a) && m in Elements(b));
    }
    NoMatches(p, q);
  }

  lemma SelfQuotient(n: nat)
    requires n > 0
    ensures n as real / n as real == 1.0
  {
  }

  /** Texts with the same set of shingles score exactly 1, whatever their order. */
  lemma EqualSetsScoreOne(seeds: seq<Word>, a: seq<Word>, b: seq<Word>)
    requires seeds != [] && Elements(a) == Elements(b)
    ensures Similarity(SignatureOf(seeds, a), SignatureOf(seeds, b)) == Some(1.0)
  {
    SignatureDependsOnSet(seeds, a, b);
    var p := SignatureOf(seeds, a);
    AllMatch(p);
    SelfQuotient(|p|);
  }

  /** The positions where the shared minimiser lies in both sets. */
  ghost function SharedPositions(seeds: seq<Word>, a: seq<Word>, b: seq<Word>): set<nat> {
    set i: nat | i < |seeds| && exists m :: UniqueMinimiser(seeds[i], m, a, b) && m in a && m in b
  }

  ghost function Agreeing(a: seq<Word>, b: seq<Word>): set<nat>
    requires |a| == |b|
  {
    set i: nat | i < |a| && a[i] == b[i]
  }

  lemma {:induction false} MatchesCountsAgreeing(a: seq<Word>, b: seq<Word>)
    requires |a| == |b|
    ensures Matches(a, b) == |Agreeing(a, b)|
    decreases |a|
  {
    if a != [] {
      var n := |a| - 1;
      MatchesAtEnd(a[..n], b[..n], a[n], b[n]);
      assert a == a[..n] + [a[n]] && b == b[..n] + [b[n]];
      MatchesCountsAgreeing(a[..n], b[..n]);
      assert Agreeing(a, b) == Agreeing(a[..n], b[..n]) + (if a[n] == b[n] then {n} else {});
    }
  }

  lemma {:induction false} MatchesAtEnd(a: seq<Word>, b: seq<Word>, x: Word, y: Word)
    requires |a| == |b|
    ensures Matches(a + [x], b + [y]) == Matches(a, b) + (if x == y then 1 else 0)
  {
    if a != [] {
      assert (a + [x])[1..] == a[1..] + [x] && (b + [y])[1..] == b[1..] + [y];
      MatchesAtEnd(a[1..], b[1..], x, y);
    }
  }

  /** The score is exactly the share of hash functions whose minimiser over the union is a
      shared shingle: an unbiased sample of membership in the intersection. */
  lemma ScoreSamplesIntersection(seeds: seq<Word>, a: seq<Word>, b: seq<Word>)
    requires seeds != [] && a != [] && b != []
    ensures Similarity(SignatureOf(seeds, a), SignatureOf(seeds, b))
         == Some(|SharedPositions(seeds, a, b)| as real / |seeds| as real)
  {
    var p, q := SignatureOf(seeds, a), SignatureOf(seeds, b);
    MatchesCountsAgreeing(p, q);
    forall i: nat | i < |seeds|
      ensures i in Agreeing(p, q) <==> i in SharedPositions(seeds, a, b)
    {
      var m := MinHashTheorem(seeds, a, b, i);
    }
    assert Agreeing(p, q) == SharedPositions(seeds, a, b);
  }

  // ---------------------------------------------------------------- texts

  /** The seeds may be any words: nothing below depends on how they were drawn. */
  datatype MinHasher = MinHasher(seeds: seq<Word>, shingleWords: nat)

  /** The signature of a tokenised text; a text without tokens gets the all-ones signature. */
  function Signature(hasher: MinHasher, tokens: seq<Bytes>): seq<Word>
    requires hasher.shingleWords >= 1
  {
    var shingles := Shingles(tokens, hasher.shingleWords);
    if shingles == [] then seq(|hasher.seeds|, _ => MAX_WORD)
    else SignatureOf(hasher.seeds, shingles)
  }

  /** The first signature lies at or below the second at every position. */
  ghost predicate Below(q: seq<Word>, p: seq<Word>) {
    |q| == |p| && forall i :: 0 <= i < |p| ==> AtMost(q[i], p[i])
  }

  lemma SignatureLength(hasher: MinHasher, tokens: seq<Bytes>)
    requires hasher.shingleWords >= 1
    ensures |Signature(hasher, tokens)| == |hasher.seeds|
  {
    hide Shingles;
  }

  /** A padded prompt's signature lies at or below the original's at every position. */
  lemma PaddingLowersSignature(hasher: MinHasher, before: seq<Bytes>, tokens: seq<Bytes>,
                               after: seq<Bytes>)
    requires hasher.shingleWords >= 1 && (tokens == [] || hasher.shingleWords <= |tokens|)
    ensures Below(Signature(hasher, before + tokens + after), Signature(hasher, tokens))
  {
    var padded := before + tokens + after;
    SignatureLength(hasher, tokens);
    SignatureLength(hasher, padded);
    if tokens == [] {
      forall i | 0 <= i < |hasher.seeds|
        ensures AtMost(Signature(hasher, padded)[i], MAX_WORD)
      {
        ValueBounded(Signature(hasher, padded)[i]);
      }
    } else {
      var inner := Shingles(tokens, hasher.shingleWords);
      var outer := Shingles(padded, hasher.shingleWords);
      PaddingKeepsShingles(before, tokens, after, hasher.shingleWords);
      assert Elements(inner + outer) == Elements(outer);
      WordsAreOrdered();
      SignatureDependsOnSet(hasher.seeds, inner + outer, outer);
      SignatureOfUnion(hasher.seeds, inner, outer);
    }
  }

  /** The seed for which the hash of a word is the least of all. */
  function SeedToZero(word: Word): Word { Xor(word, Unmix(0)) }

  lemma SeedToZeroWorks(word: Word, other: Word)
    requires word != other
    ensures Rank(SeedToZero(word))(word) == 0
    ensures !AtMost(Rank(SeedToZero(word))(other), Rank(SeedToZero(word))(word))
  {
    hide *;
    RankUnfolds(SeedToZero(word), word);
    XorBack(word);
    MixBijective(0);
    RankInjective(SeedToZero(word));
    DistinctRanks(SeedToZero(word), word, other);
    OnlyZeroAtMostZero(Rank(SeedToZero(word))(other));
  }

  lemma RankUnfolds(seed: Word, word: Word)
    ensures Rank(seed)(word) == Mix(Xor(word, seed))
  {
  }

  lemma XorBack(word: Word)
    ensures Xor(word, SeedToZero(word)) == Unmix(0)
  {
    hide Unmix;
  }

  lemma DistinctRanks(seed: Word, x: Word, y: Word)
    requires Injective(Rank(seed)) && x != y
    ensures Rank(seed)(x) != Rank(seed)(y)
  {
    hide Rank;
  }

  lemma OnlyZeroAtMostZero(x: Word)
    ensures AtMost(x, 0) ==> x == 0
  {
    ValueInverts(x);
    ValueInverts(0);
    ValueOfZero();
  }

  lemma ValueOfZero()
    ensures Value(0) == 0
  {
  }

  lemma NotBelowAlone(q: Word, p: Word)
    requires !AtMost(q, p)
    ensures !Below([q], [p])
  {
    hide AtMost;
    assert [q][0] == q && [p][0] == p;
  }

  lemma SignatureOfOneShingle(seed: Word, width: nat, tokens: seq<Bytes>)
    requires width >= 1 && |Shingles(tokens, width)| == 1
    ensures Signature(MinHasher([seed], width), tokens) == [Rank(seed)(Shingles(tokens, width)[0])]
  {
    hide Shingles;
    var item := Shingles(tokens, width)[0];
    assert Shingles(tokens, width) == [item];
    MinRankOfOne(Rank(seed), item);
  }

  lemma MinRankOfOne(rank: Word -> Word, item: Word)
    ensures MinRank(AtMost, MAX_WORD, rank, [item]) == rank(item)
  {
    ValueBounded(rank(item));
    WordsAreOrdered();
  }

  /** Whatever the seeds and the padding, the signature goes down, exactly under the same condition
      on the text. */
  lemma PaddingLowersSignatureExactly(tokens: seq<Bytes>, width: nat)
    requires width >= 1
    ensures (forall seeds, before, after ::
               Below(Signature(MinHasher(seeds, width), before + tokens + after),
                     Signature(MinHasher(seeds, width), tokens)))
       <==> tokens == [] || width <= |tokens|
  {
    if tokens == [] || width <= |tokens| {
      forall seeds, before, after
        ensures Below(Signature(MinHasher(seeds, width), before + tokens + after),
                      Signature(MinHasher(seeds, width), tokens))
      {
        PaddingLowersSignature(MinHasher(seeds, width), before, tokens, after);
      }
    } else {
      hide *;
      var lost := ShortTextLosesShingle(tokens, width);
      var x, y := Shingles(tokens, width)[0], Shingles([] + tokens + [lost], width)[0];
      var seed := SeedToZero(x);
      SignatureOfOneShingle(seed, width, tokens);
      SignatureOfOneShingle(seed, width, [] + tokens + [lost]);
      SeedToZeroWorks(x, y);
      NotBelowAlone(Rank(seed)(y), Rank(seed)(x));
      assert !Below(Signature(MinHasher([seed], width), [] + tokens + [lost]),
                    Signature(MinHasher([seed], width), tokens));
    }
  }
}
