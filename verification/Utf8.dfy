/** UTF-8 as the log reader sees it: strict validation, as `read_to_string` applies to a whole
    file, and lossy decoding, which replaces each maximal invalid run by U+FFFD. */
module Utf8 {
  type Byte = x: int | 0 <= x < 256
  type Bytes = seq<Byte>

  const NEWLINE: Byte := 0x0A

  /** U+FFFD encoded. */
  const REPLACEMENT: Bytes := [0xEF, 0xBF, 0xBD]

  predicate IsContinuation(b: Byte) { 0x80 <= b <= 0xBF }

  /** The length announced by a lead byte, 0 for a byte that cannot start a character. */
  function Width(lead: Byte): nat {
    if lead < 0x80 then 1
    else if 0xC2 <= lead <= 0xDF then 2
    else if 0xE0 <= lead <= 0xEF then 3
    else if 0xF0 <= lead <= 0xF4 then 4
    else 0
  }

  /** The second byte excludes overlong forms, surrogates and values past U+10FFFF. */
  predicate IsSecond(lead: Byte, b: Byte) {
    if lead == 0xE0 then 0xA0 <= b <= 0xBF
    else if lead == 0xED then 0x80 <= b <= 0x9F
    else if lead == 0xF0 then 0x90 <= b <= 0xBF
    else if lead == 0xF4 then 0x80 <= b <= 0x8F
    else IsContinuation(b)
  }

  /** How many bytes decoding consumes at the front: a whole character, or the maximal part of
      one that is well formed so far. */
  function StepLength(b: Bytes): (n: nat)
    requires b != []
    ensures 1 <= n <= |b| && n <= 4
  {
    var w := Width(b[0]);
    if w <= 1 || |b| < 2 || !IsSecond(b[0], b[1]) then 1
    else if w == 2 || |b| < 3 || !IsContinuation(b[2]) then 2
    else if w == 3 || |b| < 4 || !IsContinuation(b[3]) then 3
    else 4
  }

  predicate StepIsWhole(b: Bytes)
    requires b != []
  {
    StepLength(b) == Width(b[0])
  }

  predicate Valid(b: Bytes)
    decreases |b|
  {
    b == [] || (StepIsWhole(b) && Valid(b[StepLength(b)..]))
  }

  /** The decoded form of what the first step consumes. */
  function StepText(b: Bytes): Bytes
    requires b != []
  {
    if StepIsWhole(b) then b[..StepLength(b)] else REPLACEMENT
  }

  function Lossy(b: Bytes): Bytes
    decreases |b|
  {
    if b == [] then [] else StepText(b) + Lossy(b[StepLength(b)..])
  }

  predicate IsAscii(b: Bytes) { forall i :: 0 <= i < |b| ==> b[i] < 0x80 }

  /** Lossy decoding changes nothing in valid text. */
  lemma {:induction false} ValidIsLossless(b: Bytes)
    requires Valid(b)
    ensures Lossy(b) == b
    decreases |b|
  {
    if b != [] {
      ValidIsLossless(b[StepLength(b)..]);
    }
  }

  lemma Associative(a: Bytes, b: Bytes, c: Bytes)
    ensures a + (b + c) == (a + b) + c
  {
  }

  /** Empty, or ending in a newline. */
  predicate Complete(a: Bytes) { a == [] || a[|a| - 1] == NEWLINE }

  /** A newline ends whatever character was being decoded. */
  lemma StepInComplete(a: Bytes, c: Bytes)
    requires a != [] && Complete(a)
    ensures StepLength(a + c) == StepLength(a)
    ensures Complete(a[StepLength(a)..])
    ensures (a + c)[0] == a[0]
    ensures (a + c)[..StepLength(a)] == a[..StepLength(a)]
    ensures (a + c)[StepLength(a)..] == a[StepLength(a)..] + c
  {
    assert forall i :: 0 <= i < |a| ==> (a + c)[i] == a[i];
  }

  /** Decoding and validity both work line by line. */
  lemma {:induction false} LossySplits(a: Bytes, c: Bytes)
    requires Complete(a)
    ensures Lossy(a + c) == Lossy(a) + Lossy(c)
    decreases |a|
  {
    if a == [] {
      assert a + c == c;
    } else {
      LossyFirstStep(a, c);
      StepInComplete(a, c);
      hide *;
      var rest := a[StepLength(a)..];
      LossySplits(rest, c);
      Associative(StepText(a), Lossy(rest), Lossy(c));
    }
  }

  /** Decoding goes step by step, as long as the first step does not reach into `c`. */
  lemma LossyFirstStep(a: Bytes, c: Bytes)
    requires a != []
    ensures Lossy(a) == StepText(a) + Lossy(a[StepLength(a)..])
    ensures StepLength(a + c) == StepLength(a) ==>
              Lossy(a + c) == StepText(a) + Lossy(a[StepLength(a)..] + c)
  {
    if StepLength(a + c) == StepLength(a) {
      assert (a + c)[0] == a[0];
      assert (a + c)[..StepLength(a)] == a[..StepLength(a)];
      assert (a + c)[StepLength(a)..] == a[StepLength(a)..] + c;
    }
  }

  lemma StepBeforeAscii(x: Bytes, c: Bytes)
    requires x != [] && c != [] && c[0] < 0x80
    ensures StepLength(x + c) == StepLength(x)
  {
    assert forall i :: 0 <= i < |x| ==> (x + c)[i] == x[i];
    assert (x + c)[|x|] == c[0];
  }

  /** An ASCII byte ends whatever was being decoded: what precedes it decodes on its own. */
  lemma {:induction false} AsciiEndsText(x: Bytes, c: Bytes)
    requires c != [] && c[0] < 0x80
    ensures Lossy(x + c) == Lossy(x) + Lossy(c)
    decreases |x|
  {
    EmptyText();
    if x == [] {
      assert x + c == c;
    } else {
      hide *;
      StepBeforeAscii(x, c);
      LossyFirstStep(x, c);
      var rest := x[StepLength(x)..];
      AsciiEndsText(rest, c);
      Associative(StepText(x), Lossy(rest), Lossy(c));
    }
  }

  lemma {:induction false} ValidSplits(a: Bytes, c: Bytes)
    requires Complete(a)
    ensures Valid(a + c) <==> Valid(a) && Valid(c)
    decreases |a|
  {
    if a == [] {
      assert a + c == c;
    } else {
      StepInComplete(a, c);
      ValidSplits(a[StepLength(a)..], c);
    }
  }

  lemma StepBeforeNewline(x: Bytes)
    requires x != []
    ensures StepLength(x + [NEWLINE]) == StepLength(x)
    ensures (x + [NEWLINE])[..StepLength(x)] == x[..StepLength(x)]
    ensures (x + [NEWLINE])[StepLength(x)..] == x[StepLength(x)..] + [NEWLINE]
  {
    assert forall i :: 0 <= i < |x| ==> (x + [NEWLINE])[i] == x[i];
  }

  /** A newline appended to any text, torn or not, decodes as itself. */
  lemma {:induction false} NewlineEndsText(x: Bytes)
    ensures Lossy(x + [NEWLINE]) == Lossy(x) + [NEWLINE]
    ensures Valid(x + [NEWLINE]) <==> Valid(x)
    decreases |x|
  {
    if x == [] {
      assert Lossy([NEWLINE]) == [NEWLINE];
    } else {
      StepBeforeNewline(x);
      var rest := x[StepLength(x)..];
      NewlineEndsText(rest);
      Associative(StepText(x), Lossy(rest), [NEWLINE]);
    }
  }

  lemma AsciiStep(b: Bytes)
    requires b != [] && b[0] < 0x80
    ensures Lossy(b) == [b[0]] + Lossy(b[1..])
  {
    assert StepLength(b) == 1 && StepIsWhole(b);
    assert b[..1] == [b[0]];
  }

  lemma {:induction false} AsciiPrefix(a: Bytes, y: Bytes)
    requires IsAscii(a)
    ensures Lossy(a + y) == a + Lossy(y)
    decreases |a|
  {
    hide *;
    if a == [] {
      assert a + y == y && [] + Lossy(y) == Lossy(y);
    } else {
      var rest := a[1..];
      AsciiTail(a);
      AsciiPrefix(rest, y);
      assert (a + y)[0] == a[0] && (a + y)[1..] == rest + y;
      AsciiStep(a + y);
      Associative([a[0]], rest, Lossy(y));
      assert a == [a[0]] + rest;
    }
  }

  lemma AsciiTail(a: Bytes)
    requires IsAscii(a) && a != []
    ensures a[0] < 0x80 && IsAscii(a[1..])
  {
  }

  /** The first byte of a decoded text is that of the text, or starts U+FFFD. */
  lemma LossyStarts(y: Bytes)
    requires y != []
    ensures Lossy(y) != [] && (Lossy(y)[0] == y[0] || (Lossy(y)[0] == 0xEF && y[0] >= 0x80))
  {
  }

  /** Lossy decoding brings in no ASCII byte that was not there. */
  lemma {:induction false} LossyAddsNoAscii(b: Bytes, x: Byte)
    requires x < 0x80 && x !in b
    ensures x !in Lossy(b)
    decreases |b|
  {
    if b != [] {
      LossyAddsNoAscii(b[StepLength(b)..], x);
    }
  }

  lemma LossyKeepsNewlines(b: Bytes)
    requires NEWLINE !in b
    ensures NEWLINE !in Lossy(b)
  {
    LossyAddsNoAscii(b, NEWLINE);
  }

  lemma StepOfExtension(a: Bytes, c: Bytes)
    requires a != [] && StepIsWhole(a)
    ensures StepLength(a + c) == StepLength(a) && StepIsWhole(a + c)
    ensures (a + c)[StepLength(a)..] == a[StepLength(a)..] + c
  {
    assert forall i :: 0 <= i < |a| ==> (a + c)[i] == a[i];
  }

  lemma {:induction false} ValidAppend(a: Bytes, c: Bytes)
    requires Valid(a)
    ensures Valid(a + c) <==> Valid(c)
    decreases |a|
  {
    if a == [] {
      assert a + c == c;
    } else {
      StepOfExtension(a, c);
      ValidAppend(a[StepLength(a)..], c);
    }
  }

  lemma {:induction false} AsciiIsValid(b: Bytes)
    requires IsAscii(b)
    ensures Valid(b)
    decreases |b|
  {
    if b != [] {
      AsciiIsValid(b[1..]);
    }
  }

  lemma CutInFirst(whole: Bytes, n: nat)
    requires whole != [] && StepIsWhole(whole) && 0 < n < StepLength(whole)
    ensures !Valid(whole[..n]) && Lossy(whole[..n]) == REPLACEMENT
  {
    var cut := whole[..n];
    assert forall i :: 0 <= i < n ==> cut[i] == whole[i];
    assert StepLength(cut) == n && !StepIsWhole(cut);
    assert cut[n..] == [];
    assert Lossy(cut) == REPLACEMENT + Lossy([]);
  }

  /** A cut after the first character is a cut of what follows it. */
  lemma CutAfterFirst(whole: Bytes, n: nat)
    requires whole != [] && StepIsWhole(whole) && StepLength(whole) <= n <= |whole|
    ensures var k := StepLength(whole);
            && (Valid(whole[..n]) <==> Valid(whole[k..][..n - k]))
            && Lossy(whole[..n]) == whole[..k] + Lossy(whole[k..][..n - k])
  {
    var k, cut := StepLength(whole), whole[..n];
    assert forall i :: 0 <= i < n ==> cut[i] == whole[i];
    assert StepLength(cut) == k && StepIsWhole(cut);
    assert cut[k..] == whole[k..][..n - k];
    assert cut[..k] == whole[..k];
  }

  /** A prefix of valid text is valid, or was cut inside a character: then it decodes to the whole
      characters before that, followed by U+FFFD. */
  lemma {:induction false} CutText(whole: Bytes, n: nat) returns (m: nat)
    requires Valid(whole) && n <= |whole|
    ensures m <= n && Valid(whole[..m])
    ensures Lossy(whole[..n]) == whole[..m] + (if Valid(whole[..n]) then [] else REPLACEMENT)
    ensures Valid(whole[..n]) <==> m == n
    decreases |whole|
  {
    hide *;
    EmptyText();
    if n == 0 {
      m := 0;
      assert whole[..0] == [];
    } else {
      FirstStep(whole);
      var k := StepLength(whole);
      if n < k {
        m := 0;
        CutInFirst(whole, n);
        assert whole[..0] == [] && [] + REPLACEMENT == REPLACEMENT;
      } else {
        var rest := CutText(whole[k..], n - k);
        m := k + rest;
        CutAfterFirst(whole, n);
        CutAfterFirst(whole, m);
        assert whole[..m] == whole[..k] + whole[k..][..rest];
        Associative(whole[..k], whole[k..][..rest], if Valid(whole[..n]) then [] else REPLACEMENT);
      }
    }
  }

  lemma EmptyText()
    ensures Valid([]) && Lossy([]) == []
  {
  }

  lemma FirstStep(whole: Bytes)
    requires Valid(whole) && whole != []
    ensures StepIsWhole(whole) && Valid(whole[StepLength(whole)..])
  {
  }

  lemma {:induction false} CharacterBoundary(whole: Bytes, n: nat)
    requires Valid(whole) && n < |whole|
    requires whole[n] >= 0x80 && forall i :: 0 <= i < n ==> whole[i] < 0x80
    ensures !Valid(whole[..n + 1])
    decreases n
  {
    var cut := whole[..n + 1];
    if n == 0 {
      assert StepLength(cut) == 1;
    } else {
      assert cut[1..] == whole[1..][..n];
      CharacterBoundary(whole[1..], n - 1);
    }
  }

  lemma {:induction false} FirstHigh(b: Bytes) returns (n: nat)
    requires !IsAscii(b)
    ensures n < |b| && b[n] >= 0x80 && forall i :: 0 <= i < n ==> b[i] < 0x80
    decreases |b|
  {
    if b[0] >= 0x80 {
      n := 0;
    } else {
      n := FirstHigh(b[1..]);
      n := n + 1;
    }
  }

  /** A text survives being cut anywhere exactly when it is pure ASCII. */
  lemma CutsSafeExactlyForAscii(whole: Bytes)
    requires Valid(whole)
    ensures (forall n :: 0 <= n <= |whole| ==> Valid(whole[..n])) <==> IsAscii(whole)
  {
    if IsAscii(whole) {
      forall n | 0 <= n <= |whole|
        ensures Valid(whole[..n])
      {
        AsciiIsValid(whole[..n]);
      }
    } else {
      var n := FirstHigh(whole);
      CharacterBoundary(whole, n);
    }
  }
}
