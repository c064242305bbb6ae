/** Cutting UTF-8 text at a byte limit without splitting a character. The encoding is that of
    section 3 of RFC 3629. */
module Utf8 {

  type Byte = b: int | 0 <= b < 256

  /** A Unicode scalar value: a code point outside the surrogate range. */
  type Scalar = c: int | 0 <= c < 0xD800 || 0xE000 <= c < 0x11_0000

  function EncodeScalar(c: Scalar): (bytes: seq<Byte>)
    ensures 1 <= |bytes| <= 4
  {
    if c < 0x80 then [c]
    else if c < 0x800 then [0xC0 + c / 0x40, 0x80 + c % 0x40]
    else if c < 0x1_0000 then [0xE0 + c / 0x1000, 0x80 + c / 0x40 % 0x40, 0x80 + c % 0x40]
    else [0xF0 + c / 0x4_0000, 0x80 + c / 0x1000 % 0x40, 0x80 + c / 0x40 % 0x40, 0x80 + c % 0x40]
  }

  function Encode(text: seq<Scalar>): seq<Byte> {
    if text == [] then [] else Encode(text[..|text| - 1]) + EncodeScalar(text[|text| - 1])
  }

  /** A continuation byte, 10xxxxxx. */
  predicate IsContinuation(b: Byte) {
    0x80 <= b < 0xC0
  }

  /** The standard library's test: both ends are boundaries, inside every byte that is not a
      continuation byte starts a character. */
  predicate IsCharBoundary(s: seq<Byte>, i: nat) {
    i == 0 || i == |s| || (i < |s| && !IsContinuation(s[i]))
  }

  lemma EncodedShape(c: Scalar)
    ensures !IsContinuation(EncodeScalar(c)[0])
    ensures forall i :: 0 < i < |EncodeScalar(c)| ==> IsContinuation(EncodeScalar(c)[i])
  {
  }

  lemma {:induction false} EncodeConcat(a: seq<Scalar>, b: seq<Scalar>)
    ensures Encode(a + b) == Encode(a) + Encode(b)
  {
    if b == [] {
      assert a + b == a;
    } else {
      assert (a + b)[..|a + b| - 1] == a + b[..|b| - 1];
      EncodeConcat(a, b[..|b| - 1]);
    }
  }

  /** The payload bits of one character's bytes: six in each continuation byte, the rest in the lead
      byte, the most significant ones first. */
  function Value(b: seq<Byte>): int
    requires 1 <= |b| <= 4
  {
    var lead: int := b[0];
    if |b| == 1 then lead
    else if |b| == 2 then (lead - 0xC0) * 0x40 + Payload(b[1])
    else if |b| == 3 then ((lead - 0xE0) * 0x40 + Payload(b[1])) * 0x40 + Payload(b[2])
    else (((lead - 0xF0) * 0x40 + Payload(b[1])) * 0x40 + Payload(b[2])) * 0x40 + Payload(b[3])
  }

  function Payload(b: Byte): int {
    b as int - 0x80
  }

  /** The lead byte tells how many bytes a character takes, which is the least number that its code
      point fits into. */
  lemma LeadByteTellsLength(c: Scalar)
    ensures var b := EncodeScalar(c);
            && (|b| == 1 <==> b[0] < 0x80) && (|b| == 2 <==> 0xC0 <= b[0] < 0xE0)
            && (|b| == 3 <==> 0xE0 <= b[0] < 0xF0) && (|b| == 4 <==> 0xF0 <= b[0] < 0xF8)
            && (|b| == 1 <==> c < 0x80) && (|b| == 2 <==> 0x80 <= c < 0x800)
            && (|b| == 3 <==> 0x800 <= c < 0x1_0000) && (|b| == 4 <==> 0x1_0000 <= c)
  {
  }

  /** The bytes of a character hold exactly its code point. */
  lemma EncodedValue(c: Scalar)
    ensures Value(EncodeScalar(c)) == c
  {
    SixBits(c);
    SixBits(c / 0x40);
    SixBits(c / 0x40 / 0x40);
    assert c / 0x1000 == c / 0x40 / 0x40 && c / 0x4_0000 == c / 0x40 / 0x40 / 0x40;
  }

  lemma SixBits(n: nat)
    ensures n == n / 0x40 * 0x40 + n % 0x40
  {
  }

  lemma EncodeFirst(text: seq<Scalar>)
    requires text != []
    ensures Encode(text) == EncodeScalar(text[0]) + Encode(text[1..])
  {
    assert text == [text[0]] + text[1..];
    EncodeConcat([text[0]], text[1..]);
    assert [text[0]][..0] == [];
    assert Encode([text[0]]) == EncodeScalar(text[0]);
  }

  /** The encoding loses nothing: different texts have different bytes. */
  lemma {:induction false} EncodeIsInjective(a: seq<Scalar>, b: seq<Scalar>)
    requires Encode(a) == Encode(b)
    ensures a == b
    decreases |a|
  {
    if a == [] || b == [] {
      NothingEncodesNothing(a);
      NothingEncodesNothing(b);
    } else {
      EncodeFirst(a);
      EncodeFirst(b);
      hide Encode;
      SameFirstScalar(a[0], Encode(a[1..]), b[0], Encode(b[1..]));
      EncodeIsInjective(a[1..], b[1..]);
      assert a == [a[0]] + a[1..] && b == [b[0]] + b[1..];
    }
  }

  lemma NothingEncodesNothing(text: seq<Scalar>)
    ensures Encode(text) == [] <==> text == []
  {
  }

  lemma SameFirstScalar(c: Scalar, s: seq<Byte>, d: Scalar, t: seq<Byte>)
    requires EncodeScalar(c) + s == EncodeScalar(d) + t
    ensures c == d && s == t
  {
    LeadByteTellsLength(c);
    LeadByteTellsLength(d);
    EncodedValue(c);
    EncodedValue(d);
    hide EncodeScalar, Value;
    var x, y := EncodeScalar(c), EncodeScalar(d);
    assert (x + s)[0] == x[0] && (y + t)[0] == y[0];
    assert (x + s)[..|x|] == x && (y + t)[..|y|] == y;
    assert (x + s)[|x|..] == s && (y + t)[|y|..] == t;
  }

  /** The byte length of the first `k` characters. */
  function Offset(text: seq<Scalar>, k: nat): nat
    requires k <= |text|
  {
    |Encode(text[..k])|
  }

  lemma OffsetSteps(text: seq<Scalar>, k: nat)
    requires k < |text|
    ensures Offset(text, k + 1) == Offset(text, k) + |EncodeScalar(text[k])|
  {
    assert text[..k + 1][..k] == text[..k];
  }

  lemma {:induction false} OffsetsIncrease(text: seq<Scalar>, j: nat, k: nat)
    requires j <= k <= |text|
    ensures Offset(text, j) + (k - j) <= Offset(text, k) <= |Encode(text)|
    decreases |text| - j
  {
    if j < k {
      OffsetSteps(text, j);
      OffsetsIncrease(text, j + 1, k);
    } else if k < |text| {
      OffsetSteps(text, k);
      OffsetsIncrease(text, k + 1, |text|);
    } else {
      assert text[..k] == text;
    }
  }

  /** The bytes from a character's offset on are its encoding. */
  lemma BytesAtOffset(text: seq<Scalar>, k: nat)
    requires k < |text|
    ensures Offset(text, k) + |EncodeScalar(text[k])| <= |Encode(text)|
    ensures Encode(text)[Offset(text, k)..Offset(text, k) + |EncodeScalar(text[k])|] == EncodeScalar(text[k])
  {
    var a, b := text[..k + 1], text[k + 1..];
    assert text == a + b && a[..k] == text[..k];
    EncodeConcat(a, b);
  }

  /** The number of whole characters that fit into the first `limit` bytes. */
  function Fitting(text: seq<Scalar>, limit: nat): (k: nat)
    ensures k <= |text|
  {
    if |Encode(text)| <= limit || text == [] then |text| else Fitting(text[..|text| - 1], limit)
  }

  /** It is the greatest number of characters that fit. */
  lemma {:induction false} FittingIsGreatest(text: seq<Scalar>, limit: nat)
    ensures var k := Fitting(text, limit);
            Offset(text, k) <= limit && (k < |text| ==> Offset(text, k + 1) > limit)
  {
    assert text[..|text|] == text;
    if |Encode(text)| <= limit || text == [] {
    } else {
      var front := text[..|text| - 1];
      FittingIsGreatest(front, limit);
      var k := Fitting(front, limit);
      assert front[..k] == text[..k];
      if k < |front| {
        assert front[..k + 1] == text[..k + 1];
      } else {
        assert text[..k + 1] == text;
      }
    }
  }

  /** Character boundaries are exactly the offsets of characters: inside a character there is none. */
  lemma BoundariesAreOffsets(text: seq<Scalar>, k: nat, i: nat)
    requires k < |text| && Offset(text, k) <= i < Offset(text, k + 1)
    ensures i < |Encode(text)| && (IsCharBoundary(Encode(text), i) <==> i == Offset(text, k))
  {
    OffsetSteps(text, k);
    BytesAtOffset(text, k);
    EncodedShape(text[k]);
    hide Encode, EncodeScalar, Offset;
    BoundaryInside(Encode(text), EncodeScalar(text[k]), Offset(text, k), i);
  }

  /** Inside a byte string that continues from `o` on, the only boundary is `o`. */
  lemma BoundaryInside(s: seq<Byte>, bytes: seq<Byte>, o: nat, i: nat)
    requires o <= i < o + |bytes| <= |s| && s[o..o + |bytes|] == bytes
    requires !IsContinuation(bytes[0]) && forall j :: 0 < j < |bytes| ==> IsContinuation(bytes[j])
    ensures IsCharBoundary(s, i) <==> i == o
  {
    assert s[i] == bytes[i - o];
  }

  /** The last boundary at or before `limit` ends the longest prefix of whole characters. */
  lemma LastBoundary(text: seq<Scalar>, limit: nat, pos: nat)
    requires pos <= limit < |Encode(text)|
    requires IsCharBoundary(Encode(text), pos)
    requires forall i :: pos < i <= limit ==> !IsCharBoundary(Encode(text), i)
    ensures pos == Offset(text, Fitting(text, limit)) && limit - pos <= 3
  {
    var k := Fitting(text, limit);
    FittingIsGreatest(text, limit);
    assert text[..|text|] == text;
    var o := Offset(text, k);
    OffsetSteps(text, k);
    BoundariesAreOffsets(text, k, o);
    assert pos >= o;
    BoundariesAreOffsets(text, k, pos);
  }

  /** The largest boundary at or before `max`. */
  method CharBoundaryAt(ghost text: seq<Scalar>, s: seq<Byte>, max: nat) returns (pos: nat)
    requires s == Encode(text)
    ensures pos == Offset(text, Fitting(text, max))
    ensures pos <= max && (pos < |s| ==> max - pos <= 3)
  {
    FittingIsGreatest(text, max);
    assert text[..|text|] == text;
    if max >= |s| {
      return |s|;
    }
    pos := max;
    while pos > 0 && !IsCharBoundary(s, pos)
      invariant pos <= max
      invariant forall i :: pos < i <= max ==> !IsCharBoundary(s, i)
    {
      pos := pos - 1;
    }
    LastBoundary(text, max, pos);
  }

  method FloorCharBoundary(ghost text: seq<Scalar>, s: seq<Byte>, index: nat) returns (i: nat)
    requires s == Encode(text)
    ensures i == Offset(text, Fitting(text, index))
  {
    FittingIsGreatest(text, index);
    assert text[..|text|] == text;
    if index >= |s| {
      return |s|;
    }
    i := index;
    while i > 0 && !IsCharBoundary(s, i)
      invariant i <= index
      invariant forall j :: i < j <= index ==> !IsCharBoundary(s, j)
    {
      i := i - 1;
    }
    LastBoundary(text, index, i);
  }

  /** The truncated bytes are the encoding of the longest prefix that fits. */
  method TruncateSafe(ghost text: seq<Scalar>, s: seq<Byte>, maxBytes: nat) returns (r: seq<Byte>)
    requires s == Encode(text)
    ensures r == Encode(text[..Fitting(text, maxBytes)]) && |r| <= maxBytes && r <= s
  {
    FittingIsGreatest(text, maxBytes);
    assert text[..|text|] == text;
    if |s| <= maxBytes {
      return s;
    }
    var end: nat := maxBytes;
    while end > 0 && !IsCharBoundary(s, end)
      invariant end <= maxBytes
      invariant forall i: nat :: end < i <= maxBytes ==> !IsCharBoundary(s, i)
    {
      end := end - 1;
    }
    LastBoundary(text, maxBytes, end);
    PrefixBytes(text, Fitting(text, maxBytes));
    r := s[..end];
  }

  lemma PrefixBytes(text: seq<Scalar>, k: nat)
    requires k <= |text|
    ensures Offset(text, k) <= |Encode(text)| && Encode(text)[..Offset(text, k)] == Encode(text[..k])
    ensures Encode(text)[Offset(text, k)..] == Encode(text[k..])
  {
    assert text == text[..k] + text[k..];
    EncodeConcat(text[..k], text[k..]);
  }

  const TAIL_BYTES: nat := 8000

  /** How many leading characters must go before the rest fits into `limit` bytes. */
  ghost predicate IsShortestDrop(text: seq<Scalar>, limit: nat, k: nat) {
    && k <= |text| && |Encode(text[k..])| <= limit
    && forall j: nat :: j < k ==> |Encode(text[j..])| > limit
  }

  /** The tail checked for exhaustion messages: the longest suffix of whole characters within
      8000 bytes. */
  method QuotaTail(ghost text: seq<Scalar>, s: seq<Byte>) returns (tail: seq<Byte>)
    requires s == Encode(text)
    ensures exists k: nat :: IsShortestDrop(text, TAIL_BYTES, k) && tail == Encode(text[k..])
  {
    var len := |s|;
    var checkStart: nat := 0;
    ghost var k: nat := 0;
    assert text[0..] == text;
    if len > 8000 {
      var start: nat := len - 8000;
      while start < len && !IsCharBoundary(s, start)
        invariant len - 8000 <= start <= len
        invariant forall i: nat :: len - 8000 <= i < start ==> !IsCharBoundary(s, i)
      {
        start := start + 1;
      }
      var from: nat := len - 8000;
      k := FirstBoundary(text, from, start);
      checkStart := start;
    }
    PrefixBytes(text, k);
    assert k == 0 ==> text[..k] == [];
    tail := s[checkStart..];
  }

  lemma FirstBoundary(text: seq<Scalar>, from: nat, start: nat) returns (k: nat)
    requires 0 < from <= start <= |Encode(text)| && |Encode(text)| - from == TAIL_BYTES
    requires IsCharBoundary(Encode(text), start)
    requires forall i: nat :: from <= i < start ==> !IsCharBoundary(Encode(text), i)
    ensures IsShortestDrop(text, TAIL_BYTES, k) && Offset(text, k) == start
  {
    // The number of characters that start before `from`.
    var n := Fitting(text, from - 1);
    FittingIsGreatest(text, from - 1);
    assert text[..|text|] == text;
    assert n < |text|;
    k := n + 1;
    OffsetSteps(text, n);
    var o := Offset(text, k);
    assert o <= from + 3 && k < |text|;
    OffsetSteps(text, k);
    BoundariesAreOffsets(text, k, o);
    assert IsCharBoundary(Encode(text), o);
    assert start <= o;
    if start < o {
      BoundariesAreOffsets(text, n, start);
    }
    PrefixBytes(text, k);
    forall j: nat | j < k
      ensures |Encode(text[j..])| > TAIL_BYTES
    {
      PrefixBytes(text, j);
      OffsetsIncrease(text, j, n);
    }
  }

  /** A byte position is a boundary if and only if whole characters fill the bytes before it. */
  lemma BoundaryIffOffset(text: seq<Scalar>, i: nat)
    requires i <= |Encode(text)|
    ensures IsCharBoundary(Encode(text), i) <==> exists k: nat :: k <= |text| && Offset(text, k) == i
  {
    hide Encode, IsCharBoundary;
    assert text[..|text|] == text;
    if i == |Encode(text)| {
      EndIsBoundary(Encode(text));
      assert Offset(text, |text|) == i;
    } else {
      var n := Fitting(text, i);
      FittingIsGreatest(text, i);
      BoundariesAreOffsets(text, n, i);
      forall k: nat | k <= |text| && Offset(text, k) == i
        ensures k == n
      {
        OffsetsIncrease(text, if k < n then k else n, if k < n then n else k);
        if n < k {
          OffsetsIncrease(text, n + 1, k);
        }
      }
    }
  }

  lemma EndIsBoundary(s: seq<Byte>)
    ensures IsCharBoundary(s, |s|)
  {
  }

  const SAMPLE_BYTES: nat := 500

  /** The anomaly sample is cut at byte 500 without looking for a boundary. On text longer than
      that the cut succeeds if and only if some number of whole characters takes 500 bytes. */
  lemma SampleCutSucceedsIff(text: seq<Scalar>)
    requires |Encode(text)| > SAMPLE_BYTES
    ensures IsCharBoundary(Encode(text), SAMPLE_BYTES)
       <==> exists k: nat :: k <= |text| && Offset(text, k) == SAMPLE_BYTES
  {
    BoundaryIffOffset(text, SAMPLE_BYTES);
  }

  /** An 'a' followed by `n` times U+00E9, which takes two bytes. */
  function Accented(n: nat): seq<Scalar> {
    if n == 0 then [0x61] else Accented(n - 1) + [0xE9]
  }

  lemma {:induction false} AccentedOffsets(n: nat, k: nat)
    requires k <= n + 1
    ensures |Accented(n)| == n + 1 && Offset(Accented(n), k) == if k == 0 then 0 else 2 * k - 1
  {
    var text := Accented(n);
    if n == 0 {
      assert k == 1 ==> text[..k] == [0x61] && [0x61][..0] == [] && Encode([0x61]) == [0x61];
    } else {
      var front := Accented(n - 1);
      AccentedOffsets(n - 1, if k <= n then k else n);
      if k <= n {
        assert text[..k] == front[..k];
      } else {
        assert text[..k] == text && front[..n] == front;
        assert text[..n] == front;
      }
    }
  }

  /** The cut does fail: 501 bytes of text with the second byte of a character at 500. */
  lemma SampleCutCanFail()
    ensures |Encode(Accented(250))| == SAMPLE_BYTES + 1 && !IsCharBoundary(Encode(Accented(250)), SAMPLE_BYTES)
  {
    var text := Accented(250);
    hide Accented, Encode, IsCharBoundary;
    AccentedOffsets(250, 251);
    assert text[..251] == text;
    SampleCutSucceedsIff(text);
    forall k: nat | k <= |text|
      ensures Offset(text, k) != SAMPLE_BYTES
    {
      AccentedOffsets(250, k);
    }
  }
}
