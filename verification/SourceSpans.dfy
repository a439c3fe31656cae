/** Spans of source text by UTF-8 byte offsets (section 3 of RFC 3629): what they may start and end at. */
module SourceSpans {
  import opened Numbers

  /** A Unicode scalar value: no surrogate has a UTF-8 form. */
  type Scalar = c: int | 0 <= c <= 0x10FFFF && !(0xD800 <= c <= 0xDFFF) witness 0

  type Text = seq<Scalar>

  // ---------------------------------------------------------------- the encoding

  /** Six bits of `c`, after a leading 10. */
  function Continuation(c: nat): (b: Byte)
    ensures b / 64 == 2
  {
    (0x80 + c % 64) as Byte
  }

  function EncodeChar(c: Scalar): (bytes: seq<Byte>)
    ensures 1 <= |bytes| <= 4
    ensures bytes[0] / 64 != 2
    ensures forall i | 1 <= i < |bytes| :: bytes[i] / 64 == 2
  {
    if c <= 0x7F then [c as Byte]
    else if c <= 0x7FF then [(0xC0 + c / 64) as Byte, Continuation(c)]
    else if c <= 0xFFFF then [(0xE0 + c / 4096) as Byte, Continuation(c / 64), Continuation(c)]
    else [(0xF0 + c / 262144) as Byte, Continuation(c / 4096), Continuation(c / 64), Continuation(c)]
  }

  /** The character that so many bytes of this form stand for. */
  function DecodeChar(bytes: seq<Byte>): int
    requires 1 <= |bytes| <= 4
  {
    if |bytes| == 1 then bytes[0] as int
    else if |bytes| == 2 then (bytes[0] as int - 0xC0) * 64 + Six(bytes[1])
    else if |bytes| == 3 then (bytes[0] as int - 0xE0) * 4096 + Six(bytes[1]) * 64 + Six(bytes[2])
    else (bytes[0] as int - 0xF0) * 262144 + Six(bytes[1]) * 4096 + Six(bytes[2]) * 64 + Six(bytes[3])
  }

  function Six(b: Byte): int {
    b as int - 0x80
  }

  lemma DecodeEncodeChar(c: Scalar)
    ensures DecodeChar(EncodeChar(c)) == c
  {
    assert c == c / 64 * 64 + c % 64;
    assert c / 64 == c / 4096 * 64 + c / 64 % 64;
    assert c / 4096 == c / 262144 * 64 + c / 4096 % 64;
  }

  predicate Tail(b: Byte) {
    0x80 <= b <= 0xBF
  }

  /** The byte sequences of one character, range by range (section 4 of RFC 3629). */
  ghost predicate WellFormed(bytes: seq<Byte>) {
    || (|bytes| == 1 && bytes[0] <= 0x7F)
    || (|bytes| == 2 && 0xC2 <= bytes[0] <= 0xDF && Tail(bytes[1]))
    || (|bytes| == 3 && bytes[0] == 0xE0 && 0xA0 <= bytes[1] <= 0xBF && Tail(bytes[2]))
    || (|bytes| == 3 && 0xE1 <= bytes[0] <= 0xEC && Tail(bytes[1]) && Tail(bytes[2]))
    || (|bytes| == 3 && bytes[0] == 0xED && 0x80 <= bytes[1] <= 0x9F && Tail(bytes[2]))
    || (|bytes| == 3 && 0xEE <= bytes[0] <= 0xEF && Tail(bytes[1]) && Tail(bytes[2]))
    || (|bytes| == 4 && bytes[0] == 0xF0 && 0x90 <= bytes[1] <= 0xBF && Tail(bytes[2]) && Tail(bytes[3]))
    || (|bytes| == 4 && 0xF1 <= bytes[0] <= 0xF3 && Tail(bytes[1]) && Tail(bytes[2]) && Tail(bytes[3]))
    || (|bytes| == 4 && bytes[0] == 0xF4 && 0x80 <= bytes[1] <= 0x8F && Tail(bytes[2]) && Tail(bytes[3]))
  }

  /** A character's bytes are well formed, and stand for it. */
  lemma EncodeCharWellFormed(c: Scalar)
    ensures WellFormed(EncodeChar(c)) && DecodeChar(EncodeChar(c)) == c
  {
    DecodeEncodeChar(c);
    if 0x7FF < c <= 0xFFFF {
      ThreeBytesWellFormed(c);
    } else if c > 0xFFFF {
      FourBytesWellFormed(c);
    }
  }

  lemma ThreeBytesWellFormed(c: Scalar)
    requires 0x7FF < c <= 0xFFFF
    ensures WellFormed(EncodeChar(c))
  {
    assert c < 0x1000 ==> 0x20 <= c / 64 % 64;
    assert 0xD000 <= c < 0xD800 ==> c / 64 % 64 < 0x20;
  }

  lemma FourBytesWellFormed(c: Scalar)
    requires c > 0xFFFF
    ensures WellFormed(EncodeChar(c))
  {
    assert c < 0x40000 ==> 0x10 <= c / 4096 % 64;
    assert 0x100000 <= c ==> c / 4096 % 64 < 0x10;
  }

  /** No other well-formed bytes stand for it: there are no overlong forms, and none for what is no character. */
  lemma OnlyEncoding(bytes: seq<Byte>)
    requires WellFormed(bytes)
    ensures var c := DecodeChar(bytes);
            0 <= c <= 0x10FFFF && !(0xD800 <= c <= 0xDFFF) && EncodeChar(c) == bytes
  {
    if |bytes| == 2 {
      Split(bytes[0] as int - 0xC0, Six(bytes[1]));
    } else if |bytes| == 3 {
      OnlyThreeBytes(bytes);
    } else if |bytes| == 4 {
      OnlyFourBytes(bytes);
    }
  }

  lemma OnlyThreeBytes(bytes: seq<Byte>)
    requires WellFormed(bytes) && |bytes| == 3
    ensures var c := DecodeChar(bytes); 0x800 <= c <= 0xFFFF && !(0xD800 <= c <= 0xDFFF) && EncodeChar(c) == bytes
  {
    var c, upper := DecodeChar(bytes), (bytes[0] as int - 0xE0) * 64 + Six(bytes[1]);
    Split(bytes[0] as int - 0xE0, Six(bytes[1]));
    Split(upper, Six(bytes[2]));
    assert c == upper * 64 + Six(bytes[2]) && c / 64 == upper && c / 4096 == upper / 64;
  }

  lemma OnlyFourBytes(bytes: seq<Byte>)
    requires WellFormed(bytes) && |bytes| == 4
    ensures var c := DecodeChar(bytes); 0x10000 <= c <= 0x10FFFF && EncodeChar(c) == bytes
  {
    var c, high := DecodeChar(bytes), (bytes[0] as int - 0xF0) * 64 + Six(bytes[1]);
    var upper := high * 64 + Six(bytes[2]);
    Split(bytes[0] as int - 0xF0, Six(bytes[1]));
    Split(high, Six(bytes[2]));
    Split(upper, Six(bytes[3]));
    assert c == upper * 64 + Six(bytes[3]) && c / 64 == upper;
    assert c / 4096 == upper / 64 == high && c / 262144 == high / 64;
  }

  lemma Split(high: nat, low: nat)
    requires low < 64
    ensures (high * 64 + low) / 64 == high && (high * 64 + low) % 64 == low
  {
  }

  function Encode(text: Text): seq<Byte> {
    if text == [] then [] else Encode(text[..|text| - 1]) + EncodeChar(text[|text| - 1])
  }

  /** With this, the encoding of a text is that of its characters in turn. */
  lemma EncodeOne(c: Scalar)
    ensures Encode([c]) == EncodeChar(c)
  {
    assert [c][..0] == [];
  }

  lemma {:induction false} EncodeAppended(text: Text, more: Text)
    ensures Encode(text + more) == Encode(text) + Encode(more)
  {
    hide EncodeChar;
    if more == [] {
      assert text + more == text;
    } else {
      var front := more[..|more| - 1];
      assert (text + more)[..|text + more| - 1] == text + front;
      EncodeAppended(text, front);
    }
  }

  /** The offset at which character `k` begins. */
  function Offset(text: Text, k: nat): nat
    requires k <= |text|
  {
    |Encode(text[..k])|
  }

  lemma OffsetStep(text: Text, k: nat)
    requires k < |text|
    ensures Encode(text[..k + 1]) == Encode(text[..k]) + EncodeChar(text[k])
    ensures Offset(text, k + 1) == Offset(text, k) + |EncodeChar(text[k])|
  {
    hide EncodeChar;
    assert text[..k + 1][..k] == text[..k];
  }

  lemma {:induction false} EncodeLength(text: Text)
    ensures |Encode(text)| >= |text|
  {
    hide EncodeChar;
    if text != [] { EncodeLength(text[..|text| - 1]); }
  }

  lemma OffsetsAscend(text: Text, i: nat, k: nat)
    requires i <= k <= |text|
    ensures Encode(text[..k]) == Encode(text[..i]) + Encode(text[i..k])
    ensures Offset(text, k) - Offset(text, i) >= k - i
  {
    hide Encode;
    assert text[..k] == text[..i] + text[i..k];
    EncodeAppended(text[..i], text[i..k]);
    EncodeLength(text[i..k]);
  }

  // ---------------------------------------------------------------- boundaries

  /** No byte that starts with 10 begins here: tested on the bytes alone. */
  predicate IsBoundary(bytes: seq<Byte>, offset: nat)
    requires offset <= |bytes|
  {
    offset == |bytes| || bytes[offset] / 64 != 2
  }

  ghost predicate BeginsCharacter(text: Text, offset: nat) {
    exists k | 0 <= k <= |text| :: Offset(text, k) == offset
  }

  /** The byte test agrees with the positions of characters, at every offset of every text. */
  lemma {:induction false} BoundaryIsCharacterStart(text: Text, offset: nat)
    requires offset <= |Encode(text)|
    ensures IsBoundary(Encode(text), offset) <==> BeginsCharacter(text, offset)
  {
    hide EncodeChar;
    var all := Encode(text);
    if text == [] {
      assert Offset(text, 0) == 0;
    } else {
      var front, last := text[..|text| - 1], EncodeChar(text[|text| - 1]);
      var start := |Encode(front)|;
      assert text[..|text|] == text;
      assert Offset(text, |text|) == |all|;
      assert Offset(text, |text| - 1) == start;
      if offset < start {
        BoundaryIsCharacterStart(front, offset);
        assert all[offset] == Encode(front)[offset];
        forall k | 0 <= k <= |front| ensures Offset(text, k) == Offset(front, k) {
          assert text[..k] == front[..k];
        }
        assert forall k | |front| < k <= |text| :: Offset(text, k) == |all|;
      } else if offset < |all| {
        assert all[offset] == last[offset - start];
        forall k | 0 <= k < |text| ensures Offset(text, k) <= start {
          OffsetsAscend(text, k, |text| - 1);
        }
      }
    }
  }

  /** Where the last character of a text begins: nothing begins after it. */
  lemma LastCharacter(text: Text)
    requires text != []
    ensures var start := |Encode(text[..|text| - 1])|;
            && start < |Encode(text)| && IsBoundary(Encode(text), start)
            && forall k | start < k < |Encode(text)| :: !IsBoundary(Encode(text), k)
  {
    hide EncodeChar;
    var start, last := |Encode(text[..|text| - 1])|, EncodeChar(text[|text| - 1]);
    assert forall k | start <= k < |Encode(text)| :: Encode(text)[k] == last[k - start];
  }

  /** Bytes determine the text they encode. */
  lemma {:induction false} EncodingDetermines(text: Text, other: Text)
    requires Encode(text) == Encode(other)
    ensures text == other
  {
    hide EncodeChar, IsBoundary;
    EncodeLength(text);
    EncodeLength(other);
    if text != [] && other != [] {
      LastCharacter(text);
      LastCharacter(other);
      var front, rest := text[..|text| - 1], other[..|other| - 1];
      var start := |Encode(front)|;
      assert |Encode(rest)| == start;
      assert Encode(front) == Encode(text)[..start] && Encode(rest) == Encode(other)[..start];
      EncodingDetermines(front, rest);
      assert EncodeChar(text[|text| - 1]) == Encode(text)[start..] == EncodeChar(other[|other| - 1]);
      DecodeEncodeChar(text[|text| - 1]);
      DecodeEncodeChar(other[|other| - 1]);
      assert text == front + [text[|text| - 1]] && other == rest + [other[|other| - 1]];
    }
  }

  ghost predicate BeginsAmong(text: Text, count: nat, offset: nat)
    requires count <= |text|
  {
    exists k | 0 <= k <= count :: Offset(text, k) == offset
  }

  lemma OneMoreOffset(text: Text, count: nat)
    requires count < |text|
    ensures Offset(text, count + 1) == Offset(text, count) + |EncodeChar(text[count])|
    ensures forall offset :: BeginsAmong(text, count + 1, offset) <==>
              BeginsAmong(text, count, offset) || offset == Offset(text, count + 1)
  {
    OffsetStep(text, count);
    hide Encode, EncodeChar, Offset;
    forall offset | BeginsAmong(text, count + 1, offset)
      ensures BeginsAmong(text, count, offset) || offset == Offset(text, count + 1)
    {
      var k :| 0 <= k <= count + 1 && Offset(text, k) == offset;
      if k <= count { assert BeginsAmong(text, count, offset); }
    }
  }

  /** The offsets at which a character begins or the text ends, by accumulation. */
  method Utf8Boundaries(text: Text) returns (offsets: set<nat>)
    ensures forall offset :: offset in offsets <==> BeginsCharacter(text, offset)
  {
    assert Offset(text, 0) == 0;
    assert forall offset :: BeginsAmong(text, 0, offset) <==> offset == 0;
    assert forall offset :: BeginsAmong(text, |text|, offset) <==> BeginsCharacter(text, offset);
    hide BeginsAmong, BeginsCharacter, Encode, EncodeChar, Offset;
    offsets := {0};
    var cursor := 0;
    for k := 0 to |text|
      invariant cursor == Offset(text, k)
      invariant forall offset :: offset in offsets <==> BeginsAmong(text, k, offset)
    {
      OneMoreOffset(text, k);
      cursor := cursor + |EncodeChar(text[k])|;
      offsets := offsets + {cursor};
    }
  }

  // ---------------------------------------------------------------- spans

  datatype Span = Span(version: int, start: nat, end: nat)

  datatype SpanCheck = Accepted | EmptySpan | OtherVersion | PastTheEnd | SplitsCharacter

  /** The bytes of a span are those of the characters from `i` up to `k`. */
  ghost predicate SpansCharacters(text: Text, span: Span, i: nat, k: nat) {
    && i < k <= |text|
    && Offset(text, i) == span.start && Offset(text, k) == span.end
    && span.start <= span.end <= |Encode(text)|
    && Encode(text)[span.start..span.end] == Encode(text[i..k])
  }

  lemma RunOfCharacters(text: Text, span: Span, i: nat, k: nat)
    requires i <= |text| && k <= |text| && span.start < span.end
    requires Offset(text, i) == span.start && Offset(text, k) == span.end
    ensures SpansCharacters(text, span, i, k)
  {
    hide Encode;
    if k <= i { OffsetsAscend(text, k, i); }
    OffsetsAscend(text, i, k);
    OffsetsAscend(text, k, |text|);
    assert text[..|text|] == text;
    assert Encode(text)[..span.end] == Encode(text[..k]);
  }

  /** A span covers one run of characters only. */
  lemma RunIsUnique(text: Text, span: Span, i: nat, k: nat, x: nat, y: nat)
    requires SpansCharacters(text, span, i, k) && SpansCharacters(text, span, x, y)
    ensures i == x && k == y
  {
    OffsetsAscend(text, if i < x then i else x, if i < x then x else i);
    OffsetsAscend(text, if k < y then k else y, if k < y then y else k);
  }

  /**
   Check a span against the evidence it quotes: accepted exactly when its bytes are the encoding of a run of
   whole characters of that version of the source.
   */
  method ValidateSpan(text: Text, version: int, span: Span) returns (check: SpanCheck)
    ensures check.Accepted? <==> span.version == version && exists i, k :: SpansCharacters(text, span, i, k)
    ensures check.EmptySpan? <==> span.end <= span.start
    ensures check.OtherVersion? <==> span.start < span.end && span.version != version
    ensures check.PastTheEnd? <==>
              span.start < span.end && span.version == version && span.end > |Encode(text)|
  {
    hide Encode, IsBoundary;
    var bytes := Encode(text);
    if span.end <= span.start {
      assert forall i, k :: !SpansCharacters(text, span, i, k) by { EmptySpansNothing(text, span); }
      return EmptySpan;
    }
    if span.version != version {
      return OtherVersion;
    }
    if span.end > |bytes| {
      return PastTheEnd;
    }
    BoundaryIsCharacterStart(text, span.start);
    BoundaryIsCharacterStart(text, span.end);
    if !IsBoundary(bytes, span.start) || !IsBoundary(bytes, span.end) {
      return SplitsCharacter;
    }
    ghost var i :| 0 <= i <= |text| && Offset(text, i) == span.start;
    ghost var k :| 0 <= k <= |text| && Offset(text, k) == span.end;
    RunOfCharacters(text, span, i, k);
    return Accepted;
  }

  lemma EmptySpansNothing(text: Text, span: Span)
    requires span.end <= span.start
    ensures forall i, k :: !SpansCharacters(text, span, i, k)
  {
    hide Encode;
    forall i: nat, k: nat | i < k <= |text| ensures Offset(text, i) < Offset(text, k) {
      OffsetsAscend(text, i, k);
    }
  }
}
