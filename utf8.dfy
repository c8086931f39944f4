/**
 * The codepoint codec: UTF-8 byte lengths, encoding and decoding as laid down
 * in section 3 of RFC 3629, the well-formed byte spans of section 4 of that
 * RFC, and the split of a well-formed byte string into the byte spans of its
 * codepoints.
 */
module Utf8 {
  import opened Common

  /** A Unicode scalar value: a codepoint that is not a surrogate. */
  predicate IsScalar(c: int) {
    0 <= c <= 0x10FFFF && !(0xD800 <= c <= 0xDFFF)
  }

  /**
   * `parse_utf8_length` on a leading byte: the length of the sequence a byte
   * opens, or 0 for a continuation byte (10xxxxxx).
   */
  function LeadLength(b: byte): (n: nat)
    ensures n <= 4
    ensures n == 0 <==> 0x80 <= b < 0xC0
    ensures n == 1 <==> b < 0x80
  {
    if b < 0x80 then 1
    else if b < 0xC0 then 0
    else if b < 0xE0 then 2
    else if b < 0xF0 then 3
    else 4
  }

  /** `parse_utf8_length` on a scalar: how many bytes its encoding takes. */
  function EncodedLength(c: int): (n: nat)
    requires IsScalar(c)
    ensures 1 <= n <= 4
    ensures n == 1 <==> c < 0x80
  {
    if c < 0x80 then 1
    else if c < 0x800 then 2
    else if c < 0x10000 then 3
    else 4
  }

  /** The shape of a multi-byte sequence: a leading byte announcing the length, then continuation bytes. */
  predicate IsSpan(c: seq<byte>) {
    |c| >= 1 && LeadLength(c[0]) == |c| &&
    forall k :: 1 <= k < |c| ==> LeadLength(c[k]) == 0
  }

  /**
   * The byte span of one codepoint, as the syntax in section 4 of RFC 3629
   * admits it: the right shape, no overlong two-byte form (C0, C1), no
   * overlong three- or four-byte form (E0 below A0, F0 below 90), no
   * surrogate (ED from A0) and nothing past U+10FFFF (F4 from 90, F5 to FF).
   * `ChunkValue` and `EncodeDecode` show this is exactly the shortest
   * encoding of a Unicode scalar.
   */
  predicate IsChunk(c: seq<byte>) {
    IsSpan(c) &&
    (|c| == 2 ==> c[0] >= 0xC2) &&
    (|c| == 3 ==> (c[0] == 0xE0 ==> c[1] >= 0xA0) && (c[0] == 0xED ==> c[1] < 0xA0)) &&
    (|c| == 4 ==> c[0] <= 0xF4 && (c[0] == 0xF0 ==> c[1] >= 0x90) && (c[0] == 0xF4 ==> c[1] < 0x90))
  }

  /** Encoding of a scalar (RFC 3629, section 3). */
  function Encode(c: int): (r: seq<byte>)
    requires IsScalar(c)
    ensures |r| == EncodedLength(c)
    ensures IsSpan(r)
  {
    if c < 0x80 then
      [c as byte]
    else if c < 0x800 then
      [(0xC0 + c / 64) as byte, (0x80 + c % 64) as byte]
    else if c < 0x10000 then
      [(0xE0 + c / 4096) as byte, (0x80 + (c / 64) % 64) as byte, (0x80 + c % 64) as byte]
    else
      [(0xF0 + c / 262144) as byte, (0x80 + (c / 4096) % 64) as byte,
       (0x80 + (c / 64) % 64) as byte, (0x80 + c % 64) as byte]
  }

  /** The value a span stands for, read off its payload bits. */
  function Decode(c: seq<byte>): int
    requires IsSpan(c)
  {
    var b0 := c[0] as int;
    if |c| == 1 then b0
    else if |c| == 2 then (b0 - 0xC0) * 64 + (c[1] as int - 0x80)
    else if |c| == 3 then (b0 - 0xE0) * 4096 + (c[1] as int - 0x80) * 64 + (c[2] as int - 0x80)
    else (b0 - 0xF0) * 262144 + (c[1] as int - 0x80) * 4096 + (c[2] as int - 0x80) * 64 + (c[3] as int - 0x80)
  }

  lemma Split64(x: nat)
    ensures x == (x / 64) * 64 + x % 64 && x % 64 < 64
    ensures (x / 64) / 64 == x / 4096 && (x / 4096) / 64 == x / 262144
  {
  }

  /** Decoding undoes encoding, so the encoding of a scalar is one codepoint span. */
  lemma DecodeEncode(c: int)
    requires IsScalar(c)
    ensures Decode(Encode(c)) == c && IsChunk(Encode(c))
  {
    var e := Encode(c);
    Split64(c);
    Split64(c / 64);
    Split64(c / 4096);
    if c < 0x80 {
    } else if c < 0x800 {
      assert e[0] as int == 0xC0 + c / 64 && e[1] as int == 0x80 + c % 64;
    } else if c < 0x10000 {
      assert e[0] as int == 0xE0 + c / 4096 && e[1] as int == 0x80 + (c / 64) % 64 && e[2] as int == 0x80 + c % 64;
    } else {
      assert e[0] as int == 0xF0 + c / 262144 && e[1] as int == 0x80 + (c / 4096) % 64;
      assert e[2] as int == 0x80 + (c / 64) % 64 && e[3] as int == 0x80 + c % 64;
    }
  }

  /** A codepoint span stands for a Unicode scalar, and it is that scalar's shortest form. */
  lemma ChunkValue(c: seq<byte>)
    requires IsChunk(c)
    ensures IsScalar(Decode(c)) && EncodedLength(Decode(c)) == |c|
  {
    var x := Decode(c);
    var b0 := c[0] as int;
    if |c| == 2 {
      var d1 := c[1] as int - 0x80;
      assert 2 <= b0 - 0xC0 < 32 && 0 <= d1 < 64;
      assert x == (b0 - 0xC0) * 64 + d1;
      assert 128 <= (b0 - 0xC0) * 64 < 2048 - 63;
    } else if |c| == 3 {
      var d1, d2 := c[1] as int - 0x80, c[2] as int - 0x80;
      var h := b0 - 0xE0;
      assert 0 <= h < 16 && 0 <= d1 < 64 && 0 <= d2 < 64;
      assert x == (h * 64 + d1) * 64 + d2;
      assert 0 <= h * 64 + d1 < 1024;
      assert h == 0 ==> h * 64 + d1 >= 32;
      assert h == 13 ==> h * 64 + d1 < 864;
      assert h != 13 ==> h * 64 + d1 < 832 || h * 64 + d1 >= 896;
    } else if |c| == 4 {
      var d1, d2, d3 := c[1] as int - 0x80, c[2] as int - 0x80, c[3] as int - 0x80;
      var h := b0 - 0xF0;
      assert 0 <= h <= 4 && 0 <= d1 < 64 && 0 <= d2 < 64 && 0 <= d3 < 64;
      assert x == ((h * 64 + d1) * 64 + d2) * 64 + d3;
      assert 16 <= h * 64 + d1 < 272;
    }
  }

  /** Encoding undoes decoding: a codepoint span is the encoding of its value. */
  lemma EncodeDecode(c: seq<byte>)
    requires IsChunk(c)
    ensures Encode(Decode(c)) == c
  {
    ChunkValue(c);
    var x := Decode(c);
    var e := Encode(x);
    var b0 := c[0] as int;
    if |c| == 2 {
      var d1 := c[1] as int - 0x80;
      assert 0 <= d1 < 64 && x == (b0 - 0xC0) * 64 + d1;
      assert x / 64 == b0 - 0xC0 && x % 64 == d1;
    } else if |c| == 3 {
      var d1, d2 := c[1] as int - 0x80, c[2] as int - 0x80;
      assert 0 <= d1 < 64 && 0 <= d2 < 64 && x == ((b0 - 0xE0) * 64 + d1) * 64 + d2;
      assert x / 64 == (b0 - 0xE0) * 64 + d1 && x % 64 == d2;
      assert (x / 64) / 64 == b0 - 0xE0 && (x / 64) % 64 == d1;
      Split64(x);
    } else if |c| == 4 {
      var d1, d2, d3 := c[1] as int - 0x80, c[2] as int - 0x80, c[3] as int - 0x80;
      assert 0 <= d1 < 64 && 0 <= d2 < 64 && 0 <= d3 < 64;
      assert x == (((b0 - 0xF0) * 64 + d1) * 64 + d2) * 64 + d3;
      assert x / 64 == ((b0 - 0xF0) * 64 + d1) * 64 + d2 && x % 64 == d3;
      assert (x / 64) / 64 == (b0 - 0xF0) * 64 + d1 && (x / 64) % 64 == d2;
      assert ((x / 64) / 64) / 64 == b0 - 0xF0 && ((x / 64) / 64) % 64 == d1;
      Split64(x);
      Split64(x / 64);
    }
  }

  /** Two codepoint spans are the same bytes exactly when they stand for the same codepoint. */
  lemma SameSpanSameCodepoint(a: seq<byte>, b: seq<byte>)
    requires IsChunk(a) && IsChunk(b)
    ensures a == b <==> Decode(a) == Decode(b)
  {
    EncodeDecode(a);
    EncodeDecode(b);
  }

  /**
   * A span is among the spans of a list exactly when its codepoint is among
   * their codepoints, so comparing spans is comparing codepoints.
   */
  lemma SpanInIffCodepointIn(c: seq<byte>, chars: seq<seq<byte>>)
    requires IsChunk(c) && AllChunks(chars)
    ensures c in chars <==> exists k :: 0 <= k < |chars| && Decode(chars[k]) == Decode(c)
  {
    forall k | 0 <= k < |chars| ensures chars[k] == c <==> Decode(chars[k]) == Decode(c) {
      SameSpanSameCodepoint(chars[k], c);
    }
  }

  /** Byte strings that split, from the front, into codepoint spans. */
  predicate WellFormed(s: seq<byte>)
    decreases |s|
  {
    s == [] ||
    (var n := LeadLength(s[0]);
     1 <= n <= |s| && IsChunk(s[..n]) && WellFormed(s[n..]))
  }

  /** An overlong NUL (C0 80) and a sequence opened by FF are not well-formed. */
  lemma MalformedRejected()
    ensures !WellFormed([0xC0, 0x80]) && !WellFormed([0xFF, 0x80, 0x80, 0x80])
  {
    var o: seq<byte>, f: seq<byte> := [0xC0, 0x80], [0xFF, 0x80, 0x80, 0x80];
    assert o[..2] == o && f[..4] == f;
  }

  predicate AllChunks(cs: seq<seq<byte>>) {
    forall k :: 0 <= k < |cs| ==> IsChunk(cs[k])
  }

  /** The codepoint spans of a well-formed byte string, in order. */
  function Chunks(s: seq<byte>): (cs: seq<seq<byte>>)
    requires WellFormed(s)
    ensures Flatten(cs) == s
    ensures AllChunks(cs)
    decreases |s|
  {
    if s == [] then []
    else
      var n := LeadLength(s[0]);
      assert s == s[..n] + s[n..];
      [s[..n]] + Chunks(s[n..])
  }

  /** Concatenated codepoint spans are well-formed and split back into exactly those spans. */
  lemma {:induction false} ChunksOfFlatten(cs: seq<seq<byte>>)
    requires AllChunks(cs)
    ensures WellFormed(Flatten(cs)) && Chunks(Flatten(cs)) == cs
  {
    if cs != [] {
      var s := Flatten(cs);
      var n := |cs[0]|;
      ChunksOfFlatten(cs[1..]);
      assert s == cs[0] + Flatten(cs[1..]);
      assert s[..n] == cs[0];
      assert s[n..] == Flatten(cs[1..]);
      assert LeadLength(s[0]) == n;
      assert [s[..n]] + Chunks(s[n..]) == [cs[0]] + cs[1..];
    }
  }

  /** Every encoding is one span, and a list of scalars encodes to a well-formed string. */
  function EncodeAll(cps: seq<int>): (cs: seq<seq<byte>>)
    requires forall k :: 0 <= k < |cps| ==> IsScalar(cps[k])
    ensures |cs| == |cps| && AllChunks(cs)
    ensures forall k :: 0 <= k < |cps| ==> cs[k] == Encode(cps[k])
  {
    if cps == [] then [] else DecodeEncode(cps[0]); [Encode(cps[0])] + EncodeAll(cps[1..])
  }

  /** Encoding a concatenation encodes each part. */
  lemma {:induction false} EncodeAllConcat(a: seq<int>, b: seq<int>)
    requires forall k :: 0 <= k < |a| ==> IsScalar(a[k])
    requires forall k :: 0 <= k < |b| ==> IsScalar(b[k])
    ensures EncodeAll(a + b) == EncodeAll(a) + EncodeAll(b)
  {
    if a != [] {
      assert (a + b)[1..] == a[1..] + b;
      EncodeAllConcat(a[1..], b);
    }
  }

  /** Sum of the encoded lengths of a list of scalars: the size of its UTF-8 form. */
  function EncodedSize(cps: seq<int>): nat
    requires forall k :: 0 <= k < |cps| ==> IsScalar(cps[k])
  {
    if cps == [] then 0 else EncodedSize(cps[..|cps| - 1]) + EncodedLength(cps[|cps| - 1])
  }

  /** The size computed by the sizing pass is the length of the encoded string. */
  lemma {:induction false} EncodedSizeIsLength(cps: seq<int>)
    requires forall k :: 0 <= k < |cps| ==> IsScalar(cps[k])
    ensures |Flatten(EncodeAll(cps))| == EncodedSize(cps)
  {
    if cps != [] {
      var m := |cps| - 1;
      var front, last := EncodeAll(cps[..m]), Encode(cps[m]);
      EncodedSizeIsLength(cps[..m]);
      assert cps == cps[..m] + [cps[m]];
      EncodeAllConcat(cps[..m], [cps[m]]);
      assert EncodeAll([cps[m]]) == [last];
      assert EncodeAll(cps) == front + [last];
      FlattenConcat(front, [last]);
      assert Flatten([last]) == last + Flatten([]);
    }
  }
}
