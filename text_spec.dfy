/**
 * Specification of the `text` layer: a text is the list of its codepoints'
 * byte spans (`Chunks` of its well-formed UTF-8 bytes), and each mutator is
 * stated on that list. This module also holds the byte-offset arithmetic that
 * maps a codepoint selection onto the underlying bytes.
 */
module TextSpec {
  import opened Common
  import opened Utf8
  import opened IndexInterval
  import opened View
  import opened SequenceSpec

  // ---------------------------------------------------------------------------
  // Codepoint positions and byte offsets

  /** `get_codepoint_index(k)`: the byte offset at which codepoint `k` starts (the size when k is the count). */
  function Offset(cs: seq<seq<byte>>, k: nat): (o: nat)
    requires k <= |cs|
    ensures o == |Flatten(cs[..k])|
  {
    if k == 0 then
      assert cs[..0] == [];
      0
    else
      FlattenSnoc(cs, k - 1);
      Offset(cs, k - 1) + |cs[k - 1]|
  }

  /** The bytes between the offsets of codepoints `a` and `b` are exactly those codepoints' spans. */
  lemma OffsetSlice(cs: seq<seq<byte>>, a: nat, b: nat)
    requires a <= b <= |cs|
    ensures Offset(cs, a) + |Flatten(cs[a..b])| == Offset(cs, b) <= |Flatten(cs)|
    ensures Flatten(cs)[Offset(cs, a)..Offset(cs, b)] == Flatten(cs[a..b])
    ensures Flatten(cs)[..Offset(cs, a)] == Flatten(cs[..a])
    ensures Flatten(cs)[Offset(cs, b)..] == Flatten(cs[b..])
  {
    var front, middle, back := Flatten(cs[..a]), Flatten(cs[a..b]), Flatten(cs[b..]);
    FlattenSplit(cs[..b], a);
    assert cs[..b][..a] == cs[..a] && cs[..b][a..] == cs[a..b];
    FlattenSplit(cs, b);
    assert Flatten(cs) == front + middle + back;
    ThreeParts(front, middle, back);
    assert Offset(cs, a) == |front| && Offset(cs, b) == |front| + |middle|;
  }

  /** A slice of a text's codepoint list is the codepoint list of the corresponding bytes. */
  lemma SliceOfChunks(cs: seq<seq<byte>>, a: nat, b: nat)
    requires AllChunks(cs) && a <= b <= |cs|
    ensures WellFormed(Flatten(cs[a..b])) && Chunks(Flatten(cs[a..b])) == cs[a..b]
  {
    ChunksOfFlatten(cs[a..b]);
  }

  /**
   * `get_codeunit_range`: the bytes spanned by a selection of codepoints, an
   * empty range at the lower end for an empty selection.
   */
  function CodeunitRange(cs: seq<seq<byte>>, sel: Selection): (r: Selection)
    requires sel.min <= |cs| && sel.max <= |cs|
    ensures r.min <= r.max <= |Flatten(cs)|
    ensures r.min == |Flatten(cs[..sel.min])|
    ensures sel.IsEmpty() ==> r.max == r.min
    ensures !sel.IsEmpty() ==> r.max == |Flatten(cs[..sel.max])|
  {
    var lo := Offset(cs, sel.min);
    OffsetSlice(cs, sel.min, sel.min);
    if sel.IsEmpty() then Selection(lo, lo)
    else
      OffsetSlice(cs, sel.min, sel.max);
      Selection(lo, Offset(cs, sel.max))
  }

  // ---------------------------------------------------------------------------
  // text::reverse: a byte reverse, then each codepoint's bytes reversed back

  /** Each span reversed on its own, in place. */
  function RevEach(L: seq<seq<byte>>): (r: seq<seq<byte>>)
    ensures |r| == |L| && forall k :: 0 <= k < |L| ==> r[k] == Reversed(L[k])
  {
    if L == [] then [] else [Reversed(L[0])] + RevEach(L[1..])
  }

  /** Reversing concatenated spans gives the spans in reverse order, each one reversed. */
  lemma {:induction false} ReversedFlatten(L: seq<seq<byte>>)
    ensures Reversed(Flatten(L)) == Flatten(RevEach(Reversed(L)))
  {
    if L != [] {
      ReversedFlatten(L[1..]);
      ReversedConcat(L[0], Flatten(L[1..]));
      var front := RevEach(Reversed(L[1..]));
      assert RevEach(Reversed(L)) == front + [Reversed(L[0])];
      FlattenConcat(front, [Reversed(L[0])]);
      assert Flatten([Reversed(L[0])]) == Reversed(L[0]) + Flatten([]);
    }
  }

  /** Putting spans in reverse order keeps the total number of bytes. */
  lemma {:induction false} FlattenReversedLength(L: seq<seq<byte>>)
    ensures |Flatten(Reversed(L))| == |Flatten(L)|
  {
    if L != [] {
      FlattenReversedLength(L[1..]);
      FlattenConcat(Reversed(L[1..]), [L[0]]);
      assert Flatten([L[0]]) == L[0] + Flatten([]);
    }
  }

  /** Span `j` lies within the concatenation. */
  lemma SpanWithin(R: seq<seq<byte>>, j: nat)
    requires j < |R|
    ensures |Flatten(R[..j])| + |R[j]| <= |Flatten(R)|
  {
    FlattenSnoc(R, j);
    FlattenSplit(R, j + 1);
  }

  /** The codepoints of a selection in reverse order, none for an empty selection. */
  function ReversedWindow(cs: seq<seq<byte>>, sel: Selection): (R: seq<seq<byte>>)
    requires sel.max <= |cs|
    ensures |R| == sel.Size()
  {
    if sel.IsEmpty() then [] else Reversed(cs[sel.min..sel.max])
  }

  /**
   * The bytes of the window after the first `j` spans of `R` have been
   * restored: `P`, the restored spans, the still reversed spans, then `Q`.
   */
  function Staged(P: seq<byte>, R: seq<seq<byte>>, j: nat, Q: seq<byte>): seq<byte>
    requires j <= |R|
  {
    P + Flatten(R[..j]) + Flatten(RevEach(R[j..])) + Q
  }

  /** Before and after restoring span `j`, the staged bytes differ in that span only. */
  lemma StagedSplit(P: seq<byte>, R: seq<seq<byte>>, j: nat, Q: seq<byte>)
    requires j < |R|
    ensures Staged(P, R, j, Q) == (P + Flatten(R[..j])) + Reversed(R[j]) + (Flatten(RevEach(R[j + 1..])) + Q)
    ensures Staged(P, R, j + 1, Q) == (P + Flatten(R[..j])) + R[j] + (Flatten(RevEach(R[j + 1..])) + Q)
  {
    assert RevEach(R[j..])[1..] == RevEach(R[j + 1..]);
    FlattenSnoc(R, j);
  }

  /** The three parts of a concatenation, cut back out of it. */
  lemma ThreeParts<T>(A: seq<T>, M: seq<T>, Z: seq<T>)
    ensures var D := A + M + Z;
      D[..|A|] == A && D[|A|..|A| + |M|] == M && D[|A| + |M|..] == Z
  {
  }

  /** Reversing a reversed block back restores it. */
  lemma ReverseBlock<T>(A: seq<T>, Y: seq<T>, Z: seq<T>)
    ensures ReverseOutcome(A + Reversed(Y) + Z, Selection(|A|, |A| + |Y|)) == A + Y + Z
  {
    var M := Reversed(Y);
    ThreeParts(A, M, Z);
    ReversedInvolution(Y);
    if Y == [] {
      assert M == [];
    }
  }

  /** In a reversed span the leading byte comes last, so it is the only byte that opens a sequence. */
  lemma LeadAtEnd(A: seq<byte>, Y: seq<byte>, Z: seq<byte>, i: nat)
    requires IsSpan(Y) && |A| <= i < |A| + |Y|
    ensures LeadLength((A + Reversed(Y) + Z)[i]) != 0 <==> i == |A| + |Y| - 1
  {
    var D := A + Reversed(Y) + Z;
    var k := i - |A|;
    assert D[i] == Reversed(Y)[k];
    ReversedAt(Y, k);
    var m := |Y| - 1 - k;
    assert D[i] == Y[m];
    if m > 0 {
      assert LeadLength(D[i]) == 0 && i != |A| + |Y| - 1;
    } else {
      assert LeadLength(D[i]) == |Y| && i == |A| + |Y| - 1;
    }
  }

  /** The reversed window holds whole codepoint spans and exactly the bytes of the codeunit range. */
  lemma ReversedWindowSpans(cs: seq<seq<byte>>, sel: Selection)
    requires AllChunks(cs) && sel.min <= |cs| && sel.max <= |cs|
    ensures var R, r := ReversedWindow(cs, sel), CodeunitRange(cs, sel);
      AllChunks(R) && r.max == r.min + |Flatten(R)|
  {
    var R := ReversedWindow(cs, sel);
    if !sel.IsEmpty() {
      var W := cs[sel.min..sel.max];
      OffsetSlice(cs, sel.min, sel.max);
      FlattenReversedLength(W);
      forall k | 0 <= k < |R| ensures IsChunk(R[k]) {
        ReversedAt(W, k);
      }
    }
  }

  /** Reversing the slice [x, y) of a sequence, written with the slice cut out. */
  lemma ReverseOutcomeCut<T>(s: seq<T>, x: nat, y: nat)
    requires x <= y <= |s|
    ensures ReverseOutcome(s, Selection(x, y)) == s[..x] + Reversed(s[x..y]) + s[y..]
  {
    if x == y {
      assert s[x..y] == [] && Reversed(s[x..y]) == [];
      assert s == s[..x] + s[y..];
    }
  }

  /** With nothing restored, the staged window is every span reversed. */
  lemma StagedStart(P: seq<byte>, R: seq<seq<byte>>, Q: seq<byte>)
    ensures Staged(P, R, 0, Q) == P + Flatten(RevEach(R)) + Q
  {
    assert R[..0] == [] && R[0..] == R;
  }

  /**
   * The byte reverse of the codeunit range, the first pass of text::reverse,
   * leaves the window staged with no span restored yet.
   */
  lemma ReverseStart(cs: seq<seq<byte>>, sel: Selection, x: nat, y: nat)
    requires sel.min <= |cs| && sel.max <= |cs| && x <= y <= |Flatten(cs)|
    requires x == Offset(cs, sel.min) && y == (if sel.IsEmpty() then x else Offset(cs, sel.max))
    ensures var s := Flatten(cs);
      ReverseOutcome(s, Selection(x, y)) == Staged(s[..x], ReversedWindow(cs, sel), 0, s[y..])
  {
    var s := Flatten(cs);
    var R := ReversedWindow(cs, sel);
    ReverseOutcomeCut(s, x, y);
    StagedStart(s[..x], R, s[y..]);
    if sel.IsEmpty() {
      assert s[x..y] == [] && R == [];
    } else {
      var W := cs[sel.min..sel.max];
      OffsetSlice(cs, sel.min, sel.max);
      ReversedFlatten(W);
    }
  }

  /** The codepoint list with a selection reversed holds whole spans only. */
  lemma ReverseOutcomeChunks(cs: seq<seq<byte>>, sel: Selection)
    requires AllChunks(cs) && sel.max <= |cs|
    ensures AllChunks(ReverseOutcome(cs, sel))
  {
    var t := ReverseOutcome(cs, sel);
    forall k | 0 <= k < |t| ensures IsChunk(t[k]) {
      ReverseOutcomeAt(cs, sel, k);
    }
  }

  /**
   * Once every span is restored, the bytes are those of the codepoint list
   * with the selection reversed.
   */
  lemma ReverseEnd(cs: seq<seq<byte>>, sel: Selection, x: nat, y: nat)
    requires sel.min <= |cs| && sel.max <= |cs| && x <= y <= |Flatten(cs)|
    requires x == Offset(cs, sel.min) && y == (if sel.IsEmpty() then x else Offset(cs, sel.max))
    ensures var s := Flatten(cs);
      s[..x] + Flatten(ReversedWindow(cs, sel)) + s[y..] == Flatten(ReverseOutcome(cs, sel))
  {
    var s := Flatten(cs);
    var R := ReversedWindow(cs, sel);
    if sel.IsEmpty() {
      assert R == [];
      assert s[..x] + s[y..] == s;
    } else {
      var front, back := cs[..sel.min], cs[sel.max..];
      OffsetSlice(cs, sel.min, sel.max);
      assert ReverseOutcome(cs, sel) == front + R + back;
      FlattenConcat(front + R, back);
      FlattenConcat(front, R);
    }
  }

  // ---------------------------------------------------------------------------
  // text::self_trim_start, text::self_trim_end

  /** The number of bytes taken by the leading codepoints that are among `chars`. */
  function LeadingBytes(cs: seq<seq<byte>>, chars: seq<seq<byte>>): nat {
    |Flatten(cs[..LeadingIn(cs, chars)])|
  }

  /** The number of bytes taken by the trailing codepoints that are among `chars`. */
  function TrailingBytes(cs: seq<seq<byte>>, chars: seq<seq<byte>>): nat {
    |Flatten(cs[|cs| - TrailingIn(cs, chars)..])|
  }

  /** Trimming codepoints from the start drops exactly the bytes of those codepoints. */
  lemma TrimStartBytes(cs: seq<seq<byte>>, chars: seq<seq<byte>>)
    requires AllChunks(cs)
    ensures var s, t := Flatten(cs), TrimStart(cs, chars);
      LeadingBytes(cs, chars) <= |s| && s[LeadingBytes(cs, chars)..] == Flatten(t) &&
      WellFormed(Flatten(t)) && Chunks(Flatten(t)) == t
  {
    var k := LeadingIn(cs, chars);
    OffsetSlice(cs, k, k);
    assert LeadingBytes(cs, chars) == Offset(cs, k);
    assert TrimStart(cs, chars) == cs[k..];
    ChunksOfFlatten(cs[k..]);
  }

  /** Trimming codepoints from the end drops exactly the bytes of those codepoints. */
  lemma TrimEndBytes(cs: seq<seq<byte>>, chars: seq<seq<byte>>)
    requires AllChunks(cs)
    ensures var s, t := Flatten(cs), TrimEnd(cs, chars);
      TrailingBytes(cs, chars) <= |s| && s[..|s| - TrailingBytes(cs, chars)] == Flatten(t) &&
      WellFormed(Flatten(t)) && Chunks(Flatten(t)) == t
  {
    var keep := |cs| - TrailingIn(cs, chars);
    var front, back := Flatten(cs[..keep]), Flatten(cs[keep..]);
    FlattenSplit(cs, keep);
    assert TrailingBytes(cs, chars) == |back|;
    assert (front + back)[..|front + back| - |back|] == front;
    assert TrimEnd(cs, chars) == cs[..keep];
    ChunksOfFlatten(cs[..keep]);
  }

  /**
   * The bytes `text::self_trim_end` leaves as the code stands: the trimmed
   * byte count is passed as a negative exclusive upper bound, so trimming
   * nothing passes a bound of zero, which counts from the start and selects
   * nothing. An empty text is returned early.
   */
  function TrimEndAsWritten(cs: seq<seq<byte>>, chars: seq<seq<byte>>): seq<byte> {
    var s := Flatten(cs);
    if cs == [] then []
    else Subrange(s, Select(Interval(Inclusive(0), Exclusive(0 - TrailingBytes(cs, chars))), |s|))
  }

  /** When at least one codepoint is trimmed, the code as written trims correctly. */
  lemma TrimEndAsWrittenAgrees(cs: seq<seq<byte>>, chars: seq<seq<byte>>)
    requires AllChunks(cs) && TrailingIn(cs, chars) > 0
    ensures TrimEndAsWritten(cs, chars) == Flatten(TrimEnd(cs, chars))
  {
    var s := Flatten(cs);
    var keep := |cs| - TrailingIn(cs, chars);
    TrimEndBytes(cs, chars);
    assert cs[keep..][0] == cs[keep];
    assert Flatten(cs[keep..]) == cs[keep] + Flatten(cs[keep..][1..]);
    SelectDropLast(TrailingBytes(cs, chars), |s|);
  }

  /**
   * A non-empty text whose last codepoint is not among the characters is
   * cleared by the code as written, where trimming should keep it whole.
   */
  lemma TrimEndAsWrittenClears(cs: seq<seq<byte>>, chars: seq<seq<byte>>)
    requires AllChunks(cs) && cs != [] && cs[|cs| - 1] !in chars
    ensures TrimEndAsWritten(cs, chars) == [] != Flatten(TrimEnd(cs, chars))
  {
    TrailingInUnique(cs, chars, 0);
    assert cs[|cs|..] == [];
    SelectZeroExclusiveEnd(|Flatten(cs)|);
    FlattenSplit(cs, |cs| - 1);
    assert cs[|cs| - 1..] == [cs[|cs| - 1]];
  }

  /**
   * What the code as written leaves, in codepoints: nothing when no trailing
   * codepoint is among the characters, and the correct trim otherwise.
   */
  lemma TrimEndAsWrittenOutcome(cs: seq<seq<byte>>, chars: seq<seq<byte>>)
    requires AllChunks(cs)
    ensures var t := TrimEndAsWritten(cs, chars);
      WellFormed(t) &&
      Chunks(t) == if TrailingIn(cs, chars) == 0 then [] else TrimEnd(cs, chars)
  {
    if TrailingIn(cs, chars) > 0 {
      TrimEndAsWrittenAgrees(cs, chars);
      TrimEndBytes(cs, chars);
    } else if cs != [] {
      TrimEndAsWrittenClears(cs, chars);
    }
  }

  /**
   * `text::self_trim` runs the end trim as written and then the start trim,
   * so a non-empty text whose last codepoint is not among the characters is
   * cleared, where trimming both ends should leave at least that codepoint.
   */
  lemma TrimAsWrittenClears(cs: seq<seq<byte>>, chars: seq<seq<byte>>)
    requires cs != [] && cs[|cs| - 1] !in chars
    ensures TrailingIn(cs, chars) == 0
    ensures var t := TrimStart(TrimEnd(cs, chars), chars);
      t != [] && t[|t| - 1] == cs[|cs| - 1]
  {
    TrailingInUnique(cs, chars, 0);
    assert TrimEnd(cs, chars) == cs;
    TrimStartSpec(cs, chars);
  }

  // ---------------------------------------------------------------------------
  // text::from_utf32

  /** The codepoints of a zero-terminated UTF-32 string, up to its first zero. */
  function Until0(str: seq<int>): (cps: seq<int>)
    requires 0 in str
    ensures |cps| < |str| && str[|cps|] == 0 && cps == str[..|cps|] && 0 !in cps
  {
    if str[0] == 0 then [] else [str[0]] + Until0(str[1..])
  }

  /** The codepoints a list of spans stands for. */
  function DecodeAll(cs: seq<seq<byte>>): (cps: seq<int>)
    requires AllChunks(cs)
    ensures |cps| == |cs| && forall k :: 0 <= k < |cs| ==> cps[k] == Decode(cs[k])
  {
    if cs == [] then [] else [Decode(cs[0])] + DecodeAll(cs[1..])
  }

  /** Decoding the encoded codepoints gives them back. */
  lemma DecodeEncodeAll(cps: seq<int>)
    requires forall k :: 0 <= k < |cps| ==> IsScalar(cps[k])
    ensures DecodeAll(EncodeAll(cps)) == cps
  {
    forall k | 0 <= k < |cps| ensures DecodeAll(EncodeAll(cps))[k] == cps[k] {
      DecodeEncode(cps[k]);
    }
  }
}
