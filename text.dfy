/**
 * `text`: a codeunit_sequence holding well-formed UTF-8, whose mutators work
 * codepoint by codepoint. Each mutator is stated on `Codepoints()`, the list
 * of the byte spans of the text's codepoints; the codepoint iterator of the
 * original walks exactly that list.
 */
module Texts {
  import opened Common
  import opened Utf8
  import opened Capacity
  import opened IndexInterval
  import opened View
  import opened SequenceSpec
  import opened CodeunitSequences
  import opened TextSpec

  /** The selection `self_trim_start` passes keeps exactly the bytes of the trimmed codepoints. */
  lemma TrimStartSelection(c: seq<byte>, chars: seq<seq<byte>>, k: nat)
    requires WellFormed(c) && k == LeadingBytes(Chunks(c), chars)
    ensures var t := TrimStart(Chunks(c), chars);
      k <= |c| && Subrange(c, Select(Interval(Inclusive(k), Unbounded), |c|)) == Flatten(t) &&
      WellFormed(Flatten(t)) && Chunks(Flatten(t)) == t
  {
    TrimStartBytes(Chunks(c), chars);
    SelectFrom(k, |c|);
    assert Subrange(c, Selection(k, |c|)) == c[k..];
  }

  /** The selection `self_trim_end` passes keeps exactly the bytes of the trimmed codepoints. */
  lemma TrimEndSelection(c: seq<byte>, chars: seq<seq<byte>>, keep: nat)
    requires WellFormed(c) && keep + TrailingBytes(Chunks(c), chars) == |c|
    ensures var t := TrimEnd(Chunks(c), chars);
      Subrange(c, Select(Interval(Inclusive(0), Exclusive(keep)), |c|)) == Flatten(t) &&
      WellFormed(Flatten(t)) && Chunks(Flatten(t)) == t
  {
    TrimEndBytes(Chunks(c), chars);
    SelectClosedOpen(0, keep, |c|);
    assert Subrange(c, Selection(0, keep)) == c[..keep];
  }

  /**
   * The forward scan of `self_trim_start`: the codeunit_index reached by
   * adding the size of each leading codepoint found in `chars`.
   */
  method LeadingOffset(cs: seq<seq<byte>>, chars: seq<seq<byte>>) returns (codeunitIndex: nat)
    ensures codeunitIndex == LeadingBytes(cs, chars)
  {
    codeunitIndex := 0;
    var k := 0;
    while k < |cs| && cs[k] in chars
      invariant k <= |cs| && codeunitIndex == |Flatten(cs[..k])|
      invariant forall j :: 0 <= j < k ==> cs[j] in chars
    {
      FlattenSnoc(cs, k);
      codeunitIndex := codeunitIndex + |cs[k]|;
      k := k + 1;
    }
    LeadingInUnique(cs, chars, k);
  }

  /**
   * The backward scan of `self_trim_end`: the codeunit_index reached by
   * subtracting the size of each trailing codepoint found in `chars`, stopping
   * at the first codepoint.
   */
  method TrailingOffset(cs: seq<seq<byte>>, chars: seq<seq<byte>>) returns (codeunitIndex: int)
    requires cs != []
    ensures codeunitIndex == 0 - TrailingBytes(cs, chars)
  {
    codeunitIndex := 0;
    var k := |cs|;
    while true
      invariant 0 < k <= |cs|
      invariant codeunitIndex == 0 - |Flatten(cs[k..])|
      invariant forall j :: k <= j < |cs| ==> cs[j] in chars
      decreases k
    {
      k := k - 1;
      if cs[k] !in chars {
        TrailingInUnique(cs, chars, |cs| - 1 - k);
        assert k + 1 == |cs| - TrailingIn(cs, chars);
        break;
      }
      assert cs[k..][1..] == cs[k + 1..];
      codeunitIndex := codeunitIndex - |cs[k]|;
      if k == 0 {
        TrailingInUnique(cs, chars, |cs|);
        break;
      }
    }
  }

  /**
   * The sizing pass of `from_utf32`: the encoded sizes of the codepoints
   * before the terminating zero, summed (`cps` names them).
   */
  method SizeUntil0(str: seq<int>, ghost cps: seq<int>) returns (size: nat)
    requires |cps| < |str| && str[|cps|] == 0 && cps == str[..|cps|] && 0 !in cps
    requires forall k :: 0 <= k < |cps| ==> IsScalar(cps[k])
    ensures size == EncodedSize(cps)
  {
    var p := 0;
    size := 0;
    while str[p] != 0
      invariant p <= |cps| && size == EncodedSize(cps[..p])
      decreases |cps| - p
    {
      assert str[p] == cps[p];
      assert cps[..p + 1][..p] == cps[..p];
      size := size + EncodedLength(str[p]);
      p := p + 1;
    }
    assert cps[..p] == cps;
  }

  /**
   * The encoding pass of `from_utf32`: append the encoding of each codepoint
   * before the terminating zero. The capacity covers the whole encoding, so
   * the buffer is never replaced.
   */
  method AppendUntil0(s: CodeunitSequence, str: seq<int>, ghost cps: seq<int>)
    requires |cps| < |str| && str[|cps|] == 0 && cps == str[..|cps|] && 0 !in cps
    requires forall k :: 0 <= k < |cps| ==> IsScalar(cps[k])
    requires s.Valid() && s.Content() == [] && s.Capacity() >= EncodedSize(cps)
    modifies s, s.buf
    ensures s.Valid() && s.Content() == Flatten(EncodeAll(cps))
    ensures s.buf == old(s.buf) && s.Capacity() == old(s.Capacity())
    ensures cps != [] ==> s.Terminated()
    ensures old(s.Terminated()) ==> s.Terminated()
  {
    ghost var encoded := EncodeAll(cps);
    EncodedSizeIsLength(cps);
    var p := 0;
    while str[p] != 0
      invariant p <= |cps| && s.Valid() && s.Content() == Flatten(encoded[..p])
      invariant s.buf == old(s.buf) && s.Capacity() == old(s.Capacity())
      invariant p > 0 ==> s.Terminated()
      invariant old(s.Terminated()) ==> s.Terminated()
      decreases |cps| - p
    {
      assert str[p] == cps[p];
      FlattenSnoc(encoded, p);
      FlattenSplit(encoded, p + 1);
      s.Append(Encode(str[p]));
      p := p + 1;
    }
    assert encoded[..p] == encoded;
  }

  /** The encoding of scalars is well-formed, splits back into its codepoints and has the summed size. */
  lemma EncodedFacts(cps: seq<int>)
    requires forall k :: 0 <= k < |cps| ==> IsScalar(cps[k])
    ensures var e := Flatten(EncodeAll(cps));
      |e| == EncodedSize(cps) && WellFormed(e) && Chunks(e) == EncodeAll(cps)
  {
    EncodedSizeIsLength(cps);
    ChunksOfFlatten(EncodeAll(cps));
  }

  /** The two passes of `from_utf32` over the codepoints `cps` before the terminating zero. */
  method Utf32Sequence(str: seq<int>, ghost cps: seq<int>) returns (s: CodeunitSequence)
    requires |cps| < |str| && str[|cps|] == 0 && cps == str[..|cps|] && 0 !in cps
    requires forall k :: 0 <= k < |cps| ==> IsScalar(cps[k])
    ensures fresh(s) && s.Valid() && s.Terminated()
    ensures WellFormed(s.Content()) && Chunks(s.Content()) == EncodeAll(cps)
    ensures s.Capacity() == CapacityFor(s.size)
  {
    var size := SizeUntil0(str, cps);
    s := new CodeunitSequence.WithCapacity(size);
    ghost var capacity := s.Capacity();
    assert capacity == CapacityFor(size);
    AppendUntil0(s, str, cps);
    ghost var content := s.Content();
    EncodedFacts(cps);
    assert |content| == size && s.Capacity() == capacity;
  }

  class Text {
    var sequence: CodeunitSequence

    ghost predicate Valid()
      reads this, sequence, sequence.buf
    {
      sequence.Valid() && WellFormed(sequence.Content())
    }

    /** The byte spans of the text's codepoints, in order. */
    ghost function Codepoints(): (cs: seq<seq<byte>>)
      requires Valid()
      reads this, sequence, sequence.buf
      ensures AllChunks(cs) && Flatten(cs) == sequence.Content()
    {
      Chunks(sequence.Content())
    }

    /** `text(codeunit_sequence)`: adopt a buffer of well-formed UTF-8. */
    constructor (s: CodeunitSequence)
      requires s.Valid() && WellFormed(s.Content())
      ensures sequence == s && Valid()
    {
      sequence := s;
    }

    /**
     * `from_utf32(str)`: one pass sums the encoded sizes of the codepoints
     * before the terminating zero, a buffer of that capacity is made, and a
     * second pass appends each codepoint's encoding without ever growing it.
     */
    static method FromUtf32(str: seq<int>) returns (t: Text)
      requires 0 in str
      requires forall k :: 0 <= k < |Until0(str)| ==> IsScalar(Until0(str)[k])
      ensures fresh(t) && t.Valid() && t.sequence.Terminated()
      ensures t.Codepoints() == EncodeAll(Until0(str))
      ensures t.sequence.Capacity() == CapacityFor(t.sequence.size)
    {
      ghost var cps := Until0(str);
      var sequence := Utf32Sequence(str, cps);
      t := new Text(sequence);
    }

    /**
     * `subtext(range)`: keep the selected codepoints. An empty selection
     * empties the text, the whole text is left alone, and otherwise the byte
     * offsets of the selection's ends bound a `subsequence`.
     */
    method Subtext(range: Interval)
      requires Valid()
      modifies sequence, sequence.buf
      ensures Valid() && Codepoints() == Subrange(old(Codepoints()), Select(range, |old(Codepoints())|))
      ensures sequence.buf == old(sequence.buf) && sequence.Capacity() == old(sequence.Capacity())
      ensures old(sequence.Terminated()) ==> sequence.Terminated()
    {
      var c := sequence.Content();
      var cs := Chunks(c);
      var selfSize := |cs|;
      var selection := Select(range, selfSize);
      if selection.IsEmpty() {
        sequence.Empty();
        return;
      }
      if selection == FromUniversal(selfSize) {
        SubrangeWhole(cs);
        return;
      }
      var lowerBound := Offset(cs, selection.min);
      var upperBound := Offset(cs, selection.max);
      OffsetSlice(cs, selection.min, selection.max);
      SelectClosedOpen(lowerBound, upperBound, |c|);
      sequence.Subsequence(Interval(Inclusive(lowerBound), Exclusive(upperBound)));
      SliceOfChunks(cs, selection.min, selection.max);
    }

    /**
     * `reverse(range)`: reverse the bytes of the selected codepoints, then
     * reverse back each codepoint's bytes, which now end with their leading
     * byte. The codepoints of the selection come out in reverse order, each
     * with its own byte pattern.
     */
    method Reverse(range: Interval)
      requires Valid()
      modifies sequence.buf
      ensures Valid() && Codepoints() == ReverseOutcome(old(Codepoints()), Select(range, |old(Codepoints())|))
      ensures old(sequence.Terminated()) ==> sequence.Terminated()
    {
      var c := sequence.Content();
      var cs := Chunks(c);
      var selection := Select(range, |cs|);
      var sequenceRange := CodeunitRange(cs, selection);
      var lo, hi := sequenceRange.min, sequenceRange.max;
      SelectClosedOpen(lo, hi, |c|);
      sequence.Reverse(Interval(Inclusive(lo), Exclusive(hi)));
      ghost var R := ReversedWindow(cs, selection);
      ReversedWindowSpans(cs, selection);
      ReverseStart(cs, selection, lo, hi);
      RestoreCodepoints(lo, hi, c[..lo], R, c[hi..]);
      ReverseEnd(cs, selection, lo, hi);
      ReverseOutcomeChunks(cs, selection);
      ChunksOfFlatten(ReverseOutcome(cs, selection));
    }

    /**
     * The second pass of `reverse`: walk the window [lo, hi) and, at each
     * leading byte, reverse the bytes since the previous one back.
     */
    method RestoreCodepoints(lo: nat, hi: nat, ghost P: seq<byte>, ghost R: seq<seq<byte>>, ghost Q: seq<byte>)
      requires sequence.Valid() && AllChunks(R) && |P| == lo && hi == lo + |Flatten(R)| <= sequence.size
      requires sequence.Content() == Staged(P, R, 0, Q)
      modifies sequence.buf
      ensures sequence.Valid() && sequence.Content() == P + Flatten(R) + Q
      ensures old(sequence.Terminated()) ==> sequence.Terminated()
    {
      var lowerBound := lo;
      var i := lo;
      ghost var j: nat := 0;
      if R != [] {
        SpanWithin(R, 0);
      }
      while i < hi
        invariant sequence.Valid() && j <= |R| && lo <= lowerBound <= i <= hi
        invariant lowerBound == lo + |Flatten(R[..j])|
        invariant j < |R| ==> i < lowerBound + |R[j]| <= hi
        invariant j == |R| ==> i == hi
        invariant sequence.Content() == Staged(P, R, j, Q)
        invariant old(sequence.Terminated()) ==> sequence.Terminated()
      {
        lowerBound, j := RestoreStep(lo, hi, lowerBound, i, P, R, j, Q);
        i := i + 1;
      }
      assert R[..j] == R && R[j..] == [];
    }

    /** One byte of the second pass: at the leading byte that ends span `j`, restore that span. */
    method RestoreStep(lo: nat, hi: nat, lowerBound: nat, i: nat, ghost P: seq<byte>, ghost R: seq<seq<byte>>,
                       ghost j: nat, ghost Q: seq<byte>)
      returns (newLower: nat, ghost newJ: nat)
      requires sequence.Valid() && AllChunks(R) && |P| == lo && hi == lo + |Flatten(R)| <= sequence.size
      requires j < |R| && lowerBound == lo + |Flatten(R[..j])| && lowerBound <= i < lowerBound + |R[j]| <= hi
      requires sequence.Content() == Staged(P, R, j, Q)
      modifies sequence.buf
      ensures sequence.Valid() && newJ <= |R| && lowerBound <= newLower <= i + 1
      ensures newLower == lo + |Flatten(R[..newJ])|
      ensures newJ < |R| ==> i + 1 < newLower + |R[newJ]| <= hi
      ensures newJ == |R| ==> i + 1 == hi
      ensures sequence.Content() == Staged(P, R, newJ, Q)
      ensures old(sequence.Terminated()) ==> sequence.Terminated()
    {
      newLower, newJ := lowerBound, j;
      StagedSplit(P, R, j, Q);
      LeadAtEnd(P + Flatten(R[..j]), R[j], Flatten(RevEach(R[j + 1..])) + Q, i);
      if LeadLength(sequence.buf[i]) != 0 {
        RestoreSpan(lowerBound, i, P, R, j, Q);
        FlattenSnoc(R, j);
        newLower := i + 1;
        newJ := j + 1;
        if newJ < |R| {
          SpanWithin(R, newJ);
        } else {
          assert R[..newJ] == R;
        }
      }
    }

    /** One step of the second pass: the reversed span `j`, at [lowerBound, i], reversed back. */
    method RestoreSpan(lowerBound: nat, i: nat, ghost P: seq<byte>, ghost R: seq<seq<byte>>, ghost j: nat, ghost Q: seq<byte>)
      requires sequence.Valid() && AllChunks(R) && j < |R| && i < sequence.size
      requires lowerBound == |P| + |Flatten(R[..j])| && i + 1 == lowerBound + |R[j]|
      requires sequence.Content() == Staged(P, R, j, Q)
      modifies sequence.buf
      ensures sequence.Valid() && sequence.Content() == Staged(P, R, j + 1, Q)
      ensures old(sequence.Terminated()) ==> sequence.Terminated()
    {
      ghost var A, Z := P + Flatten(R[..j]), Flatten(RevEach(R[j + 1..])) + Q;
      StagedSplit(P, R, j, Q);
      SelectClosed(lowerBound, i, sequence.size);
      sequence.Reverse(Interval(Inclusive(lowerBound), Inclusive(i)));
      ReverseBlock(A, R[j], Z);
    }

    /**
     * `self_trim_start(characters)`: drop the leading codepoints found among
     * the codepoints of `characters`, by a `subsequence` from the byte offset
     * the forward scan reaches.
     */
    method SelfTrimStart(characters: seq<byte>)
      requires Valid() && WellFormed(characters)
      modifies sequence, sequence.buf
      ensures Valid() && Codepoints() == TrimStart(old(Codepoints()), Chunks(characters))
      ensures sequence.buf == old(sequence.buf) && sequence.Capacity() == old(sequence.Capacity())
      ensures old(sequence.Terminated()) ==> sequence.Terminated()
    {
      if sequence.size == 0 {
        return;
      }
      var c := sequence.Content();
      var ch := Chunks(characters);
      var codeunitIndex := LeadingOffset(Chunks(c), ch);
      TrimStartSelection(c, ch, codeunitIndex);
      sequence.Subsequence(Interval(Inclusive(codeunitIndex), Unbounded));
    }

    /**
     * `self_trim_end(characters)`, with the upper bound counted from the
     * start: drop the trailing codepoints found among the codepoints of
     * `characters`.
     */
    method SelfTrimEnd(characters: seq<byte>)
      requires Valid() && WellFormed(characters)
      modifies sequence, sequence.buf
      ensures Valid() && Codepoints() == TrimEnd(old(Codepoints()), Chunks(characters))
      ensures sequence.buf == old(sequence.buf) && sequence.Capacity() == old(sequence.Capacity())
      ensures old(sequence.Terminated()) ==> sequence.Terminated()
    {
      if sequence.size == 0 {
        return;
      }
      var c := sequence.Content();
      var ch := Chunks(characters);
      var codeunitIndex := TrailingOffset(Chunks(c), ch);
      TrimEndBytes(Chunks(c), ch);
      var keep := |c| + codeunitIndex;
      TrimEndSelection(c, ch, keep);
      sequence.Subsequence(Interval(Inclusive(0), Exclusive(keep)));
    }

    /**
     * `self_trim_end(characters)` as written: the scan's negative byte count
     * is the exclusive upper bound, so a text with nothing to trim is emptied.
     */
    method SelfTrimEndAsWritten(characters: seq<byte>)
      requires Valid() && WellFormed(characters)
      modifies sequence, sequence.buf
      ensures sequence.Valid() && sequence.Content() == TrimEndAsWritten(old(Codepoints()), Chunks(characters))
      ensures sequence.buf == old(sequence.buf) && sequence.Capacity() == old(sequence.Capacity())
      ensures old(sequence.Terminated()) ==> sequence.Terminated()
    {
      if sequence.size == 0 {
        return;
      }
      var c := sequence.Content();
      var cs := Chunks(c);
      var codeunitIndex := TrailingOffset(cs, Chunks(characters));
      sequence.Subsequence(Interval(Inclusive(0), Exclusive(codeunitIndex)));
    }

    /**
     * `self_trim(characters)` as written: the end trim as written, then the
     * start trim. A text is cleared unless its last codepoint is among the
     * characters.
     */
    method SelfTrimAsWritten(characters: seq<byte>)
      requires Valid() && WellFormed(characters)
      modifies sequence, sequence.buf
      ensures Valid()
      ensures var cs, ch := old(Codepoints()), Chunks(characters);
        Codepoints() == if TrailingIn(cs, ch) == 0 then [] else TrimStart(TrimEnd(cs, ch), ch)
      ensures sequence.buf == old(sequence.buf) && sequence.Capacity() == old(sequence.Capacity())
      ensures old(sequence.Terminated()) ==> sequence.Terminated()
    {
      ghost var cs, ch := Codepoints(), Chunks(characters);
      SelfTrimEndAsWritten(characters);
      TrimEndAsWrittenOutcome(cs, ch);
      SelfTrimStart(characters);
    }

    /**
     * `self_trim(characters)` with the corrected end trim: the end first,
     * then the start; the other order gives the same codepoints.
     */
    method SelfTrim(characters: seq<byte>)
      requires Valid() && WellFormed(characters)
      modifies sequence, sequence.buf
      ensures Valid() && Codepoints() == TrimStart(TrimEnd(old(Codepoints()), Chunks(characters)), Chunks(characters))
      ensures Codepoints() == TrimEnd(TrimStart(old(Codepoints()), Chunks(characters)), Chunks(characters))
      ensures sequence.buf == old(sequence.buf) && sequence.Capacity() == old(sequence.Capacity())
      ensures old(sequence.Terminated()) ==> sequence.Terminated()
    {
      TrimCommute(Codepoints(), Chunks(characters));
      SelfTrimEnd(characters);
      SelfTrimStart(characters);
    }
  }
}
