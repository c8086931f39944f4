/**
 * What the byte buffer's mutators leave behind, stated on bytes alone: each
 * function takes the content before a call and gives the content after it,
 * and the lemmas say what those results mean.
 */
module SequenceSpec {
  import opened Common
  import opened IndexInterval
  import opened View
  import opened Passes

  // ---------------------------------------------------------------------------
  // subsequence

  /** `subsequence(range)` on content `c`: the selected bytes, nothing for an empty selection. */
  function Subrange<T>(c: seq<T>, sel: Selection): (r: seq<T>)
    requires sel.max <= |c|
    ensures |r| == sel.Size()
    ensures forall k :: 0 <= k < |r| ==> r[k] == c[sel.min + k]
  {
    if sel.IsEmpty() then [] else c[sel.min..sel.max]
  }

  /** The full selection keeps everything. */
  lemma SubrangeWhole<T>(c: seq<T>)
    ensures Subrange(c, FromUniversal(|c|)) == c
  {
    if c == [] {
      assert FromUniversal(0).IsEmpty();
    }
  }

  /** Taking a sub-range of a sub-range is taking the composed range once. */
  lemma SubrangeOfSubrange<T>(c: seq<T>, outer: Selection, inner: Selection)
    requires outer.max <= |c| && !outer.IsEmpty() && inner.max <= outer.Size() && !inner.IsEmpty()
    ensures Subrange(Subrange(c, outer), inner) == Subrange(c, Selection(outer.min + inner.min, outer.min + inner.max))
  {
  }

  // ---------------------------------------------------------------------------
  // replace(pattern, replacement, range)

  /**
   * `replace(p, r, range)` on content `c` whose resolved selection is
   * [lo, hi), in a buffer of capacity `cap`. Nothing changes for an empty
   * pattern or when the window holds no occurrence; a longer replacement that
   * still fits the capacity is written by the backward pass, which picks the
   * occurrences from the right; every other case picks them from the left.
   */
  function ReplaceOutcome(c: seq<byte>, p: seq<byte>, r: seq<byte>, lo: nat, hi: nat, cap: nat): seq<byte>
    requires lo <= hi <= |c|
  {
    if |p| == 0 || CountFwd(c, p, lo, hi) == 0 then c
    else if |r| > |p| && |c| + CountFwd(c, p, lo, hi) * (|r| - |p|) <= cap then c[..lo] + Bwd(c, p, r, lo, hi) + c[hi..]
    else c[..lo] + Fwd(c, p, r, lo, hi) + c[hi..]
  }

  /** Without an occurrence in the window, or with an empty pattern, `replace` changes nothing. */
  lemma ReplaceOutcomeNoOp(c: seq<byte>, p: seq<byte>, r: seq<byte>, lo: nat, hi: nat, cap: nat)
    requires lo <= hi <= |c|
    requires |p| == 0 || Count(c[lo..hi], p) == 0
    ensures ReplaceOutcome(c, p, r, lo, hi, cap) == c
  {
    if |p| > 0 {
      WindowIsSubview(c, p, r, lo, hi);
    }
  }

  /**
   * For a pattern that cannot overlap itself, whichever pass runs, the
   * selected window is replaced as a whole and the bytes around it are kept.
   */
  lemma ReplaceOutcomeIsReplaceAll(c: seq<byte>, p: seq<byte>, r: seq<byte>, lo: nat, hi: nat, cap: nat)
    requires lo <= hi <= |c| && |p| > 0 && NonSelfOverlapping(p)
    ensures ReplaceOutcome(c, p, r, lo, hi, cap) == c[..lo] + ReplaceAll(c[lo..hi], p, r) + c[hi..]
  {
    WindowIsSubview(c, p, r, lo, hi);
    BwdIsFwd(c, p, r, lo, hi);
    if CountFwd(c, p, lo, hi) == 0 {
      ReplaceAllNoMatch(c[lo..hi], p, r);
      assert c == c[..lo] + c[lo..hi] + c[hi..];
    }
  }

  /** The new size is the old one plus the growth of every occurrence in the window. */
  lemma ReplaceOutcomeLength(c: seq<byte>, p: seq<byte>, r: seq<byte>, lo: nat, hi: nat, cap: nat)
    requires lo <= hi <= |c| && |p| > 0
    ensures |ReplaceOutcome(c, p, r, lo, hi, cap)| == |c| + Count(c[lo..hi], p) * (|r| - |p|)
  {
    WindowIsSubview(c, p, r, lo, hi);
    FwdLength(c, p, r, lo, hi);
    BwdLength(c, p, r, lo, hi);
    CountBwdIsCountFwd(c, p, lo, hi);
  }

  /** The bytes before and after the window keep their places relative to the ends. */
  lemma ReplaceOutcomeOutside(c: seq<byte>, p: seq<byte>, r: seq<byte>, lo: nat, hi: nat, cap: nat)
    requires lo <= hi <= |c|
    ensures var t := ReplaceOutcome(c, p, r, lo, hi, cap);
      |t| >= lo + (|c| - hi) && t[..lo] == c[..lo] && t[|t| - (|c| - hi)..] == c[hi..]
  {
  }

  /**
   * The buffer's bytes past the content do not reach the window: the result
   * of a pass over the whole buffer, up to and including the terminator
   * slot, is the result on the content followed by the byte in that slot.
   */
  lemma BufferReplaced(S: seq<byte>, n: nat, p: seq<byte>, r: seq<byte>, lo: nat, hi: nat)
    requires |p| > 0 && lo <= hi <= n < |S|
    ensures var c := S[..n];
      Replaced(S, p, r, lo, hi, n + 1) == c[..lo] + Fwd(c, p, r, lo, hi) + c[hi..] + [S[n]] &&
      ReplacedBwd(S, p, r, lo, hi, n + 1) == c[..lo] + Bwd(c, p, r, lo, hi) + c[hi..] + [S[n]] &&
      CountFwd(S, p, lo, hi) == CountFwd(c, p, lo, hi) &&
      FirstMatch(S, p, lo, hi) == FirstMatch(c, p, lo, hi) &&
      LastMatch(S, p, lo, hi) == LastMatch(c, p, lo, hi)
  {
    var c := S[..n];
    assert S[0..n] == c;
    FwdSlice(S, p, r, 0, n, lo, hi);
    BwdFrame(S, c, p, r, lo, hi);
    FirstMatchFrame(S, c, p, lo, hi);
    LastMatchFrame(S, c, p, lo, hi);
    assert S[..lo] == c[..lo];
    assert S[hi..n + 1] == c[hi..] + [S[n]];
  }

  // ---------------------------------------------------------------------------
  // replace(range, destination)

  /**
   * `replace(range, dest)`: the selection gives way to `dest` when `dest` is
   * no longer than it; an empty selection, or a longer `dest`, leaves the
   * content as it is.
   */
  function SpliceOutcome(c: seq<byte>, sel: Selection, dest: seq<byte>): seq<byte>
    requires sel.max <= |c|
  {
    if sel.IsEmpty() || |dest| > sel.Size() then c else c[..sel.min] + dest + c[sel.max..]
  }

  /** A splice that happens puts `dest` where the selection was and keeps what surrounds it. */
  lemma SpliceOutcomeSpec(c: seq<byte>, sel: Selection, dest: seq<byte>)
    requires sel.max <= |c| && !sel.IsEmpty() && |dest| <= sel.Size()
    ensures var t := SpliceOutcome(c, sel, dest);
      |t| == |c| - sel.Size() + |dest| &&
      t[..sel.min] == c[..sel.min] &&
      t[sel.min..sel.min + |dest|] == dest &&
      t[sel.min + |dest|..] == c[sel.max..]
  {
  }

  /** Putting back the selected bytes themselves restores the content. */
  lemma SpliceOutcomeRestores(c: seq<byte>, sel: Selection)
    requires sel.max <= |c|
    ensures sel.min <= sel.max ==> SpliceOutcome(c, sel, c[sel.min..sel.max]) == c
  {
    if sel.min < sel.max {
      assert c == c[..sel.min] + c[sel.min..sel.max] + c[sel.max..];
    }
  }

  // ---------------------------------------------------------------------------
  // self_remove_prefix / self_remove_suffix

  function RemovePrefix(c: seq<byte>, prefix: seq<byte>): seq<byte> {
    if StartsWith(c, prefix) then c[|prefix|..] else c
  }

  /** The prefix, when there, is exactly what goes. */
  lemma RemovePrefixSpec(c: seq<byte>, prefix: seq<byte>)
    ensures StartsWith(c, prefix) ==> prefix + RemovePrefix(c, prefix) == c
    ensures !StartsWith(c, prefix) ==> RemovePrefix(c, prefix) == c
  {
    if StartsWith(c, prefix) {
      assert c == c[..|prefix|] + c[|prefix|..];
    }
  }

  /** `self_remove_suffix` as intended: drop the suffix when the content ends with it. */
  function RemoveSuffix(c: seq<byte>, suffix: seq<byte>): seq<byte> {
    if EndsWith(c, suffix) then c[..|c| - |suffix|] else c
  }

  /** The suffix, when there, is exactly what goes. */
  lemma RemoveSuffixSpec(c: seq<byte>, suffix: seq<byte>)
    ensures EndsWith(c, suffix) ==> RemoveSuffix(c, suffix) + suffix == c
    ensures !EndsWith(c, suffix) ==> RemoveSuffix(c, suffix) == c
    ensures RemoveSuffix(c, []) == c
  {
    if EndsWith(c, suffix) {
      assert c == c[..|c| - |suffix|] + c[|c| - |suffix|..];
    }
  }

  /**
   * `self_remove_suffix` as written: keep the selection `{'[', 0, -|suffix|, ')'}`.
   * For an empty suffix that bound is 0, which counts from the start.
   */
  function RemoveSuffixAsWritten(c: seq<byte>, suffix: seq<byte>): seq<byte> {
    if EndsWith(c, suffix) then Subrange(c, Select(Interval(Inclusive(0), Exclusive(0 - |suffix|)), |c|)) else c
  }

  /** For a non-empty suffix the code does what is intended. */
  lemma RemoveSuffixAsWrittenAgrees(c: seq<byte>, suffix: seq<byte>)
    requires |suffix| > 0
    ensures RemoveSuffixAsWritten(c, suffix) == RemoveSuffix(c, suffix)
  {
    if EndsWith(c, suffix) {
      SelectDropLast(|suffix|, |c|);
      if |suffix| == |c| {
        assert RemoveSuffix(c, suffix) == [];
      }
    }
  }

  /** Removing the empty suffix from non-empty content clears it, where nothing should change. */
  lemma RemoveEmptySuffixClears(c: seq<byte>)
    requires c != []
    ensures RemoveSuffixAsWritten(c, []) == [] != RemoveSuffix(c, [])
  {
    SelectZeroExclusiveEnd(|c|);
    assert EndsWith(c, []) by {
      assert c[|c|..] == [];
    }
  }

  // ---------------------------------------------------------------------------
  // reverse(range)

  /** `reverse(range)`: the bytes of the selection in reverse order, the others in place. */
  function ReverseOutcome<T>(c: seq<T>, sel: Selection): (t: seq<T>)
    requires sel.max <= |c|
    ensures |t| == |c|
  {
    if sel.IsEmpty() then c else c[..sel.min] + Reversed(c[sel.min..sel.max]) + c[sel.max..]
  }

  /** Each selected byte comes from the mirrored position; the others stay where they are. */
  lemma ReverseOutcomeAt<T>(c: seq<T>, sel: Selection, k: nat)
    requires sel.max <= |c| && k < |c|
    ensures sel.min <= k < sel.max ==> ReverseOutcome(c, sel)[k] == c[sel.min + sel.max - 1 - k]
    ensures !(sel.min <= k < sel.max) ==> ReverseOutcome(c, sel)[k] == c[k]
  {
    if sel.min <= k < sel.max {
      ReversedAt(c[sel.min..sel.max], k - sel.min);
    }
  }

  /** Reversing the same selection twice restores the content. */
  lemma ReverseOutcomeInvolution<T>(c: seq<T>, sel: Selection)
    requires sel.max <= |c|
    ensures ReverseOutcome(ReverseOutcome(c, sel), sel) == c
  {
    if !sel.IsEmpty() {
      var w := c[sel.min..sel.max];
      var t := ReverseOutcome(c, sel);
      assert t[sel.min..sel.max] == Reversed(w);
      assert t[..sel.min] == c[..sel.min] && t[sel.max..] == c[sel.max..];
      ReversedInvolution(w);
      assert c == c[..sel.min] + w + c[sel.max..];
    }
  }

  // ---------------------------------------------------------------------------
  // append(count, codeunit)

  /** `count` copies of one byte. */
  function Repeat(b: byte, count: nat): (r: seq<byte>)
    ensures |r| == count && forall k :: 0 <= k < count ==> r[k] == b
  {
    seq(count, _ => b)
  }

  // ---------------------------------------------------------------------------
  // split(splitter, cull_empty)

  /** Dropping empty pieces distributes over concatenation. */
  lemma {:induction false} NonEmptyConcat(a: seq<seq<byte>>, b: seq<seq<byte>>)
    ensures NonEmpty(a + b) == NonEmpty(a) + NonEmpty(b)
  {
    if a != [] {
      assert (a + b)[1..] == a[1..] + b;
      NonEmptyConcat(a[1..], b);
    } else {
      assert a + b == b;
    }
  }

  /** The pieces `split` keeps: all of them, or with `cull` the non-empty ones. */
  function KeptPieces(ps: seq<seq<byte>>, cull: bool): seq<seq<byte>> {
    if cull then NonEmpty(ps) else ps
  }
}
