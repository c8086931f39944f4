/**
 * The array loops of `codeunit_sequence` (source/text.cpp): the byte copies
 * (`std::copy`, `std::move`), the in-place reversal, and the four passes of
 * `replace(pattern, replacement, range)`.
 *
 * A pass works on the bytes `S = a[..]` as they were on entry and on the
 * window [lo, hi) of the resolved selection, and rewrites the first `m` bytes
 * (the content and its terminator, m = size + 1) into `Replaced` (left to
 * right picking) or `ReplacedBwd` (right to left picking).
 */
module Passes {
  import opened Common
  import opened View
  import opened IndexInterval

  /** `index_of` / `last_index_of` report a missing occurrence as `index_invalid`, that is -1. */
  function IndexOr(m: Option<nat>): (i: int)
    ensures m.None? <==> i == -1
    ensures m.Some? ==> i == m.value
  {
    if m.None? then -1 else m.value
  }

  // ---------------------------------------------------------------------------
  // What a forward pass still has to write
  // ---------------------------------------------------------------------------

  /**
   * The first `m` bytes of `S` with the occurrences of `p` in [lo, hi) picked
   * from the left and replaced by `r`.
   */
  function Replaced(S: seq<byte>, p: seq<byte>, r: seq<byte>, lo: nat, hi: nat, m: nat): seq<byte>
    requires |p| > 0 && lo <= hi <= m <= |S|
  {
    S[..lo] + Fwd(S, p, r, lo, hi) + S[hi..m]
  }

  /** The same with the occurrences picked from the right. */
  function ReplacedBwd(S: seq<byte>, p: seq<byte>, r: seq<byte>, lo: nat, hi: nat, m: nat): seq<byte>
    requires |p| > 0 && lo <= hi <= m <= |S|
  {
    S[..lo] + Bwd(S, p, r, lo, hi) + S[hi..m]
  }

  /** The output a left-to-right pass owes once it has read the input up to `rd`. */
  function FwdRest(S: seq<byte>, p: seq<byte>, r: seq<byte>, lo: nat, hi: nat, m: nat, rd: nat): seq<byte>
    requires |p| > 0 && lo <= hi <= m <= |S| && rd <= m
  {
    if rd <= lo then S[rd..lo] + Fwd(S, p, r, lo, hi) + S[hi..m]
    else if rd <= hi then Fwd(S, p, r, rd, hi) + S[hi..m]
    else S[rd..m]
  }

  /** Nothing is owed at the start but the whole result, nothing at the end. */
  lemma FwdRestEnds(S: seq<byte>, p: seq<byte>, r: seq<byte>, lo: nat, hi: nat, m: nat)
    requires |p| > 0 && lo <= hi < m <= |S|
    ensures FwdRest(S, p, r, lo, hi, m, 0) == Replaced(S, p, r, lo, hi, m)
    ensures FwdRest(S, p, r, lo, hi, m, m) == []
  {
    assert S[0..lo] == S[..lo];
  }

  /** The output owed from a window position `pos` up to the next occurrence `j`. */
  lemma FwdRestFind(S: seq<byte>, p: seq<byte>, r: seq<byte>, lo: nat, hi: nat, m: nat, pos: nat, j: nat)
    requires |p| > 0 && lo <= pos <= hi <= m <= |S|
    requires FirstMatch(S, p, pos, hi) == Some(j)
    ensures FwdRest(S, p, r, lo, hi, m, pos) == S[pos..j] + r + FwdRest(S, p, r, lo, hi, m, j + |p|)
    ensures CountFwd(S, p, pos, hi) == 1 + CountFwd(S, p, j + |p|, hi)
  {
    FwdUnfold(S, p, r, pos, hi, j);
    CountUnfold(S, p, pos, hi, j);
    var later, tail := Fwd(S, p, r, j + |p|, hi), S[hi..m];
    assert FwdRest(S, p, r, lo, hi, m, pos) == Fwd(S, p, r, pos, hi) + tail by {
      if pos == lo {
        EmptyFront(S[lo..lo], Fwd(S, p, r, lo, hi), tail);
      }
    }
    assert FwdRest(S, p, r, lo, hi, m, j + |p|) == later + tail;
    Regroup(S[pos..j], r, later, tail);
  }

  /** `FwdRestFind` with the position after the occurrence given a name. */
  lemma FwdRestFindTo(S: seq<byte>, p: seq<byte>, r: seq<byte>, lo: nat, hi: nat, m: nat, pos: nat, j: nat, next: nat)
    requires |p| > 0 && lo <= pos <= hi <= m <= |S|
    requires FirstMatch(S, p, pos, hi) == Some(j) && next == j + |p|
    ensures next <= hi
    ensures FwdRest(S, p, r, lo, hi, m, pos) == S[pos..j] + r + FwdRest(S, p, r, lo, hi, m, next)
  {
    FwdRestFind(S, p, r, lo, hi, m, pos, j);
    var owed := FwdRest(S, p, r, lo, hi, m, j + |p|);
    SameRest(S, p, r, lo, hi, m, next, j + |p|);
    assert FwdRest(S, p, r, lo, hi, m, pos) == S[pos..j] + r + owed;
  }

  /** Congruence for the owed output, stated on two names for one position. */
  lemma SameRest(S: seq<byte>, p: seq<byte>, r: seq<byte>, lo: nat, hi: nat, m: nat, x: nat, y: nat)
    requires |p| > 0 && lo <= hi <= m <= |S| && x <= m && x == y
    ensures FwdRest(S, p, r, lo, hi, m, x) == FwdRest(S, p, r, lo, hi, m, y)
  {
  }

  lemma Regroup(a: seq<byte>, r: seq<byte>, b: seq<byte>, c: seq<byte>)
    ensures (a + r + b) + c == a + r + (b + c)
  {
  }

  /** With no occurrence left in the window, the rest of the input is copied as it is. */
  lemma FwdRestNone(S: seq<byte>, p: seq<byte>, r: seq<byte>, lo: nat, hi: nat, m: nat, pos: nat)
    requires |p| > 0 && lo <= pos <= hi <= m <= |S|
    requires FirstMatch(S, p, pos, hi).None?
    ensures FwdRest(S, p, r, lo, hi, m, pos) == S[pos..m]
  {
    if pos == lo {
      assert S[lo..lo] == [];
    }
  }

  /** An occurrence at the read position: the replacement is owed first. */
  lemma FwdRestMatch(S: seq<byte>, p: seq<byte>, r: seq<byte>, lo: nat, hi: nat, m: nat, rd: nat)
    requires |p| > 0 && lo <= hi <= m <= |S| && rd <= m
    requires FirstMatch(S, p, Max(lo, rd), hi) == Some(rd)
    ensures FwdRest(S, p, r, lo, hi, m, rd) == r + FwdRest(S, p, r, lo, hi, m, rd + |p|)
    ensures rd + |p| <= hi
  {
    assert Max(lo, rd) == rd;
    FwdRestFind(S, p, r, lo, hi, m, rd, rd);
    var rest := FwdRest(S, p, r, lo, hi, m, rd + |p|);
    EmptyFront(S[rd..rd], r, rest);
  }

  lemma EmptyFront(e: seq<byte>, r: seq<byte>, rest: seq<byte>)
    requires |e| == 0
    ensures e + r + rest == r + rest
  {
    assert e == [];
  }

  /** No occurrence at the read position: the byte there is owed as it is. */
  lemma FwdRestSkip(S: seq<byte>, p: seq<byte>, r: seq<byte>, lo: nat, hi: nat, m: nat, rd: nat)
    requires |p| > 0 && lo <= hi <= m <= |S| && rd < m
    requires FirstMatch(S, p, Max(lo, rd), hi) != Some(rd)
    ensures FwdRest(S, p, r, lo, hi, m, rd) == [S[rd]] + FwdRest(S, p, r, lo, hi, m, rd + 1)
    ensures FirstMatch(S, p, Max(lo, rd + 1), hi) == FirstMatch(S, p, Max(lo, rd), hi)
  {
    if rd < lo {
      assert S[rd..lo] == [S[rd]] + S[rd + 1..lo];
    } else if rd < hi {
      FwdSkipInside(S, p, r, lo, hi, m, rd);
    } else {
      FwdRestPast(S, p, r, lo, hi, m, rd);
      FwdRestPast(S, p, r, lo, hi, m, rd + 1);
      assert S[rd..m] == [S[rd]] + S[rd + 1..m];
    }
  }

  lemma FwdSkipInside(S: seq<byte>, p: seq<byte>, r: seq<byte>, lo: nat, hi: nat, m: nat, rd: nat)
    requires |p| > 0 && lo <= rd < hi <= m <= |S|
    requires FirstMatch(S, p, rd, hi) != Some(rd)
    ensures FwdRest(S, p, r, lo, hi, m, rd) == [S[rd]] + FwdRest(S, p, r, lo, hi, m, rd + 1)
    ensures FirstMatch(S, p, rd + 1, hi) == FirstMatch(S, p, rd, hi)
  {
    FwdSkip(S, p, r, rd, hi);
    if FirstMatch(S, p, rd, hi).None? {
      FwdSkipNone(S, p, r, rd, hi);
    } else {
      FwdSkipSome(S, p, r, rd, hi, FirstMatch(S, p, rd, hi).value);
    }
    FwdRestInside(S, p, r, lo, hi, m, rd);
    FwdRestInside(S, p, r, lo, hi, m, rd + 1);
    PushFront(Fwd(S, p, r, rd, hi), S[rd], Fwd(S, p, r, rd + 1, hi), S[hi..m]);
  }

  /** Inside the window the owed output is the rest of the window, replaced, then the bytes after it. */
  lemma FwdRestInside(S: seq<byte>, p: seq<byte>, r: seq<byte>, lo: nat, hi: nat, m: nat, rd: nat)
    requires |p| > 0 && lo <= rd <= hi <= m <= |S|
    ensures FwdRest(S, p, r, lo, hi, m, rd) == Fwd(S, p, r, rd, hi) + S[hi..m]
  {
    if rd == lo {
      assert S[lo..lo] == [];
    }
  }

  lemma PushFront(whole: seq<byte>, x: byte, rest: seq<byte>, tail: seq<byte>)
    requires whole == [x] + rest
    ensures whole + tail == [x] + (rest + tail)
  {
  }

  /** Past the window the input is owed unchanged. */
  lemma FwdRestPast(S: seq<byte>, p: seq<byte>, r: seq<byte>, lo: nat, hi: nat, m: nat, rd: nat)
    requires |p| > 0 && lo <= hi <= rd <= m <= |S|
    ensures FwdRest(S, p, r, lo, hi, m, rd) == S[rd..m]
    ensures FirstMatch(S, p, rd, hi).None?
  {
    if rd == hi {
      assert FirstMatch(S, p, hi, hi).None?;
      assert Fwd(S, p, r, hi, hi) == [];
      assert S[hi..hi] == [];
    }
  }

  /** Moving the read position over bytes that hold no occurrence start. */
  lemma FwdRestAdvance(S: seq<byte>, p: seq<byte>, r: seq<byte>, lo: nat, hi: nat, m: nat, pos: nat, q: nat)
    requires |p| > 0 && lo <= pos <= q <= hi <= m <= |S|
    requires FirstMatch(S, p, pos, hi).None? || q <= FirstMatch(S, p, pos, hi).value
    ensures FwdRest(S, p, r, lo, hi, m, pos) == S[pos..q] + FwdRest(S, p, r, lo, hi, m, q)
  {
    FirstMatchFrom(S, p, pos, q, hi);
    if FirstMatch(S, p, pos, hi).None? {
      FwdRestNone(S, p, r, lo, hi, m, pos);
      FwdRestNone(S, p, r, lo, hi, m, q);
      assert S[pos..m] == S[pos..q] + S[q..m];
    } else {
      FwdRestAdvanceTo(S, p, r, lo, hi, m, pos, q, FirstMatch(S, p, pos, hi).value);
    }
  }

  lemma FwdRestAdvanceTo(S: seq<byte>, p: seq<byte>, r: seq<byte>, lo: nat, hi: nat, m: nat, pos: nat, q: nat, j: nat)
    requires |p| > 0 && lo <= pos <= q <= hi <= m <= |S|
    requires FirstMatch(S, p, pos, hi) == Some(j) && FirstMatch(S, p, q, hi) == Some(j)
    ensures FwdRest(S, p, r, lo, hi, m, pos) == S[pos..q] + FwdRest(S, p, r, lo, hi, m, q)
  {
    FwdRestFind(S, p, r, lo, hi, m, pos, j);
    FwdRestFind(S, p, r, lo, hi, m, q, j);
    SliceAhead(S, pos, q, j, r, FwdRest(S, p, r, lo, hi, m, j + |p|));
  }

  lemma SliceAhead(S: seq<byte>, pos: nat, q: nat, j: nat, r: seq<byte>, tail: seq<byte>)
    requires pos <= q <= j <= |S|
    ensures S[pos..j] + r + tail == S[pos..q] + (S[q..j] + r + tail)
  {
    assert S[pos..j] == S[pos..q] + S[q..j];
  }

  /** `std::copy(src.begin(), src.end(), a + at)`. */
  method CopyInto(a: array<byte>, at: nat, src: seq<byte>, ghost W: seq<byte>)
    requires at + |src| <= a.Length && a[..] == W
    modifies a
    ensures a[..] == W[..at] + src + W[at + |src|..]
  {
    var k := 0;
    while k < |src|
      invariant 0 <= k <= |src|
      invariant forall t :: 0 <= t < a.Length ==> a[t] == if at <= t < at + k then src[t - at] else W[t]
    {
      a[at + k] := src[k];
      k := k + 1;
    }
    assert a[..] == W[..at] + src + W[at + |src|..] by {
      var B := W[..at] + src + W[at + |src|..];
      assert forall t :: 0 <= t < a.Length ==> a[..][t] == B[t];
    }
  }

  /**
   * `index_of` on the buffer's live bytes: the first occurrence of `p` lying
   * wholly in the selection, or -1 when none does.
   */
  method Find(a: array<byte>, p: seq<byte>, sel: Selection, ghost W: seq<byte>) returns (found: int)
    requires sel.max <= a.Length && a[..] == W
    ensures found == IndexOr(FirstMatch(W, p, sel.min, sel.max))
    ensures found >= 0 ==> sel.min <= found && found + |p| <= sel.max && MatchAt(W, p, found)
    ensures found >= 0 ==> forall j :: sel.min <= j < found ==> !MatchAt(W, p, j)
    ensures found < 0 <==> found == -1 && forall j :: sel.min <= j && j + |p| <= sel.max ==> !MatchAt(W, p, j)
  {
    FirstMatchSpec(W, p, sel.min, sel.max);
    found := IndexOr(FirstMatch(a[..], p, sel.min, sel.max));
  }

  /** A single store `a[at] = x`, stated on the buffer's contents. */
  method Put(a: array<byte>, at: nat, x: byte, ghost W: seq<byte>)
    requires at < a.Length && a[..] == W
    modifies a
    ensures a[..] == W[at := x]
  {
    a[at] := x;
  }

  /** `std::move(a + from, a + last, a)` with from <= last: the range slides down to the front. */
  method MoveDown(a: array<byte>, from: nat, last: nat)
    requires from <= last <= a.Length
    modifies a
    ensures a[..last - from] == old(a[from..last])
    ensures a[last - from..] == old(a[last - from..])
  {
    ghost var A := a[..];
    var k := 0;
    while k < last - from
      invariant 0 <= k <= last - from
      invariant forall t {:trigger a[t]} :: 0 <= t < a.Length ==> a[t] == if t < k then A[from + t] else A[t]
    {
      assert a[from + k] == A[from + k];
      a[k] := a[from + k];
      k := k + 1;
    }
    assert a[..last - from] == A[from..last];
    assert a[last - from..] == A[last - from..];
  }

  /**
   * `data[i + delta] = data[i]` for i in [from, last), with `to = from + delta`
   * at or below `from`: the range slides down to `to`, read before it is overwritten.
   */
  method ShiftDown(a: array<byte>, from: nat, last: nat, to: nat)
    requires to <= from <= last <= a.Length
    modifies a
    ensures a[..] == old(a[..to]) + old(a[from..last]) + old(a[to + (last - from)..])
  {
    ghost var A := a[..];
    var k := 0;
    while k < last - from
      invariant 0 <= k <= last - from
      invariant forall t {:trigger a[t]} :: 0 <= t < a.Length ==> a[t] == if to <= t < to + k then A[from + t - to] else A[t]
    {
      a[to + k] := a[from + k];
      k := k + 1;
    }
    ShiftedIs(A, a[..], from, last, to);
  }

  /** Pointwise description of a range slid down in place. */
  lemma ShiftedIs(A: seq<byte>, B: seq<byte>, from: nat, last: nat, to: nat)
    requires to <= from <= last <= |A| == |B|
    requires forall t {:trigger B[t]} :: 0 <= t < |B| ==> B[t] == if to <= t < to + (last - from) then A[from + t - to] else A[t]
    ensures B == A[..to] + A[from..last] + A[to + (last - from)..]
  {
    var R := A[..to] + A[from..last] + A[to + (last - from)..];
    forall t | 0 <= t < |B| ensures B[t] == R[t] {
      if t < to {
        assert R[t] == A[..to][t];
      } else if t < to + (last - from) {
        assert R[t] == A[from..last][t - to];
      } else {
        assert R[t] == A[to + (last - from)..][t - to - (last - from)];
      }
    }
  }

  /** Pointwise description of a range reversed in place. */
  lemma ReversedRangeIs(A: seq<byte>, B: seq<byte>, lo: nat, hi: nat)
    requires lo <= hi <= |A| == |B|
    requires forall k :: 0 <= k < |A| && (k < lo || hi <= k) ==> B[k] == A[k]
    requires forall k :: lo <= k < hi ==> B[k] == A[lo + hi - 1 - k]
    ensures B == A[..lo] + Reversed(A[lo..hi]) + A[hi..]
  {
    var R := A[..lo] + Reversed(A[lo..hi]) + A[hi..];
    forall k | lo <= k < hi ensures R[k] == B[k] {
      ReversedAt(A[lo..hi], k - lo);
    }
    assert forall k :: 0 <= k < |A| ==> R[k] == B[k];
  }

  /** `codeunit_sequence::reverse` on the resolved selection [lo, hi): swap pairs from both ends inwards. */
  method ReverseRange(a: array<byte>, lo: nat, hi: nat)
    requires lo <= hi <= a.Length
    modifies a
    ensures a[..] == old(a[..lo]) + Reversed(old(a[lo..hi])) + old(a[hi..])
  {
    ghost var A := a[..];
    var size := hi - lo;
    var i := 0;
    while i < size / 2
      invariant 0 <= i <= size / 2
      invariant forall k :: 0 <= k < a.Length && (k < lo || hi <= k || lo + i <= k < hi - i) ==> a[k] == A[k]
      invariant forall k :: lo <= k < lo + i || hi - i <= k < hi ==> a[k] == A[lo + hi - 1 - k]
    {
      var forward, backward := lo + i, hi - 1 - i;
      var temp := a[forward];
      a[forward] := a[backward];
      a[backward] := temp;
      i := i + 1;
    }
    ReversedRangeIs(A, a[..], lo, hi);
  }

  /** Bytes written at the output position pay the first part of what is owed. */
  lemma Pay(done: seq<byte>, w: seq<byte>, owed: seq<byte>, rest: seq<byte>, T: seq<byte>)
    requires done + owed == T && owed == w + rest
    ensures done + w + rest == T
  {
  }

  // ---------------------------------------------------------------------------
  // The passes of `replace(pattern, replacement, range)`
  // ---------------------------------------------------------------------------

  /**
   * Pattern and replacement of equal size: overwrite each occurrence where it
   * lies, searching again after the bytes just written.
   */
  method ReplaceEqual(a: array<byte>, m: nat, p: seq<byte>, r: seq<byte>, lo: nat, hi: nat)
    requires 0 < |p| == |r| && lo <= hi < m <= a.Length
    modifies a
    ensures a[..m] == Replaced(old(a[..]), p, r, lo, hi, m)
  {
    ghost var S := a[..];
    ghost var T := Replaced(S, p, r, lo, hi, m);
    var selection := Selection(lo, hi);
    var searchRange := selection;
    // W is the buffer's contents, pos the start of the search window
    ghost var W, pos: nat := S, lo;
    assert Overwritten(S, p, r, lo, hi, m, T, W, pos) by {
      assert S[lo..lo] == [];
      OpenOverwritten(S, p, r, lo, hi, m, T, W, pos);
    }
    while true
      invariant a[..] == W && searchRange == Selection(pos, hi)
      invariant Overwritten(S, p, r, lo, hi, m, T, W, pos)
      decreases hi - pos
    {
      var index := Find(a, p, searchRange, W);
      if index == -1 {
        EqualDone(S, W, p, r, lo, hi, m, pos, T);
        break;
      }
      W, pos := EqualRound(a, m, p, r, lo, hi, pos, index, S, T, W);
      searchRange := IntersectFrom(selection, index + |r|);
    }
  }

  /**
   * The equal-size pass has produced the output owed before `pos`, and the
   * buffer still holds the input from `pos` on.
   */
  ghost predicate EqualProgress(S: seq<byte>, p: seq<byte>, r: seq<byte>, lo: nat, hi: nat, m: nat, T: seq<byte>,
                                W: seq<byte>, pos: nat)
  {
    0 < |p| == |r| && lo <= pos <= hi < m <= |S| == |W| &&
    W[..pos] + FwdRest(S, p, r, lo, hi, m, pos) == T && W[pos..] == S[pos..]
  }

  /** The state of the equal-size pass, `EqualProgress`, at any `depth`: it holds exactly when that state does. */
  ghost predicate HeldEqual(depth: nat, S: seq<byte>, p: seq<byte>, r: seq<byte>, lo: nat, hi: nat, m: nat, T: seq<byte>,
                            W: seq<byte>, pos: nat)
    decreases depth
  {
    if depth == 0 then EqualProgress(S, p, r, lo, hi, m, T, W, pos)
    else HeldEqual(depth - 1, S, p, r, lo, hi, m, T, W, pos)
  }

  /**
   * The equal-size pass has replaced every occurrence before `pos` and left
   * the rest of the buffer as it was; the same fact as `EqualProgress`
   * (`OpenOverwritten`), in the form its contracts carry.
   */
  ghost predicate Overwritten(S: seq<byte>, p: seq<byte>, r: seq<byte>, lo: nat, hi: nat, m: nat, T: seq<byte>,
                              W: seq<byte>, pos: nat)
  {
    HeldEqual(2, S, p, r, lo, hi, m, T, W, pos) == true
  }

  lemma OpenOverwritten(S: seq<byte>, p: seq<byte>, r: seq<byte>, lo: nat, hi: nat, m: nat, T: seq<byte>,
                        W: seq<byte>, pos: nat)
    ensures Overwritten(S, p, r, lo, hi, m, T, W, pos) <==> EqualProgress(S, p, r, lo, hi, m, T, W, pos)
  {
    assert HeldEqual(1, S, p, r, lo, hi, m, T, W, pos) == HeldEqual(0, S, p, r, lo, hi, m, T, W, pos);
  }

  /** Overwrite the occurrence found at `index` in place. */
  method EqualRound(a: array<byte>, m: nat, p: seq<byte>, r: seq<byte>, lo: nat, hi: nat, ghost pos: nat, index: int,
                    ghost S: seq<byte>, ghost T: seq<byte>, ghost W: seq<byte>)
    returns (ghost nW: seq<byte>, ghost npos: nat)
    requires a[..] == W && Overwritten(S, p, r, lo, hi, m, T, W, pos)
    requires index != -1 && index == IndexOr(FirstMatch(W, p, pos, hi))
    modifies a
    ensures a[..] == nW && npos == index + |p| && pos < npos <= hi && Overwritten(S, p, r, lo, hi, m, T, nW, npos)
  {
    assert FirstMatch(S, p, pos, hi) == Some(index) by {
      OpenOverwritten(S, p, r, lo, hi, m, T, W, pos);
      FirstMatchFrame(W, S, p, pos, hi);
    }
    nW := W[..index] + r + W[index + |r|..];
    CopyInto(a, index, r, W);
    npos := index + |p|;
    assert Overwritten(S, p, r, lo, hi, m, T, nW, npos) by {
      OpenOverwritten(S, p, r, lo, hi, m, T, W, pos);
      EqualStep(S, W, nW, p, r, lo, hi, m, pos, index, npos, T);
      OpenOverwritten(S, p, r, lo, hi, m, T, nW, npos);
    }
  }

  /** One overwrite of the equal-size pass keeps the owed output in step. */
  lemma EqualStep(S: seq<byte>, before: seq<byte>, after: seq<byte>, p: seq<byte>, r: seq<byte>,
                  lo: nat, hi: nat, m: nat, pos: nat, index: nat, next: nat, T: seq<byte>)
    requires 0 < |p| == |r| && lo <= pos <= hi < m <= |S| == |before|
    requires FirstMatch(S, p, pos, hi) == Some(index) && next == index + |p|
    requires before[..pos] + FwdRest(S, p, r, lo, hi, m, pos) == T
    requires before[pos..] == S[pos..]
    requires after == before[..index] + r + before[index + |r|..]
    ensures next <= hi && |after| == |S|
    ensures after[..next] + FwdRest(S, p, r, lo, hi, m, next) == T
    ensures after[next..] == S[next..]
  {
    FwdRestFindTo(S, p, r, lo, hi, m, pos, index, next);
    var owed, rest := FwdRest(S, p, r, lo, hi, m, pos), FwdRest(S, p, r, lo, hi, m, next);
    Overwrite(S, before, after, r, pos, index, next, owed, rest, T);
  }

  /** Writing `w` over the input at `index`, where the owed output continues with `w`. */
  lemma Overwrite(S: seq<byte>, before: seq<byte>, after: seq<byte>, w: seq<byte>, pos: nat, index: nat, next: nat,
                  owed: seq<byte>, rest: seq<byte>, T: seq<byte>)
    requires pos <= index && next == index + |w| <= |S| == |before|
    requires before[..pos] + owed == T && owed == S[pos..index] + w + rest
    requires before[pos..] == S[pos..]
    requires after == before[..index] + w + before[index + |w|..]
    ensures |after| == |S|
    ensures after[..next] + rest == T
    ensures after[next..] == S[next..]
  {
    assert before[pos..index] == S[pos..index];
    assert after[..next] == before[..pos] + S[pos..index] + w;
  }

  /** With no occurrence left the equal-size pass is complete. */
  lemma EqualDone(S: seq<byte>, A: seq<byte>, p: seq<byte>, r: seq<byte>, lo: nat, hi: nat, m: nat, pos: nat, T: seq<byte>)
    requires Overwritten(S, p, r, lo, hi, m, T, A, pos)
    requires FirstMatch(A, p, pos, hi).None?
    ensures A[..m] == T
  {
    OpenOverwritten(S, p, r, lo, hi, m, T, A, pos);
    FirstMatchFrame(A, S, p, pos, hi);
    FwdRestNone(S, p, r, lo, hi, m, pos);
    assert A[..m] == A[..pos] + A[pos..m];
  }

  /**
   * The same output owed, defined the way the passes produce it: one
   * replacement for an occurrence starting at the read position, otherwise
   * one byte copied.
   */
  function Owed(S: seq<byte>, p: seq<byte>, r: seq<byte>, lo: nat, hi: nat, m: nat, rd: nat): seq<byte>
    requires |p| > 0 && lo <= hi <= m <= |S| && rd <= m
    decreases m - rd
  {
    if rd == m then []
    else if FirstMatch(S, p, Max(lo, rd), hi) == Some(rd) then r + Owed(S, p, r, lo, hi, m, rd + |p|)
    else [S[rd]] + Owed(S, p, r, lo, hi, m, rd + 1)
  }

  /** Both descriptions of the owed output agree. */
  lemma {:induction false} OwedIsRest(S: seq<byte>, p: seq<byte>, r: seq<byte>, lo: nat, hi: nat, m: nat, rd: nat)
    requires |p| > 0 && lo <= hi < m <= |S| && rd <= m
    ensures Owed(S, p, r, lo, hi, m, rd) == FwdRest(S, p, r, lo, hi, m, rd)
    decreases m - rd
  {
    if rd == m {
      FwdRestEnds(S, p, r, lo, hi, m);
    } else {
      var q := if FirstMatch(S, p, Max(lo, rd), hi) == Some(rd) then rd + |p| else rd + 1;
      var w := if FirstMatch(S, p, Max(lo, rd), hi) == Some(rd) then r else [S[rd]];
      assert q <= m && Owed(S, p, r, lo, hi, m, rd) == w + Owed(S, p, r, lo, hi, m, q);
      assert FwdRest(S, p, r, lo, hi, m, rd) == w + FwdRest(S, p, r, lo, hi, m, q) by {
        if FirstMatch(S, p, Max(lo, rd), hi) == Some(rd) {
          FwdRestMatch(S, p, r, lo, hi, m, rd);
        } else {
          FwdRestSkip(S, p, r, lo, hi, m, rd);
        }
      }
      OwedIsRest(S, p, r, lo, hi, m, q);
    }
  }

  /** A left-to-right pass may begin at the first occurrence: everything before it is copied unchanged. */
  lemma FwdRestStart(S: seq<byte>, p: seq<byte>, r: seq<byte>, lo: nat, hi: nat, m: nat, f: nat)
    requires |p| > 0 && lo <= hi <= m <= |S|
    requires FirstMatch(S, p, lo, hi) == Some(f)
    ensures S[..f] + FwdRest(S, p, r, lo, hi, m, f) == Replaced(S, p, r, lo, hi, m)
    ensures FirstMatch(S, p, Max(lo, f), hi) == Some(f)
  {
    FirstMatchFrom(S, p, lo, f, hi);
    FwdRestAdvance(S, p, r, lo, hi, m, lo, f);
    var rest := FwdRest(S, p, r, lo, hi, m, f);
    assert FwdRest(S, p, r, lo, hi, m, lo) == S[lo..f] + rest;
    assert Replaced(S, p, r, lo, hi, m) == S[..lo] + FwdRest(S, p, r, lo, hi, m, lo) by {
      EmptyFront(S[lo..lo], Fwd(S, p, r, lo, hi), S[hi..m]);
    }
    JoinAt(S, lo, f, rest);
  }

  lemma JoinAt(S: seq<byte>, lo: nat, f: nat, rest: seq<byte>)
    requires lo <= f <= |S|
    ensures S[..lo] + (S[lo..f] + rest) == S[..f] + rest
  {
    assert S[..f] == S[..lo] + S[lo..f];
  }

  /** Whatever is owed ends with the bytes after the window, so it is empty only at the end. */
  lemma FwdRestNonEmpty(S: seq<byte>, p: seq<byte>, r: seq<byte>, lo: nat, hi: nat, m: nat, rd: nat)
    requires |p| > 0 && lo <= hi < m <= |S| && rd <= m
    ensures FwdRest(S, p, r, lo, hi, m, rd) == [] <==> rd == m
  {
    FwdRestEnds(S, p, r, lo, hi, m);
    if rd < m {
      var tail := if rd <= hi then S[hi..m] else S[rd..m];
      assert |tail| > 0;
    }
  }

  /** The length of the result of a left-to-right pass. */
  lemma ReplacedLength(S: seq<byte>, p: seq<byte>, r: seq<byte>, lo: nat, hi: nat, m: nat)
    requires |p| > 0 && lo <= hi <= m <= |S|
    ensures |Replaced(S, p, r, lo, hi, m)| == m + CountFwd(S, p, lo, hi) * (|r| - |p|)
  {
    FwdLength(S, p, r, lo, hi);
  }

  /** Searching a buffer whose bytes from `i` on are still the input's. */
  lemma SearchUntouched(A: seq<byte>, S: seq<byte>, p: seq<byte>, i: nat, lo: nat, hi: nat)
    requires i <= lo <= hi <= |S| == |A| && A[i..] == S[i..]
    ensures FirstMatch(A, p, lo, hi) == FirstMatch(S, p, lo, hi)
  {
    assert forall k :: lo <= k < hi ==> A[k] == A[i..][k - i];
    FirstMatchFrame(A, S, p, lo, hi);
  }

  /** Writing `w` at the output position `i`, where the owed output starts with `w`. */
  lemma Emit(S: seq<byte>, before: seq<byte>, after: seq<byte>, w: seq<byte>, i: nat,
             owed: seq<byte>, rest: seq<byte>, T: seq<byte>)
    requires i + |w| <= |S| == |before|
    requires before[..i] + owed == T && owed == w + rest
    requires before[i..] == S[i..]
    requires after == before[..i] + w + before[i + |w|..]
    ensures after[..i + |w|] + rest == T
    ensures after[i + |w|..] == S[i + |w|..]
  {
    assert after[..i + |w|] == before[..i] + w;
  }

  /** Writing the single byte `x` at the output position `i`. */
  lemma EmitByte(S: seq<byte>, before: seq<byte>, after: seq<byte>, x: byte, i: nat,
                 owed: seq<byte>, rest: seq<byte>, T: seq<byte>)
    requires i < |S| == |before|
    requires before[..i] + owed == T && owed == [x] + rest
    requires before[i..] == S[i..]
    requires after == before[i := x]
    ensures after[..i + 1] + rest == T
    ensures after[i + 1..] == S[i + 1..]
  {
    assert after[..i + 1] == before[..i] + [x];
    assert after[i + 1..] == before[i + 1..];
  }

  /**
   * The state of a left-to-right pass: the output written so far (`W[..i]`)
   * followed by what is still owed from the read position `rd` is the result
   * `T`; the buffer from `i` on still holds the input; `found` is the next
   * occurrence at or after `rd`, as `index_of` reports it.
   */
  ghost predicate Progress(S: seq<byte>, p: seq<byte>, r: seq<byte>, lo: nat, hi: nat, m: nat, T: seq<byte>,
                           W: seq<byte>, i: int, rd: int, found: int)
  {
    |p| > 0 && lo <= hi < m <= |S| && |W| == |S| && 0 <= i <= rd <= m && i <= |T| &&
    W[..i] + Owed(S, p, r, lo, hi, m, rd) == T && W[i..] == S[i..] &&
    found == IndexOr(FirstMatch(S, p, Max(lo, rd), hi))
  }

  /** The state of a left-to-right pass, `Progress`, at any `depth`: it holds exactly when that state does. */
  ghost predicate Kept(depth: nat, S: seq<byte>, p: seq<byte>, r: seq<byte>, lo: nat, hi: nat, m: nat, T: seq<byte>,
                       W: seq<byte>, i: int, rd: int, found: int)
    decreases depth
  {
    if depth == 0 then Progress(S, p, r, lo, hi, m, T, W, i, rd, found)
    else Kept(depth - 1, S, p, r, lo, hi, m, T, W, i, rd, found)
  }

  /**
   * A left-to-right pass has written the output for the input before `rd`
   * into `W[..i]`, left the input from `i` on in place and found the next
   * occurrence at `found`; the same fact as `Progress` (`Open`), in the form
   * the passes' contracts and loop invariants carry.
   */
  ghost predicate Sealed(S: seq<byte>, p: seq<byte>, r: seq<byte>, lo: nat, hi: nat, m: nat, T: seq<byte>,
                         W: seq<byte>, i: int, rd: int, found: int)
  {
    Kept(2, S, p, r, lo, hi, m, T, W, i, rd, found) == true
  }

  lemma Open(S: seq<byte>, p: seq<byte>, r: seq<byte>, lo: nat, hi: nat, m: nat, T: seq<byte>,
             W: seq<byte>, i: int, rd: int, found: int)
    ensures Sealed(S, p, r, lo, hi, m, T, W, i, rd, found) <==> Progress(S, p, r, lo, hi, m, T, W, i, rd, found)
  {
    assert Kept(1, S, p, r, lo, hi, m, T, W, i, rd, found) == Kept(0, S, p, r, lo, hi, m, T, W, i, rd, found);
  }

  /** The shrinking pass starts at the first occurrence, with everything before it already in place. */
  lemma ProgressStart(S: seq<byte>, p: seq<byte>, r: seq<byte>, lo: nat, hi: nat, m: nat, f: nat)
    requires |p| > 0 && lo <= hi < m <= |S| && FirstMatch(S, p, lo, hi) == Some(f)
    ensures Sealed(S, p, r, lo, hi, m, Replaced(S, p, r, lo, hi, m), S, f, f, f)
  {
    FwdRestStart(S, p, r, lo, hi, m, f);
    OwedIsRest(S, p, r, lo, hi, m, f);
    Open(S, p, r, lo, hi, m, Replaced(S, p, r, lo, hi, m), S, f, f, f);
  }

  /** Output still owed means input still unread. */
  lemma ProgressUnread(S: seq<byte>, p: seq<byte>, r: seq<byte>, lo: nat, hi: nat, m: nat, T: seq<byte>,
                       W: seq<byte>, i: int, rd: int, found: int)
    requires Sealed(S, p, r, lo, hi, m, T, W, i, rd, found)
    ensures i < |T| <==> rd < m
  {
    Open(S, p, r, lo, hi, m, T, W, i, rd, found);
    OwedIsRest(S, p, r, lo, hi, m, rd);
    FwdRestNonEmpty(S, p, r, lo, hi, m, rd);
  }

  /** An occurrence at the read position: write the replacement and search again after the occurrence. */
  lemma ProgressMatch(S: seq<byte>, p: seq<byte>, r: seq<byte>, lo: nat, hi: nat, m: nat, T: seq<byte>,
                      W: seq<byte>, B: seq<byte>, i: int, rd: int, next: int)
    requires Sealed(S, p, r, lo, hi, m, T, W, i, rd, rd) && |r| <= |p|
    ensures i + |r| <= |W| && rd + |p| <= hi
    ensures B == W[..i] + r + W[i + |r|..] && next == IndexOr(FirstMatch(B, p, Max(lo, rd + |p|), hi)) ==>
      Sealed(S, p, r, lo, hi, m, T, B, i + |r|, rd + |p|, next)
  {
    Open(S, p, r, lo, hi, m, T, W, i, rd, rd);
    var fm := FirstMatch(S, p, Max(lo, rd), hi);
    assert fm == Some(rd);
    var owed := Owed(S, p, r, lo, hi, m, rd);
    var rest := Owed(S, p, r, lo, hi, m, rd + |p|);
    assert owed == r + rest;
    if B == W[..i] + r + W[i + |r|..] && next == IndexOr(FirstMatch(B, p, Max(lo, rd + |p|), hi)) {
      Emit(S, W, B, r, i, owed, rest, T);
      SearchUntouched(B, S, p, i + |r|, Max(lo, rd + |p|), hi);
      Open(S, p, r, lo, hi, m, T, B, i + |r|, rd + |p|, next);
    }
  }

  /** No occurrence at the read position: copy the byte there down to the writing position. */
  lemma ProgressSkip(S: seq<byte>, p: seq<byte>, r: seq<byte>, lo: nat, hi: nat, m: nat, T: seq<byte>,
                     W: seq<byte>, B: seq<byte>, i: int, rd: int, found: int)
    requires Sealed(S, p, r, lo, hi, m, T, W, i, rd, found) && rd < m && found != rd
    ensures i < |T| && 0 <= i <= rd < |W|
    ensures B == W[i := W[rd]] ==> Sealed(S, p, r, lo, hi, m, T, B, i + 1, rd + 1, found)
  {
    ProgressUnread(S, p, r, lo, hi, m, T, W, i, rd, found);
    Open(S, p, r, lo, hi, m, T, W, i, rd, found);
    if B == W[i := W[rd]] {
      var owed := Owed(S, p, r, lo, hi, m, rd);
      var rest := Owed(S, p, r, lo, hi, m, rd + 1);
      assert owed == [S[rd]] + rest;
      assert W[rd] == W[i..][rd - i];
      EmitByte(S, W, B, S[rd], i, owed, rest, T);
      FirstMatchPast(S, p, lo, hi, rd);
      Open(S, p, r, lo, hi, m, T, B, i + 1, rd + 1, found);
    }
  }

  /** All input read: the buffer holds the result. */
  lemma ProgressDone(S: seq<byte>, p: seq<byte>, r: seq<byte>, lo: nat, hi: nat, m: nat, T: seq<byte>,
                     W: seq<byte>, i: int, rd: int, found: int)
    requires Sealed(S, p, r, lo, hi, m, T, W, i, rd, found) && i == |T|
    ensures W[..i] == T
  {
    ProgressUnread(S, p, r, lo, hi, m, T, W, i, rd, found);
    Open(S, p, r, lo, hi, m, T, W, i, rd, found);
    assert Owed(S, p, r, lo, hi, m, rd) == [];
  }

  /**
   * One occurrence at the reading position `rd == i + offset`: write the
   * replacement at `i`, move both positions past it and search again from the
   * new reading position.
   */
  method ShrinkMatch(a: array<byte>, m: nat, p: seq<byte>, r: seq<byte>, lo: nat, hi: nat, i: nat, offset: nat,
                     ghost rd: nat, ghost S: seq<byte>, ghost T: seq<byte>, ghost W: seq<byte>)
    returns (ni: nat, noffset: nat, nfound: int, ghost nrd: nat, ghost nW: seq<byte>)
    requires |r| < |p| && a[..] == W && rd == i + offset && Sealed(S, p, r, lo, hi, m, T, W, i, rd, rd)
    modifies a
    ensures a[..] == nW && nrd == ni + noffset && Sealed(S, p, r, lo, hi, m, T, nW, ni, nrd, nfound)
    ensures rd < nrd <= hi && i <= ni
  {
    nW := ShrinkCopy(a, m, p, r, lo, hi, i, rd, S, T, W);
    ni := i + |r|;
    noffset := offset + (|p| - |r|);
    nrd := rd + |p|;
    assert ni + noffset == nrd;
    var nextRange := IntersectFrom(Selection(lo, hi), ni + noffset);
    assert nextRange == Selection(Max(lo, nrd), hi);
    nfound := IndexOr(FirstMatch(a[..], p, nextRange.min, nextRange.max));
    assert Sealed(S, p, r, lo, hi, m, T, nW, ni, nrd, nfound) by {
      ProgressMatch(S, p, r, lo, hi, m, T, W, nW, i, rd, nfound);
    }
  }

  /** Write the replacement over the front of an occurrence at the reading position. */
  method ShrinkCopy(a: array<byte>, m: nat, p: seq<byte>, r: seq<byte>, lo: nat, hi: nat, i: nat,
                    ghost rd: nat, ghost S: seq<byte>, ghost T: seq<byte>, ghost W: seq<byte>)
    returns (ghost nW: seq<byte>)
    requires |r| < |p| && a[..] == W && Sealed(S, p, r, lo, hi, m, T, W, i, rd, rd)
    modifies a
    ensures i + |r| <= |W| && rd + |p| <= hi
    ensures nW == W[..i] + r + W[i + |r|..] && a[..] == nW
  {
    assert i + |r| <= |W| && rd + |p| <= hi by {
      ProgressMatch(S, p, r, lo, hi, m, T, W, W, i, rd, 0);
    }
    nW := W[..i] + r + W[i + |r|..];
    CopyInto(a, i, r, W);
  }

  /** No occurrence at the reading position: move its byte down to `i`. */
  method ShrinkSkip(a: array<byte>, m: nat, p: seq<byte>, r: seq<byte>, lo: nat, hi: nat, i: nat, offset: nat, found: int,
                    ghost rd: nat, ghost S: seq<byte>, ghost T: seq<byte>, ghost W: seq<byte>)
    returns (ghost nW: seq<byte>)
    requires a[..] == W && rd == i + offset && Sealed(S, p, r, lo, hi, m, T, W, i, rd, found)
    requires rd < m && found != rd
    modifies a
    ensures a[..] == nW && Sealed(S, p, r, lo, hi, m, T, nW, i + 1, rd + 1, found)
    ensures i < |T|
  {
    assert i < |T| && rd < |W| by {
      ProgressSkip(S, p, r, lo, hi, m, T, W, W, i, rd, found);
    }
    nW := W[i := W[rd]];
    Put(a, i, a[i + offset], W);
    assert Sealed(S, p, r, lo, hi, m, T, nW, i + 1, rd + 1, found) by {
      ProgressSkip(S, p, r, lo, hi, m, T, W, nW, i, rd, found);
    }
  }

  /** Copy the replacement for every occurrence met at the reading position. */
  method ShrinkMatches(a: array<byte>, m: nat, p: seq<byte>, r: seq<byte>, lo: nat, hi: nat, i: nat, offset: nat, found: int,
                       ghost rd: nat, ghost S: seq<byte>, ghost T: seq<byte>, ghost W: seq<byte>)
    returns (ni: nat, noffset: nat, nfound: int, ghost nrd: nat, ghost nW: seq<byte>)
    requires |r| < |p| && a[..] == W && rd == i + offset && Sealed(S, p, r, lo, hi, m, T, W, i, rd, found)
    requires rd < m
    modifies a
    ensures a[..] == nW && nrd == ni + noffset && Sealed(S, p, r, lo, hi, m, T, nW, ni, nrd, nfound)
    ensures i <= ni && nrd < m && nfound != nrd
  {
    ni, noffset, nfound, nrd, nW := i, offset, found, rd, W;
    while ni + noffset == nfound
      invariant a[..] == nW && nrd == ni + noffset && Sealed(S, p, r, lo, hi, m, T, nW, ni, nrd, nfound)
      invariant i <= ni && nrd < m
      decreases m - nrd
    {
      ni, noffset, nfound, nrd, nW := ShrinkMatch(a, m, p, r, lo, hi, ni, noffset, nrd, S, T, nW);
    }
  }

  /**
   * One step of the compaction: copy every occurrence met at the reading
   * position, then move the byte that follows them down to `i`.
   */
  method ShrinkRound(a: array<byte>, m: nat, p: seq<byte>, r: seq<byte>, lo: nat, hi: nat, i: nat, offset: nat, found: int,
                     ghost rd: nat, ghost S: seq<byte>, ghost T: seq<byte>, ghost W: seq<byte>)
    returns (ni: nat, noffset: nat, nfound: int, ghost nrd: nat, ghost nW: seq<byte>)
    requires |r| < |p| && a[..] == W && rd == i + offset && Sealed(S, p, r, lo, hi, m, T, W, i, rd, found)
    requires i < |T|
    modifies a
    ensures a[..] == nW && nrd == ni + noffset && Sealed(S, p, r, lo, hi, m, T, nW, ni, nrd, nfound)
    ensures i < ni
  {
    assert rd < m by {
      ProgressUnread(S, p, r, lo, hi, m, T, W, i, rd, found);
    }
    ni, noffset, nfound, nrd, nW := ShrinkMatches(a, m, p, r, lo, hi, i, offset, found, rd, S, T, W);
    nW := ShrinkSkip(a, m, p, r, lo, hi, ni, noffset, nfound, nrd, S, T, nW);
    ni, nrd := ni + 1, nrd + 1;
  }

  /**
   * Replacement shorter than the pattern: compact the buffer in place from the
   * first occurrence on, reading `offset` bytes ahead of the writing position.
   * The terminator at `m - 1` moves down with the rest.
   */
  method ReplaceShrink(a: array<byte>, m: nat, p: seq<byte>, r: seq<byte>, lo: nat, hi: nat, answer: nat, ghost S: seq<byte>)
    requires a[..] == S && 0 < |p| && |r| < |p| && lo <= hi < m <= a.Length
    requires FirstMatch(S, p, lo, hi).Some?
    requires answer < m && answer + 1 == |Replaced(S, p, r, lo, hi, m)|
    modifies a
    ensures a[..][..answer + 1] == Replaced(S, p, r, lo, hi, m)
  {
    ghost var T := Replaced(S, p, r, lo, hi, m);
    var found := Find(a, p, Selection(lo, hi), S);
    var offset := 0;
    var i: nat := found;
    // W is the buffer's contents, rd the reading position i + offset
    ghost var W, rd: nat := S, i;
    assert Sealed(S, p, r, lo, hi, m, T, W, i, rd, found) by {
      ProgressStart(S, p, r, lo, hi, m, i);
    }
    while i <= answer
      invariant a[..] == W && rd == i + offset && Sealed(S, p, r, lo, hi, m, T, W, i, rd, found)
      decreases answer + 1 - i
    {
      i, offset, found, rd, W := ShrinkRound(a, m, p, r, lo, hi, i, offset, found, rd, S, T, W);
    }
    assert W[..answer + 1] == T by {
      ProgressDone(S, p, r, lo, hi, m, T, W, i, rd, found);
    }
  }

  /** Reading past a position that holds no occurrence start leaves the next search result unchanged. */
  lemma FirstMatchPast(S: seq<byte>, p: seq<byte>, lo: nat, hi: nat, rd: nat)
    requires hi <= |S|
    requires FirstMatch(S, p, Max(lo, rd), hi) != Some(rd)
    ensures FirstMatch(S, p, Max(lo, rd + 1), hi) == FirstMatch(S, p, Max(lo, rd), hi)
  {
    FirstMatchFrom(S, p, Max(lo, rd), Max(lo, rd + 1), hi);
  }

  // ---------------------------------------------------------------------------
  // Growing into a new buffer: the input stays where it is and is read from
  // position `rd`, the output is written into `dst` at `i >= rd`.

  /**
   * The state of the reallocating pass: the output written so far (`D[..i]`)
   * followed by what is still owed from `rd` is the result `T`, and `found` is
   * the next occurrence at or after `rd`.
   */
  ghost predicate GrowProgress(S: seq<byte>, p: seq<byte>, r: seq<byte>, lo: nat, hi: nat, m: nat, T: seq<byte>,
                               D: seq<byte>, i: int, rd: int, found: int)
  {
    |p| > 0 && lo <= hi < m <= |S| && 0 <= rd <= m && 0 <= i <= |D| && |T| <= |D| &&
    D[..i] + Owed(S, p, r, lo, hi, m, rd) == T &&
    found == IndexOr(FirstMatch(S, p, Max(lo, rd), hi))
  }

  /** The state of the rebuilding pass, `GrowProgress`, at any `depth`: it holds exactly when that state does. */
  ghost predicate KeptGrow(depth: nat, S: seq<byte>, p: seq<byte>, r: seq<byte>, lo: nat, hi: nat, m: nat, T: seq<byte>,
                           D: seq<byte>, i: int, rd: int, found: int)
    decreases depth
  {
    if depth == 0 then GrowProgress(S, p, r, lo, hi, m, T, D, i, rd, found)
    else KeptGrow(depth - 1, S, p, r, lo, hi, m, T, D, i, rd, found)
  }

  /**
   * The rebuilding pass has written into the new block `D[..i]` the output
   * for the input before `rd`; the same fact as `GrowProgress` (`OpenGrown`),
   * in the form its contracts carry.
   */
  ghost predicate Grown(S: seq<byte>, p: seq<byte>, r: seq<byte>, lo: nat, hi: nat, m: nat, T: seq<byte>,
                        D: seq<byte>, i: int, rd: int, found: int)
  {
    KeptGrow(2, S, p, r, lo, hi, m, T, D, i, rd, found) == true
  }

  lemma OpenGrown(S: seq<byte>, p: seq<byte>, r: seq<byte>, lo: nat, hi: nat, m: nat, T: seq<byte>,
                  D: seq<byte>, i: int, rd: int, found: int)
    ensures Grown(S, p, r, lo, hi, m, T, D, i, rd, found) <==> GrowProgress(S, p, r, lo, hi, m, T, D, i, rd, found)
  {
    assert KeptGrow(1, S, p, r, lo, hi, m, T, D, i, rd, found) == KeptGrow(0, S, p, r, lo, hi, m, T, D, i, rd, found);
  }

  /** Writing `w` at `i` into a buffer whose first `i` bytes are output already. */
  lemma Fill(before: seq<byte>, after: seq<byte>, w: seq<byte>, i: nat, owed: seq<byte>, rest: seq<byte>, T: seq<byte>)
    requires i + |w| <= |before|
    requires before[..i] + owed == T && owed == w + rest
    requires after == before[..i] + w + before[i + |w|..]
    ensures after[..i + |w|] + rest == T
  {
    assert after[..i + |w|] == before[..i] + w;
  }

  /** Writing the single byte `x` at `i`. */
  lemma FillByte(before: seq<byte>, after: seq<byte>, x: byte, i: nat, owed: seq<byte>, rest: seq<byte>, T: seq<byte>)
    requires i < |before|
    requires before[..i] + owed == T && owed == [x] + rest
    requires after == before[i := x]
    ensures after[..i + 1] + rest == T
  {
    assert after[..i + 1] == before[..i] + [x];
  }

  /** The reallocating pass starts at the front of both buffers with the whole result owed. */
  lemma GrowStart(S: seq<byte>, p: seq<byte>, r: seq<byte>, lo: nat, hi: nat, m: nat, T: seq<byte>, D: seq<byte>, found: int)
    requires |p| > 0 && lo <= hi < m <= |S| && T == Replaced(S, p, r, lo, hi, m) && |T| <= |D|
    requires found == IndexOr(FirstMatch(S, p, lo, hi))
    ensures Grown(S, p, r, lo, hi, m, T, D, 0, 0, found)
  {
    FwdRestEnds(S, p, r, lo, hi, m);
    OwedIsRest(S, p, r, lo, hi, m, 0);
    assert D[..0] == [];
    assert Max(lo, 0) == lo;
    OpenGrown(S, p, r, lo, hi, m, T, D, 0, 0, found);
  }

  /** Output still owed means input still unread. */
  lemma GrowUnread(S: seq<byte>, p: seq<byte>, r: seq<byte>, lo: nat, hi: nat, m: nat, T: seq<byte>,
                   D: seq<byte>, i: int, rd: int, found: int)
    requires Grown(S, p, r, lo, hi, m, T, D, i, rd, found)
    ensures i <= |T| && (i < |T| <==> rd < m)
  {
    OpenGrown(S, p, r, lo, hi, m, T, D, i, rd, found);
    OwedIsRest(S, p, r, lo, hi, m, rd);
    FwdRestNonEmpty(S, p, r, lo, hi, m, rd);
  }

  /** An occurrence at the read position: write the replacement and search again after the occurrence. */
  lemma GrowMatch(S: seq<byte>, p: seq<byte>, r: seq<byte>, lo: nat, hi: nat, m: nat, T: seq<byte>,
                  D: seq<byte>, B: seq<byte>, i: int, rd: int, next: int)
    requires Grown(S, p, r, lo, hi, m, T, D, i, rd, rd)
    ensures 0 <= i && i + |r| <= |D| && rd + |p| <= hi
    ensures B == D[..i] + r + D[i + |r|..] && next == IndexOr(FirstMatch(S, p, Max(lo, rd + |p|), hi)) ==>
      Grown(S, p, r, lo, hi, m, T, B, i + |r|, rd + |p|, next)
  {
    OpenGrown(S, p, r, lo, hi, m, T, D, i, rd, rd);
    var fm := FirstMatch(S, p, Max(lo, rd), hi);
    assert fm == Some(rd);
    var owed := Owed(S, p, r, lo, hi, m, rd);
    var rest := Owed(S, p, r, lo, hi, m, rd + |p|);
    assert owed == r + rest;
    assert |D[..i] + owed| == |T|;
    if B == D[..i] + r + D[i + |r|..] && next == IndexOr(FirstMatch(S, p, Max(lo, rd + |p|), hi)) {
      Fill(D, B, r, i, owed, rest, T);
      OpenGrown(S, p, r, lo, hi, m, T, B, i + |r|, rd + |p|, next);
    }
  }

  /** No occurrence at the read position: copy the byte there to the writing position. */
  lemma GrowSkip(S: seq<byte>, p: seq<byte>, r: seq<byte>, lo: nat, hi: nat, m: nat, T: seq<byte>,
                 D: seq<byte>, B: seq<byte>, i: int, rd: int, found: int)
    requires Grown(S, p, r, lo, hi, m, T, D, i, rd, found) && rd < m && found != rd
    ensures 0 <= i < |T| <= |D| && 0 <= rd < |S|
    ensures B == D[i := S[rd]] ==> Grown(S, p, r, lo, hi, m, T, B, i + 1, rd + 1, found)
  {
    GrowUnread(S, p, r, lo, hi, m, T, D, i, rd, found);
    OpenGrown(S, p, r, lo, hi, m, T, D, i, rd, found);
    if B == D[i := S[rd]] {
      var owed := Owed(S, p, r, lo, hi, m, rd);
      var rest := Owed(S, p, r, lo, hi, m, rd + 1);
      assert owed == [S[rd]] + rest;
      FillByte(D, B, S[rd], i, owed, rest, T);
      FirstMatchPast(S, p, lo, hi, rd);
      OpenGrown(S, p, r, lo, hi, m, T, B, i + 1, rd + 1, found);
    }
  }

  /** All input read: the new buffer holds the result. */
  lemma GrowDone(S: seq<byte>, p: seq<byte>, r: seq<byte>, lo: nat, hi: nat, m: nat, T: seq<byte>,
                 D: seq<byte>, i: int, rd: int, found: int)
    requires Grown(S, p, r, lo, hi, m, T, D, i, rd, found) && i == |T|
    ensures D[..i] == T
  {
    GrowUnread(S, p, r, lo, hi, m, T, D, i, rd, found);
    OpenGrown(S, p, r, lo, hi, m, T, D, i, rd, found);
    assert Owed(S, p, r, lo, hi, m, rd) == [];
  }

  /** Write the replacement for the occurrence at the reading position. */
  method GrowCopy(dst: array<byte>, m: nat, p: seq<byte>, r: seq<byte>, lo: nat, hi: nat, i: nat,
                  ghost rd: nat, ghost S: seq<byte>, ghost T: seq<byte>, ghost D: seq<byte>)
    returns (ghost nD: seq<byte>)
    requires dst[..] == D && Grown(S, p, r, lo, hi, m, T, D, i, rd, rd)
    modifies dst
    ensures i + |r| <= |D| && rd + |p| <= hi
    ensures nD == D[..i] + r + D[i + |r|..] && dst[..] == nD
  {
    assert i + |r| <= |D| && rd + |p| <= hi by {
      GrowMatch(S, p, r, lo, hi, m, T, D, D, i, rd, 0);
    }
    nD := D[..i] + r + D[i + |r|..];
    CopyInto(dst, i, r, D);
  }

  /** One occurrence at the reading position `rd == i + offset`, with `offset <= 0`. */
  method GrowMatchStep(a: array<byte>, dst: array<byte>, m: nat, p: seq<byte>, r: seq<byte>, lo: nat, hi: nat,
                       i: nat, offset: int, ghost rd: nat, ghost S: seq<byte>, ghost T: seq<byte>, ghost D: seq<byte>)
    returns (ni: nat, noffset: int, nfound: int, ghost nrd: nat, ghost nD: seq<byte>)
    requires a != dst && a[..] == S && hi <= a.Length && dst[..] == D
    requires rd == i + offset && Grown(S, p, r, lo, hi, m, T, D, i, rd, rd)
    modifies dst
    ensures a[..] == S && dst[..] == nD
    ensures nrd == ni + noffset && Grown(S, p, r, lo, hi, m, T, nD, ni, nrd, nfound)
    ensures rd < nrd <= hi && i <= ni
  {
    nD := GrowCopy(dst, m, p, r, lo, hi, i, rd, S, T, D);
    ni := i + |r|;
    noffset := offset - (|r| - |p|);
    nrd := rd + |p|;
    assert ni + noffset == nrd;
    var nextRange := IntersectFrom(Selection(lo, hi), ni + noffset);
    assert nextRange == Selection(Max(lo, nrd), hi);
    nfound := Find(a, p, nextRange, S);
    assert Grown(S, p, r, lo, hi, m, T, nD, ni, nrd, nfound) by {
      GrowMatch(S, p, r, lo, hi, m, T, D, nD, i, rd, nfound);
    }
  }

  /** Copy the replacement for every occurrence met at the reading position. */
  method GrowMatches(a: array<byte>, dst: array<byte>, m: nat, p: seq<byte>, r: seq<byte>, lo: nat, hi: nat,
                     i: nat, offset: int, found: int,
                     ghost rd: nat, ghost S: seq<byte>, ghost T: seq<byte>, ghost D: seq<byte>)
    returns (ni: nat, noffset: int, nfound: int, ghost nrd: nat, ghost nD: seq<byte>)
    requires a != dst && a[..] == S && hi <= a.Length && dst[..] == D
    requires rd == i + offset && Grown(S, p, r, lo, hi, m, T, D, i, rd, found) && rd < m
    modifies dst
    ensures a[..] == S && dst[..] == nD
    ensures nrd == ni + noffset && Grown(S, p, r, lo, hi, m, T, nD, ni, nrd, nfound)
    ensures i <= ni && nrd < m && nfound != nrd
  {
    ni, noffset, nfound, nrd, nD := i, offset, found, rd, D;
    while ni + noffset == nfound
      invariant a[..] == S && dst[..] == nD
      invariant nrd == ni + noffset && Grown(S, p, r, lo, hi, m, T, nD, ni, nrd, nfound)
      invariant i <= ni && nrd < m
      decreases m - nrd
    {
      ni, noffset, nfound, nrd, nD := GrowMatchStep(a, dst, m, p, r, lo, hi, ni, noffset, nrd, S, T, nD);
    }
  }

  /** One step of the reallocating pass: the occurrences at the reading position, then one byte. */
  method GrowRound(a: array<byte>, dst: array<byte>, m: nat, p: seq<byte>, r: seq<byte>, lo: nat, hi: nat,
                   i: nat, offset: int, found: int,
                   ghost rd: nat, ghost S: seq<byte>, ghost T: seq<byte>, ghost D: seq<byte>)
    returns (ni: nat, noffset: int, nfound: int, ghost nrd: nat, ghost nD: seq<byte>)
    requires a != dst && a[..] == S && hi <= a.Length && dst[..] == D
    requires rd == i + offset && Grown(S, p, r, lo, hi, m, T, D, i, rd, found) && i < |T|
    modifies dst
    ensures a[..] == S && dst[..] == nD
    ensures nrd == ni + noffset && Grown(S, p, r, lo, hi, m, T, nD, ni, nrd, nfound)
    ensures i < ni
  {
    assert rd < m by {
      GrowUnread(S, p, r, lo, hi, m, T, D, i, rd, found);
    }
    ni, noffset, nfound, nrd, nD := GrowMatches(a, dst, m, p, r, lo, hi, i, offset, found, rd, S, T, D);
    assert 0 <= ni < |T| <= |nD| && 0 <= nrd < |S| by {
      GrowSkip(S, p, r, lo, hi, m, T, nD, nD, ni, nrd, nfound);
    }
    ghost var B := nD[ni := S[nrd]];
    assert Grown(S, p, r, lo, hi, m, T, B, ni + 1, nrd + 1, nfound) by {
      GrowSkip(S, p, r, lo, hi, m, T, nD, B, ni, nrd, nfound);
    }
    Put(dst, ni, a[ni + noffset], nD);
    ni, nrd, nD := ni + 1, nrd + 1, B;
  }

  /**
   * Replacement longer than the pattern and the capacity too small: build the
   * result in the new buffer `dst`, reading the input `offset <= 0` bytes
   * behind the writing position. The terminator at `m - 1` is copied last.
   */
  method ReplaceGrow(a: array<byte>, dst: array<byte>, m: nat, p: seq<byte>, r: seq<byte>, lo: nat, hi: nat,
                     answer: nat, ghost S: seq<byte>)
    requires a != dst && a[..] == S && 0 < |p| && lo <= hi < m <= a.Length
    requires answer < dst.Length && answer + 1 == |Replaced(S, p, r, lo, hi, m)|
    modifies dst
    ensures a[..] == S
    ensures dst[..answer + 1] == Replaced(S, p, r, lo, hi, m)
  {
    ghost var T := Replaced(S, p, r, lo, hi, m);
    var found := Find(a, p, Selection(lo, hi), S);
    var offset := 0;
    var i: nat := 0;
    // D is the new buffer's contents, rd the reading position i + offset
    ghost var D, rd: nat := dst[..], 0;
    assert Grown(S, p, r, lo, hi, m, T, D, i, rd, found) by {
      GrowStart(S, p, r, lo, hi, m, T, D, found);
    }
    while i <= answer
      invariant a[..] == S && dst[..] == D
      invariant rd == i + offset && Grown(S, p, r, lo, hi, m, T, D, i, rd, found)
      decreases answer + 1 - i
    {
      i, offset, found, rd, D := GrowRound(a, dst, m, p, r, lo, hi, i, offset, found, rd, S, T, D);
    }
    assert D[..answer + 1] == T by {
      GrowUnread(S, p, r, lo, hi, m, T, D, i, rd, found);
      GrowDone(S, p, r, lo, hi, m, T, D, i, rd, found);
    }
  }
}
