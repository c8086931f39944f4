/**
 * The fourth pass of `codeunit_sequence::replace(pattern, replacement, range)`
 * (source/text.cpp): a replacement longer than the pattern that still fits the
 * capacity is written in place from the back. The pass reads the input from
 * right to left, `offset > 0` bytes below the writing position, and finds the
 * occurrences with `last_index_of`, so it picks them from the right and
 * produces `ReplacedBwd`.
 *
 * Positions are kept as exclusive ends: the output still to be written is
 * `[0, j)` with `j = i + 1` for the loop index `i`, and the input still unread
 * is `[0, e)` with `e = j - offset`.
 */
module BackwardPass {
  import opened Common
  import opened View
  import opened IndexInterval
  import opened Passes

  /** An occurrence picked from the right in the window cut at `e` ends exactly at `e`. */
  predicate EndsAt(S: seq<byte>, p: seq<byte>, lo: nat, hi: nat, e: nat)
    requires hi <= |S|
  {
    var l := LastMatch(S, p, lo, Min(hi, e));
    l.Some? && l.value + |p| == e
  }

  /**
   * The output owed for the input prefix `S[..e]`: the right-to-left result
   * of that prefix, built the way the pass builds it, one occurrence or one
   * byte at a time from the right.
   */
  function OwedBwd(S: seq<byte>, p: seq<byte>, r: seq<byte>, lo: nat, hi: nat, e: nat): seq<byte>
    requires |p| > 0 && lo <= hi <= |S| && e <= |S|
    decreases e
  {
    if e == 0 then []
    else if EndsAt(S, p, lo, hi, e) then OwedBwd(S, p, r, lo, hi, e - |p|) + r
    else OwedBwd(S, p, r, lo, hi, e - 1) + [S[e - 1]]
  }

  /** The right-to-left result of the prefix `S[..e]`, in terms of `Bwd`. */
  function BwdUpTo(S: seq<byte>, p: seq<byte>, r: seq<byte>, lo: nat, hi: nat, e: nat): seq<byte>
    requires |p| > 0 && lo <= hi <= |S| && e <= |S|
  {
    if e <= lo then S[..e]
    else if e <= hi then S[..lo] + Bwd(S, p, r, lo, e)
    else S[..lo] + Bwd(S, p, r, lo, hi) + S[hi..e]
  }

  /** The whole input, up to `m`, owes exactly the right-to-left result. */
  lemma BwdUpToWhole(S: seq<byte>, p: seq<byte>, r: seq<byte>, lo: nat, hi: nat, m: nat)
    requires |p| > 0 && lo <= hi <= m <= |S|
    ensures BwdUpTo(S, p, r, lo, hi, m) == ReplacedBwd(S, p, r, lo, hi, m)
  {
    if m <= lo {
      assert Bwd(S, p, r, lo, hi) == [];
      assert S[..m] == S[..lo] + S[hi..m];
    } else if m <= hi {
      assert S[hi..m] == [];
    }
  }

  /** Both descriptions of the owed output agree. */
  lemma {:induction false} OwedBwdIsUpTo(S: seq<byte>, p: seq<byte>, r: seq<byte>, lo: nat, hi: nat, e: nat)
    requires |p| > 0 && lo <= hi <= |S| && e <= |S|
    ensures OwedBwd(S, p, r, lo, hi, e) == BwdUpTo(S, p, r, lo, hi, e)
    decreases e
  {
    if e == 0 {
    } else if EndsAt(S, p, lo, hi, e) {
      var k := e - |p|;
      assert OwedBwd(S, p, r, lo, hi, e) == OwedBwd(S, p, r, lo, hi, k) + r;
      OwedBwdIsUpTo(S, p, r, lo, hi, k);
      BwdUpToMatch(S, p, r, lo, hi, e, k);
    } else {
      var k := e - 1;
      assert OwedBwd(S, p, r, lo, hi, e) == OwedBwd(S, p, r, lo, hi, k) + [S[k]];
      OwedBwdIsUpTo(S, p, r, lo, hi, k);
      BwdUpToSkip(S, p, r, lo, hi, e);
    }
  }

  lemma BwdUpToMatch(S: seq<byte>, p: seq<byte>, r: seq<byte>, lo: nat, hi: nat, e: nat, j: nat)
    requires |p| > 0 && lo <= hi <= |S| && 0 < e <= |S| && EndsAt(S, p, lo, hi, e) && j == e - |p|
    ensures BwdUpTo(S, p, r, lo, hi, e) == BwdUpTo(S, p, r, lo, hi, j) + r
  {
    assert Min(hi, e) == e;
    assert LastMatch(S, p, lo, e) == Some(j);
    BwdUnfold(S, p, r, lo, e, j);
    assert S[e..e] == [];
    var front := BwdUpTo(S, p, r, lo, hi, j);
    if j == lo {
      EmptyWindow(S, p, r, lo);
      assert front == S[..lo] + Bwd(S, p, r, lo, j);
    } else {
      assert front == S[..lo] + Bwd(S, p, r, lo, j);
    }
  }

  lemma EmptyWindow(S: seq<byte>, p: seq<byte>, r: seq<byte>, lo: nat)
    requires |p| > 0 && lo <= |S|
    ensures Bwd(S, p, r, lo, lo) == []
  {
    assert LastMatch(S, p, lo, lo).None?;
  }

  lemma BwdUpToSkip(S: seq<byte>, p: seq<byte>, r: seq<byte>, lo: nat, hi: nat, e: nat)
    requires |p| > 0 && lo <= hi <= |S| && 0 < e <= |S| && !EndsAt(S, p, lo, hi, e)
    ensures BwdUpTo(S, p, r, lo, hi, e) == BwdUpTo(S, p, r, lo, hi, e - 1) + [S[e - 1]]
  {
    if e <= lo {
      assert S[..e] == S[..e - 1] + [S[e - 1]];
    } else if e > hi {
      SkipAbove(S, p, r, lo, hi, e);
    } else {
      assert Min(hi, e) == e;
      SkipInside(S, p, r, lo, e);
    }
  }

  lemma SkipAbove(S: seq<byte>, p: seq<byte>, r: seq<byte>, lo: nat, hi: nat, e: nat)
    requires |p| > 0 && lo <= hi < e <= |S|
    ensures BwdUpTo(S, p, r, lo, hi, e) == BwdUpTo(S, p, r, lo, hi, e - 1) + [S[e - 1]]
  {
    var front := S[..lo] + Bwd(S, p, r, lo, hi);
    assert BwdUpTo(S, p, r, lo, hi, e) == front + S[hi..e];
    assert S[hi..e] == S[hi..e - 1] + [S[e - 1]];
    if e - 1 == hi {
      if hi == lo {
        EmptyWindow(S, p, r, lo);
      }
      assert BwdUpTo(S, p, r, lo, hi, e - 1) == front + S[hi..e - 1];
    } else {
      assert BwdUpTo(S, p, r, lo, hi, e - 1) == front + S[hi..e - 1];
    }
  }

  lemma SkipInside(S: seq<byte>, p: seq<byte>, r: seq<byte>, lo: nat, e: nat)
    requires |p| > 0 && lo < e <= |S|
    requires LastMatch(S, p, lo, e).None? || LastMatch(S, p, lo, e).value + |p| != e
    ensures BwdUpTo(S, p, r, lo, e, e) == BwdUpTo(S, p, r, lo, e, e - 1) + [S[e - 1]]
  {
    BwdSkip(S, p, r, lo, e);
    assert BwdUpTo(S, p, r, lo, e, e) == S[..lo] + Bwd(S, p, r, lo, e);
    match LastMatch(S, p, lo, e)
    case None =>
      BwdSkipNone(S, p, r, lo, e);
      if e - 1 == lo {
        EmptyWindow(S, p, r, lo);
      }
    case Some(l) =>
      BwdSkipSome(S, p, r, lo, e, l);
  }

  /** At a position where no picked occurrence ends, the window may be cut one byte shorter. */
  lemma WindowSkip(S: seq<byte>, p: seq<byte>, lo: nat, hi: nat, e: nat)
    requires |p| > 0 && hi <= |S| && 0 < e <= |S| && !EndsAt(S, p, lo, hi, e)
    ensures LastMatch(S, p, lo, Min(hi, e - 1)) == LastMatch(S, p, lo, Min(hi, e))
    ensures CountBwd(S, p, lo, Min(hi, e - 1)) == CountBwd(S, p, lo, Min(hi, e))
  {
    if e <= hi && lo < e {
      BwdSkip(S, p, [], lo, e);
    }
  }

  /** At the end of a picked occurrence the window is cut before it, with one occurrence fewer. */
  lemma WindowMatch(S: seq<byte>, p: seq<byte>, lo: nat, hi: nat, e: nat)
    requires |p| > 0 && hi <= |S| && 0 < e <= |S| && EndsAt(S, p, lo, hi, e)
    ensures |p| <= e <= hi
    ensures CountBwd(S, p, lo, Min(hi, e)) == 1 + CountBwd(S, p, lo, Min(hi, e - |p|))
  {
    assert Min(hi, e - |p|) == e - |p|;
  }

  /**
   * The state of the backward pass: what is owed for the unread input `[0, e)`
   * followed by the output already written, `W[j..|T|]`, is the result `T`;
   * below `e` the buffer still holds the input; `j - e` is the growth still to
   * come, one `|r| - |p|` per occurrence left; `found` is the last byte of the
   * next occurrence from the right, or a position at or past `e` once none is
   * left.
   */
  ghost predicate BwdProgress(S: seq<byte>, p: seq<byte>, r: seq<byte>, lo: nat, hi: nat, m: nat, T: seq<byte>,
                              W: seq<byte>, j: int, e: int, found: int)
  {
    0 < |p| < |r| && lo <= hi < m <= |S| == |W| && 0 <= e <= j <= |T| <= |W| && e <= m &&
    OwedBwd(S, p, r, lo, hi, e) + W[j..|T|] == T && W[..e] == S[..e] &&
    j - e == CountBwd(S, p, lo, Min(hi, e)) * (|r| - |p|) &&
    (var l := LastMatch(S, p, lo, Min(hi, e));
     (l.Some? ==> found == l.value + |p| - 1) && (l.None? ==> found >= e))
  }

  /** The state of the backward pass, `BwdProgress`, at any `depth`: it holds exactly when that state does. */
  ghost predicate KeptBwd(depth: nat, S: seq<byte>, p: seq<byte>, r: seq<byte>, lo: nat, hi: nat, m: nat, T: seq<byte>,
                          W: seq<byte>, j: int, e: int, found: int)
    decreases depth
  {
    if depth == 0 then BwdProgress(S, p, r, lo, hi, m, T, W, j, e, found)
    else KeptBwd(depth - 1, S, p, r, lo, hi, m, T, W, j, e, found)
  }

  /**
   * The backward pass has written the output for the input from `e` on into
   * `W[j..|T|]` and left `[0, e)` as it was; the same fact as `BwdProgress`
   * (`OpenBackfilled`), in the form its contracts carry.
   */
  ghost predicate Backfilled(S: seq<byte>, p: seq<byte>, r: seq<byte>, lo: nat, hi: nat, m: nat, T: seq<byte>,
                             W: seq<byte>, j: int, e: int, found: int)
  {
    KeptBwd(2, S, p, r, lo, hi, m, T, W, j, e, found) == true
  }

  lemma OpenBackfilled(S: seq<byte>, p: seq<byte>, r: seq<byte>, lo: nat, hi: nat, m: nat, T: seq<byte>,
                       W: seq<byte>, j: int, e: int, found: int)
    ensures Backfilled(S, p, r, lo, hi, m, T, W, j, e, found) <==> BwdProgress(S, p, r, lo, hi, m, T, W, j, e, found)
  {
    assert KeptBwd(1, S, p, r, lo, hi, m, T, W, j, e, found) == KeptBwd(0, S, p, r, lo, hi, m, T, W, j, e, found);
  }

  /** An occurrence is left exactly when growth is still to come. */
  lemma Pending(S: seq<byte>, p: seq<byte>, lo: nat, hi: nat, e: nat, delta: int, j: int)
    requires |p| > 0 && hi <= |S| && e <= |S| && delta > 0
    requires j - e == CountBwd(S, p, lo, Min(hi, e)) * delta
    ensures j != e <==> LastMatch(S, p, lo, Min(hi, e)).Some?
  {
  }

  /** The pass starts at the back with the whole result owed, the terminator included. */
  lemma BwdStart(S: seq<byte>, p: seq<byte>, r: seq<byte>, lo: nat, hi: nat, m: nat, T: seq<byte>, l: nat)
    requires 0 < |p| < |r| && lo <= hi < m <= |S| && T == ReplacedBwd(S, p, r, lo, hi, m) && |T| <= |S|
    requires LastMatch(S, p, lo, hi) == Some(l)
    ensures Backfilled(S, p, r, lo, hi, m, T, S, |T|, m, l + |p| - 1)
  {
    StartOwed(S, p, r, lo, hi, m, T);
    assert S[|T|..|T|] == [];
    assert Min(hi, m) == hi;
    assert OwedBwd(S, p, r, lo, hi, m) + S[|T|..|T|] == T;
    Growth(CountBwd(S, p, lo, hi), |r| - |p|);
    assert BwdProgress(S, p, r, lo, hi, m, T, S, |T|, m, l + |p| - 1);
    OpenBackfilled(S, p, r, lo, hi, m, T, S, |T|, m, l + |p| - 1);
  }

  lemma StartOwed(S: seq<byte>, p: seq<byte>, r: seq<byte>, lo: nat, hi: nat, m: nat, T: seq<byte>)
    requires 0 < |p| && lo <= hi < m <= |S| && T == ReplacedBwd(S, p, r, lo, hi, m)
    ensures OwedBwd(S, p, r, lo, hi, m) == T
    ensures |T| - m == CountBwd(S, p, lo, hi) * (|r| - |p|)
  {
    BwdUpToWhole(S, p, r, lo, hi, m);
    OwedBwdIsUpTo(S, p, r, lo, hi, m);
    BwdLength(S, p, r, lo, hi);
  }

  /** While output is still owed, input is still unread, and the other way round. */
  lemma BwdUnwritten(S: seq<byte>, p: seq<byte>, r: seq<byte>, lo: nat, hi: nat, m: nat, T: seq<byte>,
                     W: seq<byte>, j: int, e: int, found: int)
    requires Backfilled(S, p, r, lo, hi, m, T, W, j, e, found)
    ensures 0 <= e <= j <= |T| <= |W| && (j == 0 ==> e == 0) && (0 < j ==> 0 < e)
  {
    OpenBackfilled(S, p, r, lo, hi, m, T, W, j, e, found);
    if e == 0 {
      Pending(S, p, lo, hi, e, |r| - |p|, j);
    }
  }

  /**
   * An occurrence ends at the read position `e`: what is owed below it, the
   * replacement and the output already written still make up the result,
   * with one occurrence, and `|r| - |p|` of growth, fewer to come. The new
   * positions are `j2 = j - |r|` and `e2 = e - |p|`.
   */
  lemma BwdMatch(S: seq<byte>, p: seq<byte>, r: seq<byte>, lo: nat, hi: nat, m: nat, T: seq<byte>,
                 W: seq<byte>, j: int, e: int, found: int, j2: int, e2: int)
    requires Backfilled(S, p, r, lo, hi, m, T, W, j, e, found) && found == e - 1
    requires j2 == j - |r| && e2 == e - |p|
    ensures 0 < |p| < |r| && lo <= hi < m <= |S| == |W| && |T| <= |W| && e <= m
    ensures 0 <= e2 <= j2 && j2 + |r| == j <= |T| && e2 < e && e2 <= hi
    ensures W[..e] == S[..e]
    ensures OwedBwd(S, p, r, lo, hi, e2) + (r + W[j..|T|]) == T
    ensures j2 - e2 == CountBwd(S, p, lo, Min(hi, e2)) * (|r| - |p|)
    ensures j2 != e2 <==> LastMatch(S, p, lo, Min(hi, e2)).Some?
  {
    OpenBackfilled(S, p, r, lo, hi, m, T, W, j, e, found);
    var l := LastMatch(S, p, lo, Min(hi, e));
    if l.None? {
      assert false;
    }
    assert EndsAt(S, p, lo, hi, e);
    WindowMatch(S, p, lo, hi, e);
    var delta := |r| - |p|;
    var c := CountBwd(S, p, lo, Min(hi, e2));
    var c0 := CountBwd(S, p, lo, Min(hi, e));
    assert c0 == 1 + c;
    Scale(c0, 1 + c, delta);
    MulSucc(c, delta);
    Growth(c, delta);
    Pending(S, p, lo, hi, e2, delta, j2);
    assert OwedBwd(S, p, r, lo, hi, e) == OwedBwd(S, p, r, lo, hi, e2) + r;
    Reassoc(OwedBwd(S, p, r, lo, hi, e2), r, W[j..|T|], T);
  }

  /** The replacement written at `j2`, the state after an occurrence holds again. */
  lemma BwdMatchWritten(S: seq<byte>, p: seq<byte>, r: seq<byte>, lo: nat, hi: nat, m: nat, T: seq<byte>,
                        W: seq<byte>, B: seq<byte>, j: int, e: int, j2: int, e2: int, next: int)
    requires 0 < |p| < |r| && lo <= hi < m <= |S| == |W| && |T| <= |W| && e <= m
    requires 0 <= e2 <= j2 && j2 + |r| == j <= |T| && e2 < e && e2 <= hi
    requires W[..e] == S[..e]
    requires OwedBwd(S, p, r, lo, hi, e2) + (r + W[j..|T|]) == T
    requires j2 - e2 == CountBwd(S, p, lo, Min(hi, e2)) * (|r| - |p|)
    requires j2 != e2 <==> LastMatch(S, p, lo, Min(hi, e2)).Some?
    requires B == W[..j2] + r + W[j2 + |r|..]
    requires j2 != e2 ==> next == IndexOr(LastMatch(B, p, lo, Min(hi, e2))) + |p| - 1
    requires j2 == e2 ==> next >= e2
    ensures Backfilled(S, p, r, lo, hi, m, T, B, j2, e2, next)
  {
    assert W[j2 + |r|..] == W[j..];
    MiddleSlice(W[..j2], r, W[j..], B, |T|);
    assert W[j..][..|T| - j] == W[j..|T|];
    assert B[..e2] == S[..e2] by {
      assert B[..e2] == W[..e2];
      assert W[..e2] == W[..e][..e2];
    }
    if j2 != e2 {
      assert forall k :: lo <= k < Min(hi, e2) ==> B[k] == S[k] by {
        forall k | lo <= k < Min(hi, e2)
          ensures B[k] == S[k]
        {
          assert B[k] == B[..e2][k];
        }
      }
      LastMatchFrame(B, S, p, lo, Min(hi, e2));
    }
    OpenBackfilled(S, p, r, lo, hi, m, T, B, j2, e2, next);
  }

  lemma MiddleSlice(x: seq<byte>, r: seq<byte>, y: seq<byte>, b: seq<byte>, n: nat)
    requires b == x + r + y && |x| + |r| <= n <= |b|
    ensures b[|x|..n] == r + y[..n - |x| - |r|]
  {
    assert b[|x|..n] == (r + y)[..n - |x|];
  }

  lemma Scale(a: int, b: int, d: int)
    requires a == b
    ensures a * d == b * d
  {
  }

  lemma Growth(c: nat, d: nat)
    ensures c * d >= 0
  {
  }

  lemma Reassoc(a: seq<byte>, r: seq<byte>, w: seq<byte>, T: seq<byte>)
    requires (a + r) + w == T
    ensures a + (r + w) == T
  {
  }

  /**
   * No occurrence ends at the read position: the byte `x` below it moves up
   * to the writing position, `j2 = j - 1` and `e2 = e - 1`.
   */
  lemma BwdSkipByte(S: seq<byte>, p: seq<byte>, r: seq<byte>, lo: nat, hi: nat, m: nat, T: seq<byte>,
                    W: seq<byte>, B: seq<byte>, j: int, e: int, found: int, j2: int, e2: int, x: byte)
    requires Backfilled(S, p, r, lo, hi, m, T, W, j, e, found) && 0 < j && found != e - 1
    requires j2 == j - 1 && e2 == e - 1 && 0 <= e2 < |W| && x == W[e2] && B == W[j2 := x]
    ensures Backfilled(S, p, r, lo, hi, m, T, B, j2, e2, found)
  {
    BwdUnwritten(S, p, r, lo, hi, m, T, W, j, e, found);
    OpenBackfilled(S, p, r, lo, hi, m, T, W, j, e, found);
    assert !EndsAt(S, p, lo, hi, e);
    WindowSkip(S, p, lo, hi, e);
    assert x == W[..e][e2] == S[e2];
    assert OwedBwd(S, p, r, lo, hi, e) == OwedBwd(S, p, r, lo, hi, e2) + [x];
    assert B[j2..|T|] == [x] + W[j..|T|];
    assert B[..e2] == S[..e2] by {
      assert B[..e2] == W[..e2];
      assert W[..e2] == W[..e][..e2];
    }
    Reassoc(OwedBwd(S, p, r, lo, hi, e2), [x], W[j..|T|], T);
    OpenBackfilled(S, p, r, lo, hi, m, T, B, j2, e2, found);
  }

  /** Nothing left to write: the buffer holds the result. */
  lemma BwdDone(S: seq<byte>, p: seq<byte>, r: seq<byte>, lo: nat, hi: nat, m: nat, T: seq<byte>,
                W: seq<byte>, e: int, found: int)
    requires Backfilled(S, p, r, lo, hi, m, T, W, 0, e, found)
    ensures W[..|T|] == T
  {
    BwdUnwritten(S, p, r, lo, hi, m, T, W, 0, e, found);
    OpenBackfilled(S, p, r, lo, hi, m, T, W, 0, e, found);
  }

  /**
   * `last_index_of(pattern, sel)` on the buffer's contents: the last
   * occurrence of `p` lying wholly in the selection, or -1 when none does.
   */
  method LastIndexOf(a: array<byte>, p: seq<byte>, sel: Selection, ghost W: seq<byte>) returns (found: int)
    requires sel.max <= a.Length && a[..] == W
    ensures found == IndexOr(LastMatch(W, p, sel.min, sel.max))
    ensures found >= 0 ==> sel.min <= found && found + |p| <= sel.max && MatchAt(W, p, found)
    ensures found >= 0 ==> forall j :: found < j && j + |p| <= sel.max ==> !MatchAt(W, p, j)
    ensures found < 0 <==> found == -1 && forall j :: sel.min <= j && j + |p| <= sel.max ==> !MatchAt(W, p, j)
  {
    LastMatchSpec(W, p, sel.min, sel.max);
    found := IndexOr(LastMatch(a[..], p, sel.min, sel.max));
  }

  /**
   * One turn of the inner `while`: an occurrence ends at the read position,
   * so the writing position drops by `|r|`, the replacement is copied there,
   * `offset` shrinks by the growth of one occurrence and, while growth is
   * left, the next occurrence is searched for below the new read position.
   */
  method BwdMatchStep(a: array<byte>, p: seq<byte>, r: seq<byte>, lo: nat, hi: nat, ghost m: nat,
                      i: int, offset: int, found: int, ghost j: int, ghost e: int,
                      ghost S: seq<byte>, ghost T: seq<byte>, ghost W: seq<byte>)
    returns (ni: int, noffset: int, nfound: int, ghost nj: int, ghost ne: int, ghost nW: seq<byte>)
    requires a[..] == W && j == i + 1 && e == j - offset && i - offset == found
    requires Backfilled(S, p, r, lo, hi, m, T, W, j, e, found)
    modifies a
    ensures a[..] == nW && nj == ni + 1 && ne == nj - noffset && 0 <= nj < j
    ensures Backfilled(S, p, r, lo, hi, m, T, nW, nj, ne, nfound)
  {
    ni := i - |r|;
    var at := ni + 1;
    noffset := offset - (|r| - |p|);
    ne := at - noffset;
    BwdMatch(S, p, r, lo, hi, m, T, W, j, e, found, at, ne);
    CopyInto(a, at, r, W);
    nW := W[..at] + r + W[at + |r|..];
    if noffset != 0 {
      var through := IntersectThrough(Selection(lo, hi), ni - noffset);
      assert through == Selection(lo, Min(hi, ne));
      var last := LastIndexOf(a, p, through, nW);
      nfound := last + |p| - 1;
    } else {
      nfound := found;
    }
    BwdMatchWritten(S, p, r, lo, hi, m, T, W, nW, j, e, at, ne, nfound);
    nj := at;
  }

  /** The inner `while`: replace every occurrence that ends at the read position. */
  method BwdMatches(a: array<byte>, p: seq<byte>, r: seq<byte>, lo: nat, hi: nat, ghost m: nat,
                    i: int, offset: int, found: int, ghost j: int, ghost e: int,
                    ghost S: seq<byte>, ghost T: seq<byte>, ghost W: seq<byte>)
    returns (ni: int, noffset: int, nfound: int, ghost nj: int, ghost ne: int, ghost nW: seq<byte>)
    requires a[..] == W && j == i + 1 && e == j - offset
    requires Backfilled(S, p, r, lo, hi, m, T, W, j, e, found)
    modifies a
    ensures a[..] == nW && nj == ni + 1 && ne == nj - noffset && nj <= j && ni - noffset != nfound
    ensures Backfilled(S, p, r, lo, hi, m, T, nW, nj, ne, nfound)
  {
    ni, noffset, nfound, nj, ne, nW := i, offset, found, j, e, W;
    while ni - noffset == nfound
      invariant a[..] == nW && nj == ni + 1 && ne == nj - noffset && nj <= j
      invariant Backfilled(S, p, r, lo, hi, m, T, nW, nj, ne, nfound)
      decreases nj
    {
      ni, noffset, nfound, nj, ne, nW := BwdMatchStep(a, p, r, lo, hi, m, ni, noffset, nfound, nj, ne, S, T, nW);
    }
  }

  /** `data[i] = data[i - offset]`: the byte below the read position moves up to the writing position. */
  method BwdCopyByte(a: array<byte>, p: seq<byte>, r: seq<byte>, lo: nat, hi: nat, ghost m: nat,
                     i: int, offset: int, found: int, ghost j: int, ghost e: int,
                     ghost S: seq<byte>, ghost T: seq<byte>, ghost W: seq<byte>)
    returns (ni: int, ghost nj: int, ghost ne: int, ghost nW: seq<byte>)
    requires a[..] == W && j == i + 1 && e == j - offset && 0 <= i && i - offset != found
    requires Backfilled(S, p, r, lo, hi, m, T, W, j, e, found)
    modifies a
    ensures a[..] == nW && ni == i - 1 && nj == ni + 1 && ne == nj - offset
    ensures Backfilled(S, p, r, lo, hi, m, T, nW, nj, ne, found)
  {
    BwdUnwritten(S, p, r, lo, hi, m, T, W, j, e, found);
    ni, nj, ne := i - 1, i, i - offset;
    var x := a[i - offset];
    Put(a, i, x, W);
    nW := W[i := x];
    BwdSkipByte(S, p, r, lo, hi, m, T, W, nW, j, e, found, nj, ne, x);
  }

  /**
   * The in-place backward pass: the capacity already holds the grown result,
   * so it is written from its end down, `answer` being the new size and the
   * terminator at `m - 1` moving up first.
   */
  method ReplaceBackward(a: array<byte>, m: nat, p: seq<byte>, r: seq<byte>, lo: nat, hi: nat, answer: nat, ghost S: seq<byte>)
    requires a[..] == S && 0 < |p| < |r| && lo <= hi < m <= a.Length
    requires LastMatch(S, p, lo, hi).Some?
    requires answer < a.Length && answer + 1 == |ReplacedBwd(S, p, r, lo, hi, m)|
    modifies a
    ensures a[..][..answer + 1] == ReplacedBwd(S, p, r, lo, hi, m)
  {
    ghost var T := ReplacedBwd(S, p, r, lo, hi, m);
    var last := LastIndexOf(a, p, Selection(lo, hi), S);
    var found := last + |p| - 1;
    var offset := answer + 1 - m;
    var i := answer;
    // j is the end of the output still to write, e the end of the input still to read
    ghost var W, j, e := S, i + 1, m;
    BwdStart(S, p, r, lo, hi, m, T, last);
    while i >= 0
      invariant a[..] == W && j == i + 1 && e == j - offset
      invariant Backfilled(S, p, r, lo, hi, m, T, W, j, e, found)
      decreases j
    {
      i, offset, found, j, e, W := BwdMatches(a, p, r, lo, hi, m, i, offset, found, j, e, S, T, W);
      if i < 0 {
        break;
      }
      i, j, e, W := BwdCopyByte(a, p, r, lo, hi, m, i, offset, found, j, e, S, T, W);
    }
    assert W[..|T|] == T by {
      BwdUnwritten(S, p, r, lo, hi, m, T, W, j, e, found);
      BwdDone(S, p, r, lo, hi, m, T, W, e, found);
    }
  }
}
