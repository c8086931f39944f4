/**
 * The read-only algorithms of `codeunit_sequence_view` that the mutating
 * operations of the byte buffer rely on: literal substring search restricted
 * to a window [lo, hi) of absolute positions (`index_of`, `last_index_of`),
 * non-overlapping left-to-right counting (`count`), prefix and suffix tests,
 * trimming by a set of bytes and splitting at the first match.
 *
 * The replace-all results are given here as functions of the original bytes:
 * `Fwd` picks occurrences left to right, as repeated `index_of` does; `Bwd`
 * picks them right to left, as repeated `last_index_of` does.
 */
module View {
  import opened Common

  /** `p` occurs in `s` at position `j`. */
  predicate MatchAt(s: seq<byte>, p: seq<byte>, j: int) {
    0 <= j && j + |p| <= |s| && forall k :: 0 <= k < |p| ==> s[j + k] == p[k]
  }

  /** `index_of(p, [lo, hi))`: the first occurrence lying wholly inside the window. */
  function FirstMatch(s: seq<byte>, p: seq<byte>, lo: nat, hi: nat): (m: Option<nat>)
    requires hi <= |s|
    ensures m.Some? ==> lo <= m.value && m.value + |p| <= hi
    decreases hi - lo
  {
    if lo + |p| > hi then None
    else if MatchAt(s, p, lo) then Some(lo)
    else FirstMatch(s, p, lo + 1, hi)
  }

  /** `last_index_of(p, [lo, hi))`: the last occurrence lying wholly inside the window. */
  function LastMatch(s: seq<byte>, p: seq<byte>, lo: nat, hi: nat): (m: Option<nat>)
    requires hi <= |s|
    ensures m.Some? ==> lo <= m.value && m.value + |p| <= hi
    decreases hi
  {
    if lo + |p| > hi then None
    else if MatchAt(s, p, hi - |p|) then Some(hi - |p|)
    else LastMatch(s, p, lo, hi - 1)
  }

  /** `index_of` finds an occurrence, and none starts earlier in the window; a miss means there is none. */
  lemma {:induction false} FirstMatchSpec(s: seq<byte>, p: seq<byte>, lo: nat, hi: nat)
    requires hi <= |s|
    ensures var m := FirstMatch(s, p, lo, hi);
      (m.Some? ==> MatchAt(s, p, m.value) && forall j :: lo <= j < m.value ==> !MatchAt(s, p, j)) &&
      (m.None? ==> forall j :: lo <= j && j + |p| <= hi ==> !MatchAt(s, p, j))
    decreases hi - lo
  {
    if lo + |p| <= hi && !MatchAt(s, p, lo) {
      FirstMatchSpec(s, p, lo + 1, hi);
    }
  }

  /** `last_index_of` finds an occurrence, and none starts later in the window; a miss means there is none. */
  lemma {:induction false} LastMatchSpec(s: seq<byte>, p: seq<byte>, lo: nat, hi: nat)
    requires hi <= |s|
    ensures var m := LastMatch(s, p, lo, hi);
      (m.Some? ==> MatchAt(s, p, m.value) && forall j :: m.value < j && j + |p| <= hi ==> !MatchAt(s, p, j)) &&
      (m.None? ==> forall j :: lo <= j && j + |p| <= hi ==> !MatchAt(s, p, j))
    decreases hi
  {
    if lo + |p| <= hi && !MatchAt(s, p, hi - |p|) {
      LastMatchSpec(s, p, lo, hi - 1);
    }
  }

  /** Number of occurrences `index_of` finds when restarted after each one (`count`). */
  function CountFwd(s: seq<byte>, p: seq<byte>, lo: nat, hi: nat): nat
    requires |p| > 0 && hi <= |s|
    decreases hi - lo
  {
    match FirstMatch(s, p, lo, hi)
    case None => 0
    case Some(j) => 1 + CountFwd(s, p, j + |p|, hi)
  }

  /** Number of occurrences `last_index_of` finds when restarted before each one. */
  function CountBwd(s: seq<byte>, p: seq<byte>, lo: nat, hi: nat): nat
    requires |p| > 0 && hi <= |s|
    decreases hi
  {
    match LastMatch(s, p, lo, hi)
    case None => 0
    case Some(j) => 1 + CountBwd(s, p, lo, j)
  }

  /** `s[lo..hi]` with the occurrences found left to right replaced by `r`. */
  function Fwd(s: seq<byte>, p: seq<byte>, r: seq<byte>, lo: nat, hi: nat): seq<byte>
    requires |p| > 0 && lo <= hi <= |s|
    decreases hi - lo
  {
    match FirstMatch(s, p, lo, hi)
    case None => s[lo..hi]
    case Some(j) => s[lo..j] + r + Fwd(s, p, r, j + |p|, hi)
  }

  /** `s[lo..hi]` with the occurrences found right to left replaced by `r`. */
  function Bwd(s: seq<byte>, p: seq<byte>, r: seq<byte>, lo: nat, hi: nat): seq<byte>
    requires |p| > 0 && lo <= hi <= |s|
    decreases hi
  {
    match LastMatch(s, p, lo, hi)
    case None => s[lo..hi]
    case Some(j) => Bwd(s, p, r, lo, j) + r + s[j + |p|..hi]
  }

  /** Replace-all over a whole byte string: the reference the buffer's `replace` is measured against. */
  function ReplaceAll(t: seq<byte>, p: seq<byte>, r: seq<byte>): seq<byte>
    requires |p| > 0
  {
    Fwd(t, p, r, 0, |t|)
  }

  /** `count(p)` on a whole view. */
  function Count(t: seq<byte>, p: seq<byte>): nat
    requires |p| > 0
  {
    CountFwd(t, p, 0, |t|)
  }

  function StartsWith(s: seq<byte>, p: seq<byte>): bool {
    |p| <= |s| && s[..|p|] == p
  }

  function EndsWith(s: seq<byte>, p: seq<byte>): bool {
    |p| <= |s| && s[|s| - |p|..] == p
  }

  // ---------------------------------------------------------------------------
  // The characterisations pin the searches down

  /** What `index_of` returns is an occurrence. */
  lemma FirstMatchFound(s: seq<byte>, p: seq<byte>, lo: nat, hi: nat)
    requires hi <= |s|
    ensures FirstMatch(s, p, lo, hi).Some? ==> MatchAt(s, p, FirstMatch(s, p, lo, hi).value)
  {
    FirstMatchSpec(s, p, lo, hi);
  }

  lemma FirstMatchIs(s: seq<byte>, p: seq<byte>, lo: nat, hi: nat, j: nat)
    requires hi <= |s| && lo <= j && j + |p| <= hi && MatchAt(s, p, j)
    requires forall i :: lo <= i < j ==> !MatchAt(s, p, i)
    ensures FirstMatch(s, p, lo, hi) == Some(j)
  {
    FirstMatchSpec(s, p, lo, hi);
    var m := FirstMatch(s, p, lo, hi);
    assert m.Some?;
    assert !(m.value < j) && !(j < m.value);
  }

  lemma FirstMatchNone(s: seq<byte>, p: seq<byte>, lo: nat, hi: nat)
    requires hi <= |s|
    requires forall j :: lo <= j && j + |p| <= hi ==> !MatchAt(s, p, j)
    ensures FirstMatch(s, p, lo, hi) == None
  {
    FirstMatchSpec(s, p, lo, hi);
  }

  lemma LastMatchIs(s: seq<byte>, p: seq<byte>, lo: nat, hi: nat, j: nat)
    requires hi <= |s| && lo <= j && j + |p| <= hi && MatchAt(s, p, j)
    requires forall i :: j < i && i + |p| <= hi ==> !MatchAt(s, p, i)
    ensures LastMatch(s, p, lo, hi) == Some(j)
  {
    LastMatchSpec(s, p, lo, hi);
    var m := LastMatch(s, p, lo, hi);
    assert m.Some?;
    assert !(m.value < j) && !(j < m.value);
  }

  lemma LastMatchNone(s: seq<byte>, p: seq<byte>, lo: nat, hi: nat)
    requires hi <= |s|
    requires forall j :: lo <= j && j + |p| <= hi ==> !MatchAt(s, p, j)
    ensures LastMatch(s, p, lo, hi) == None
  {
    LastMatchSpec(s, p, lo, hi);
  }

  /** Restarting `index_of` at any k up to the first occurrence finds the same occurrence. */
  lemma FirstMatchFrom(s: seq<byte>, p: seq<byte>, lo: nat, k: nat, hi: nat)
    requires hi <= |s| && lo <= k
    requires FirstMatch(s, p, lo, hi).None? || k <= FirstMatch(s, p, lo, hi).value
    ensures FirstMatch(s, p, k, hi) == FirstMatch(s, p, lo, hi)
  {
    FirstMatchSpec(s, p, lo, hi);
    match FirstMatch(s, p, lo, hi)
    case None => FirstMatchNone(s, p, k, hi);
    case Some(j) => FirstMatchIs(s, p, k, hi, j);
  }

  /** Cutting the window of `last_index_of` anywhere after the last occurrence finds the same occurrence. */
  lemma LastMatchUpTo(s: seq<byte>, p: seq<byte>, lo: nat, k: nat, hi: nat)
    requires k <= hi <= |s|
    requires LastMatch(s, p, lo, hi).None? || LastMatch(s, p, lo, hi).value + |p| <= k
    ensures LastMatch(s, p, lo, k) == LastMatch(s, p, lo, hi)
  {
    LastMatchSpec(s, p, lo, hi);
    match LastMatch(s, p, lo, hi)
    case None => LastMatchNone(s, p, lo, k);
    case Some(j) => LastMatchIs(s, p, lo, k, j);
  }

  // ---------------------------------------------------------------------------
  // Lengths

  lemma MulSucc(c: int, d: int)
    ensures (1 + c) * d == d + c * d
  {
  }

  /** Each occurrence replaced left to right moves the length by |r| - |p|. */
  lemma {:induction false} FwdLength(s: seq<byte>, p: seq<byte>, r: seq<byte>, lo: nat, hi: nat)
    requires |p| > 0 && lo <= hi <= |s|
    ensures |Fwd(s, p, r, lo, hi)| == hi - lo + CountFwd(s, p, lo, hi) * (|r| - |p|)
    decreases hi - lo
  {
    match FirstMatch(s, p, lo, hi)
    case None =>
    case Some(j) =>
      FwdLength(s, p, r, j + |p|, hi);
      MulSucc(CountFwd(s, p, j + |p|, hi), |r| - |p|);
  }

  /** Each occurrence replaced right to left moves the length by |r| - |p|. */
  lemma {:induction false} BwdLength(s: seq<byte>, p: seq<byte>, r: seq<byte>, lo: nat, hi: nat)
    requires |p| > 0 && lo <= hi <= |s|
    ensures |Bwd(s, p, r, lo, hi)| == hi - lo + CountBwd(s, p, lo, hi) * (|r| - |p|)
    decreases hi
  {
    match LastMatch(s, p, lo, hi)
    case None =>
    case Some(j) =>
      BwdLength(s, p, r, lo, j);
      MulSucc(CountBwd(s, p, lo, j), |r| - |p|);
  }

  // ---------------------------------------------------------------------------
  // One byte at a time

  /** A byte that does not start the next occurrence is copied as it is. */
  lemma FwdSkip(s: seq<byte>, p: seq<byte>, r: seq<byte>, lo: nat, hi: nat)
    requires |p| > 0 && lo < hi <= |s|
    requires FirstMatch(s, p, lo, hi) != Some(lo)
    ensures FirstMatch(s, p, lo + 1, hi) == FirstMatch(s, p, lo, hi)
    ensures CountFwd(s, p, lo + 1, hi) == CountFwd(s, p, lo, hi)
    ensures Fwd(s, p, r, lo, hi) == [s[lo]] + Fwd(s, p, r, lo + 1, hi)
  {
    FirstMatchFrom(s, p, lo, lo + 1, hi);
    if FirstMatch(s, p, lo, hi).None? {
      FwdSkipNone(s, p, r, lo, hi);
    } else {
      FwdSkipSome(s, p, r, lo, hi, FirstMatch(s, p, lo, hi).value);
    }
  }

  lemma FwdSkipNone(s: seq<byte>, p: seq<byte>, r: seq<byte>, lo: nat, hi: nat)
    requires |p| > 0 && lo < hi <= |s|
    requires FirstMatch(s, p, lo, hi).None? && FirstMatch(s, p, lo + 1, hi).None?
    ensures Fwd(s, p, r, lo, hi) == [s[lo]] + Fwd(s, p, r, lo + 1, hi)
  {
    assert s[lo..hi] == [s[lo]] + s[lo + 1..hi];
  }

  lemma FwdSkipSome(s: seq<byte>, p: seq<byte>, r: seq<byte>, lo: nat, hi: nat, j: nat)
    requires |p| > 0 && lo < j && j + |p| <= hi <= |s|
    requires FirstMatch(s, p, lo, hi) == Some(j) && FirstMatch(s, p, lo + 1, hi) == Some(j)
    ensures Fwd(s, p, r, lo, hi) == [s[lo]] + Fwd(s, p, r, lo + 1, hi)
  {
    var front, rest := s[lo + 1..j], Fwd(s, p, r, j + |p|, hi);
    FwdUnfold(s, p, r, lo, hi, j);
    FwdUnfold(s, p, r, lo + 1, hi, j);
    assert s[lo..j] == [s[lo]] + front;
    ConsRegroup(s[lo], front, r, rest);
  }

  /** A byte that does not end the last occurrence is copied as it is. */
  lemma BwdSkip(s: seq<byte>, p: seq<byte>, r: seq<byte>, lo: nat, hi: nat)
    requires |p| > 0 && lo < hi <= |s|
    requires LastMatch(s, p, lo, hi).None? || LastMatch(s, p, lo, hi).value + |p| < hi
    ensures LastMatch(s, p, lo, hi - 1) == LastMatch(s, p, lo, hi)
    ensures CountBwd(s, p, lo, hi - 1) == CountBwd(s, p, lo, hi)
    ensures Bwd(s, p, r, lo, hi) == Bwd(s, p, r, lo, hi - 1) + [s[hi - 1]]
  {
    LastMatchUpTo(s, p, lo, hi - 1, hi);
    if LastMatch(s, p, lo, hi).None? {
      BwdSkipNone(s, p, r, lo, hi);
    } else {
      BwdSkipSome(s, p, r, lo, hi, LastMatch(s, p, lo, hi).value);
    }
  }

  lemma BwdSkipNone(s: seq<byte>, p: seq<byte>, r: seq<byte>, lo: nat, hi: nat)
    requires |p| > 0 && lo < hi <= |s|
    requires LastMatch(s, p, lo, hi).None? && LastMatch(s, p, lo, hi - 1).None?
    ensures Bwd(s, p, r, lo, hi) == Bwd(s, p, r, lo, hi - 1) + [s[hi - 1]]
  {
    assert s[lo..hi] == s[lo..hi - 1] + [s[hi - 1]];
  }

  lemma BwdSkipSome(s: seq<byte>, p: seq<byte>, r: seq<byte>, lo: nat, hi: nat, j: nat)
    requires |p| > 0 && lo <= j && j + |p| < hi <= |s|
    requires LastMatch(s, p, lo, hi) == Some(j) && LastMatch(s, p, lo, hi - 1) == Some(j)
    ensures Bwd(s, p, r, lo, hi) == Bwd(s, p, r, lo, hi - 1) + [s[hi - 1]]
  {
    assert s[j + |p|..hi] == s[j + |p|..hi - 1] + [s[hi - 1]];
  }

  // ---------------------------------------------------------------------------
  // Searching a buffer that is being rewritten

  /** A search only depends on the bytes inside its window. */
  lemma {:induction false} FirstMatchFrame(a: seq<byte>, b: seq<byte>, p: seq<byte>, lo: nat, hi: nat)
    requires hi <= |a| && hi <= |b|
    requires forall k :: lo <= k < hi ==> a[k] == b[k]
    ensures FirstMatch(a, p, lo, hi) == FirstMatch(b, p, lo, hi)
    decreases hi - lo
  {
    if lo + |p| <= hi {
      assert MatchAt(a, p, lo) <==> MatchAt(b, p, lo);
      FirstMatchFrame(a, b, p, lo + 1, hi);
    }
  }

  lemma {:induction false} LastMatchFrame(a: seq<byte>, b: seq<byte>, p: seq<byte>, lo: nat, hi: nat)
    requires hi <= |a| && hi <= |b|
    requires forall k :: lo <= k < hi ==> a[k] == b[k]
    ensures LastMatch(a, p, lo, hi) == LastMatch(b, p, lo, hi)
    decreases hi
  {
    if lo + |p| <= hi {
      assert MatchAt(a, p, hi - |p|) <==> MatchAt(b, p, hi - |p|);
      if hi > 0 {
        LastMatchFrame(a, b, p, lo, hi - 1);
      }
    }
  }

  // ---------------------------------------------------------------------------
  // A window of s against the subview s[a..b]

  /** The right-to-left result depends only on the bytes of the window. */
  lemma {:induction false} BwdFrame(a: seq<byte>, b: seq<byte>, p: seq<byte>, r: seq<byte>, lo: nat, hi: nat)
    requires |p| > 0 && lo <= hi <= |a| && hi <= |b|
    requires forall k :: lo <= k < hi ==> a[k] == b[k]
    ensures Bwd(a, p, r, lo, hi) == Bwd(b, p, r, lo, hi)
    ensures CountBwd(a, p, lo, hi) == CountBwd(b, p, lo, hi)
    decreases hi
  {
    LastMatchFrame(a, b, p, lo, hi);
    match LastMatch(a, p, lo, hi)
    case None =>
      assert a[lo..hi] == b[lo..hi];
    case Some(j) =>
      BwdFrame(a, b, p, r, lo, j);
      assert a[j + |p|..hi] == b[j + |p|..hi];
      BwdFrameStep(a, b, p, r, lo, hi, j);
  }

  /** The occurrence case of `BwdFrame`, with the result before the occurrence given. */
  lemma BwdFrameStep(a: seq<byte>, b: seq<byte>, p: seq<byte>, r: seq<byte>, lo: nat, hi: nat, j: nat)
    requires |p| > 0 && lo <= j && j + |p| <= hi <= |a| && hi <= |b|
    requires LastMatch(a, p, lo, hi) == Some(j) && LastMatch(b, p, lo, hi) == Some(j)
    requires a[j + |p|..hi] == b[j + |p|..hi]
    requires Bwd(a, p, r, lo, j) == Bwd(b, p, r, lo, j) && CountBwd(a, p, lo, j) == CountBwd(b, p, lo, j)
    ensures Bwd(a, p, r, lo, hi) == Bwd(b, p, r, lo, hi)
    ensures CountBwd(a, p, lo, hi) == CountBwd(b, p, lo, hi)
  {
    BwdUnfold(a, p, r, lo, hi, j);
    BwdUnfold(b, p, r, lo, hi, j);
  }

  /** The window [lo, hi) of `s` and the window [tlo, thi) of `t` hold the same bytes. */
  ghost predicate SameWindow(s: seq<byte>, t: seq<byte>, lo: nat, hi: nat, tlo: nat, thi: nat) {
    lo <= hi <= |s| && tlo <= thi <= |t| && hi - lo == thi - tlo && t[tlo..thi] == s[lo..hi]
  }

  /** The parts of two equal windows at the same offsets are equal too. */
  lemma SubWindow(s: seq<byte>, t: seq<byte>, lo: nat, hi: nat, tlo: nat, thi: nat,
                  x: nat, y: nat, tx: nat, ty: nat)
    requires SameWindow(s, t, lo, hi, tlo, thi) && lo <= x <= y <= hi
    requires tx == tlo + (x - lo) && ty == tlo + (y - lo)
    ensures SameWindow(s, t, x, y, tx, ty)
  {
    SliceOfSlice(t, tlo, thi, x - lo, y - lo);
    SliceOfSlice(s, lo, hi, x - lo, y - lo);
  }

  lemma MatchAtIsSlice(s: seq<byte>, p: seq<byte>, j: nat)
    requires j + |p| <= |s|
    ensures MatchAt(s, p, j) <==> s[j..j + |p|] == p
  {
    if MatchAt(s, p, j) {
      assert s[j..j + |p|] == p;
    }
  }

  lemma MatchAtWindow(s: seq<byte>, t: seq<byte>, p: seq<byte>, lo: nat, hi: nat, tlo: nat, thi: nat, j: nat, tj: nat)
    requires SameWindow(s, t, lo, hi, tlo, thi) && lo <= j && j + |p| <= hi && tj == tlo + (j - lo)
    ensures MatchAt(t, p, tj) <==> MatchAt(s, p, j)
  {
    SubWindow(s, t, lo, hi, tlo, thi, j, j + |p|, tj, tj + |p|);
    MatchAtIsSlice(s, p, j);
    MatchAtIsSlice(t, p, tj);
  }

  /** Searching two windows holding the same bytes finds the occurrence at the same offset. */
  lemma FirstMatchWindow(s: seq<byte>, t: seq<byte>, p: seq<byte>, lo: nat, hi: nat, tlo: nat, thi: nat)
    requires SameWindow(s, t, lo, hi, tlo, thi)
    ensures FirstMatch(s, p, lo, hi).None? ==> FirstMatch(t, p, tlo, thi).None?
    ensures FirstMatch(s, p, lo, hi).Some? ==> FirstMatch(t, p, tlo, thi) == Some(tlo + (FirstMatch(s, p, lo, hi).value - lo))
  {
    FirstMatchSpec(s, p, lo, hi);
    match FirstMatch(s, p, lo, hi)
    case None =>
      forall i | tlo <= i && i + |p| <= thi ensures !MatchAt(t, p, i) {
        MatchAtWindow(s, t, p, lo, hi, tlo, thi, lo + (i - tlo), i);
      }
      FirstMatchNone(t, p, tlo, thi);
    case Some(m) =>
      MatchAtWindow(s, t, p, lo, hi, tlo, thi, m, tlo + (m - lo));
      forall i | tlo <= i < tlo + (m - lo) ensures !MatchAt(t, p, i) {
        MatchAtWindow(s, t, p, lo, hi, tlo, thi, lo + (i - tlo), i);
      }
      FirstMatchIs(t, p, tlo, thi, tlo + (m - lo));
  }

  /** The forward replace and count of two windows holding the same bytes agree. */
  lemma {:induction false} FwdWindow(s: seq<byte>, t: seq<byte>, p: seq<byte>, r: seq<byte>,
                                     lo: nat, hi: nat, tlo: nat, thi: nat)
    requires |p| > 0 && SameWindow(s, t, lo, hi, tlo, thi)
    ensures Fwd(s, p, r, lo, hi) == Fwd(t, p, r, tlo, thi)
    ensures CountFwd(s, p, lo, hi) == CountFwd(t, p, tlo, thi)
    decreases hi - lo, 1
  {
    FirstMatchWindow(s, t, p, lo, hi, tlo, thi);
    match FirstMatch(s, p, lo, hi)
    case None =>
    case Some(j) =>
      var tj := tlo + (j - lo);
      SubWindow(s, t, lo, hi, tlo, thi, j + |p|, hi, tj + |p|, thi);
      SubWindow(s, t, lo, hi, tlo, thi, lo, j, tlo, tj);
      FwdWindowSome(s, t, p, r, lo, hi, tlo, thi, j, tj);
  }

  /** The windows' next occurrences, at the same offset, are replaced alike, and so is what follows them. */
  lemma {:induction false} FwdWindowSome(s: seq<byte>, t: seq<byte>, p: seq<byte>, r: seq<byte>,
                                         lo: nat, hi: nat, tlo: nat, thi: nat, j: nat, tj: nat)
    requires |p| > 0 && lo <= j && j + |p| <= hi <= |s| && tlo <= tj && tj + |p| <= thi <= |t|
    requires FirstMatch(s, p, lo, hi) == Some(j) && FirstMatch(t, p, tlo, thi) == Some(tj)
    requires t[tlo..tj] == s[lo..j] && SameWindow(s, t, j + |p|, hi, tj + |p|, thi)
    ensures Fwd(s, p, r, lo, hi) == Fwd(t, p, r, tlo, thi)
    ensures CountFwd(s, p, lo, hi) == CountFwd(t, p, tlo, thi)
    decreases hi - lo, 0
  {
    FwdWindow(s, t, p, r, j + |p|, hi, tj + |p|, thi);
    FwdWindowStep(s, t, p, r, lo, hi, j, tlo, thi, tj);
    CountWindowStep(s, t, p, lo, hi, j, tlo, thi, tj);
  }

  /** One replaced occurrence: two windows that agree up to their next occurrence and after it agree. */
  lemma FwdWindowStep(s: seq<byte>, t: seq<byte>, p: seq<byte>, r: seq<byte>, lo: nat, hi: nat, j: nat,
                     tlo: nat, thi: nat, tj: nat)
    requires |p| > 0 && lo <= j && j + |p| <= hi <= |s| && tlo <= tj && tj + |p| <= thi <= |t|
    requires FirstMatch(s, p, lo, hi) == Some(j) && FirstMatch(t, p, tlo, thi) == Some(tj)
    requires t[tlo..tj] == s[lo..j]
    requires Fwd(s, p, r, j + |p|, hi) == Fwd(t, p, r, tj + |p|, thi)
    ensures Fwd(s, p, r, lo, hi) == Fwd(t, p, r, tlo, thi)
  {
    FwdUnfold(s, p, r, lo, hi, j);
    FwdUnfold(t, p, r, tlo, thi, tj);
  }

  /** The occurrence count of the same step. */
  lemma CountWindowStep(s: seq<byte>, t: seq<byte>, p: seq<byte>, lo: nat, hi: nat, j: nat,
                       tlo: nat, thi: nat, tj: nat)
    requires |p| > 0 && lo <= j && j + |p| <= hi <= |s| && tlo <= tj && tj + |p| <= thi <= |t|
    requires FirstMatch(s, p, lo, hi) == Some(j) && FirstMatch(t, p, tlo, thi) == Some(tj)
    requires CountFwd(s, p, j + |p|, hi) == CountFwd(t, p, tj + |p|, thi)
    ensures CountFwd(s, p, lo, hi) == CountFwd(t, p, tlo, thi)
  {
    CountUnfold(s, p, lo, hi, j);
    CountUnfold(t, p, tlo, thi, tj);
  }

  /** The forward replace and count of a window of `s` are those of the same window of a subview holding it. */
  lemma FwdSlice(s: seq<byte>, p: seq<byte>, r: seq<byte>, a: nat, b: nat, lo: nat, hi: nat)
    requires |p| > 0 && a <= lo <= hi <= b <= |s|
    ensures Fwd(s, p, r, lo, hi) == Fwd(s[a..b], p, r, lo - a, hi - a)
    ensures CountFwd(s, p, lo, hi) == CountFwd(s[a..b], p, lo - a, hi - a)
  {
    SliceOfSlice(s, a, b, lo - a, hi - a);
    FwdWindow(s, s[a..b], p, r, lo, hi, lo - a, hi - a);
  }

  /** The forward replace of a window is ReplaceAll of the subview, and its count is `count` of that subview. */
  lemma WindowIsSubview(s: seq<byte>, p: seq<byte>, r: seq<byte>, lo: nat, hi: nat)
    requires |p| > 0 && lo <= hi <= |s|
    ensures Fwd(s, p, r, lo, hi) == ReplaceAll(s[lo..hi], p, r)
    ensures CountFwd(s, p, lo, hi) == Count(s[lo..hi], p)
  {
    FwdSlice(s, p, r, lo, hi, lo, hi);
  }

  // ---------------------------------------------------------------------------
  // Properties of replace-all

  /** Every replaced occurrence moves the length by |r| - |p|. */
  lemma ReplaceAllLength(t: seq<byte>, p: seq<byte>, r: seq<byte>)
    requires |p| > 0
    ensures |ReplaceAll(t, p, r)| == |t| + Count(t, p) * (|r| - |p|)
  {
    FwdLength(t, p, r, 0, |t|);
  }

  /** Without occurrences, replace-all is the identity. */
  lemma ReplaceAllNoMatch(t: seq<byte>, p: seq<byte>, r: seq<byte>)
    requires |p| > 0 && Count(t, p) == 0
    ensures ReplaceAll(t, p, r) == t
  {
    assert FirstMatch(t, p, 0, |t|).None?;
  }

  /** Replacing a pattern by itself changes nothing. */
  lemma {:induction false} FwdSelf(s: seq<byte>, p: seq<byte>, lo: nat, hi: nat)
    requires |p| > 0 && lo <= hi <= |s|
    ensures Fwd(s, p, p, lo, hi) == s[lo..hi]
    decreases hi - lo
  {
    match FirstMatch(s, p, lo, hi)
    case None =>
    case Some(j) =>
      FwdSelf(s, p, j + |p|, hi);
      FirstMatchFound(s, p, lo, hi);
      FwdSelfStep(s, p, lo, hi, j);
  }

  lemma FwdSelfStep(s: seq<byte>, p: seq<byte>, lo: nat, hi: nat, j: nat)
    requires |p| > 0 && lo <= j && j + |p| <= hi <= |s| && MatchAt(s, p, j)
    requires FirstMatch(s, p, lo, hi) == Some(j) && Fwd(s, p, p, j + |p|, hi) == s[j + |p|..hi]
    ensures Fwd(s, p, p, lo, hi) == s[lo..hi]
  {
    FwdUnfold(s, p, p, lo, hi, j);
    assert s[j..j + |p|] == p;
    assert s[lo..hi] == s[lo..j] + s[j..j + |p|] + s[j + |p|..hi];
  }

  // ---------------------------------------------------------------------------
  // Left-to-right against right-to-left picking

  /**
   * With f the first and l the last occurrence of a window, the windows left
   * after taking away either one agree: both hold the occurrences strictly between.
   */
  lemma Inner(s: seq<byte>, p: seq<byte>, lo: nat, hi: nat, f: nat, l: nat)
    requires |p| > 0 && lo <= hi <= |s|
    requires FirstMatch(s, p, lo, hi) == Some(f) && LastMatch(s, p, lo, hi) == Some(l)
    ensures f <= l
    ensures f + |p| <= l ==> LastMatch(s, p, f + |p|, hi) == Some(l) && FirstMatch(s, p, lo, l) == Some(f)
    ensures l < f + |p| ==> LastMatch(s, p, f + |p|, hi) == None && FirstMatch(s, p, lo, l) == None
  {
    FirstMatchSpec(s, p, lo, hi);
    LastMatchSpec(s, p, lo, hi);
    if f + |p| <= l {
      LastMatchIs(s, p, f + |p|, hi, l);
      FirstMatchIs(s, p, lo, l, f);
    } else {
      LastMatchNone(s, p, f + |p|, hi);
      FirstMatchNone(s, p, lo, l);
    }
  }

  /** Both greedy scans find the same number of occurrences. */
  lemma {:induction false} CountBwdIsCountFwd(s: seq<byte>, p: seq<byte>, lo: nat, hi: nat)
    requires |p| > 0 && lo <= hi <= |s|
    ensures CountBwd(s, p, lo, hi) == CountFwd(s, p, lo, hi)
    decreases hi - lo
  {
    var fm, lm := FirstMatch(s, p, lo, hi), LastMatch(s, p, lo, hi);
    if fm.None? {
      FirstMatchSpec(s, p, lo, hi);
      LastMatchNone(s, p, lo, hi);
    } else {
      if lm.None? {
        FirstMatchSpec(s, p, lo, hi);
        LastMatchSpec(s, p, lo, hi);
        assert false;
      }
      var f, l := fm.value, lm.value;
      Inner(s, p, lo, hi, f, l);
      CountBwdIsCountFwd(s, p, f + |p|, hi);
      CountBwdIsCountFwd(s, p, lo, l);
      if f + |p| <= l {
        CountBwdIsCountFwd(s, p, f + |p|, l);
      }
      CountSplit(s, p, lo, hi, f, l);
    }
  }

  lemma CountSplit(s: seq<byte>, p: seq<byte>, lo: nat, hi: nat, f: nat, l: nat)
    requires |p| > 0 && lo <= f && f + |p| <= hi <= |s| && lo <= l && l + |p| <= hi
    requires FirstMatch(s, p, lo, hi) == Some(f) && LastMatch(s, p, lo, hi) == Some(l)
    requires f + |p| <= l ==> LastMatch(s, p, f + |p|, hi) == Some(l) && FirstMatch(s, p, lo, l) == Some(f)
    requires l < f + |p| ==> LastMatch(s, p, f + |p|, hi) == None && FirstMatch(s, p, lo, l) == None
    requires CountBwd(s, p, f + |p|, hi) == CountFwd(s, p, f + |p|, hi)
    requires CountBwd(s, p, lo, l) == CountFwd(s, p, lo, l)
    requires f + |p| <= l ==> CountBwd(s, p, f + |p|, l) == CountFwd(s, p, f + |p|, l)
    ensures CountBwd(s, p, lo, hi) == CountFwd(s, p, lo, hi)
  {
  }

  /** No proper suffix of `p` is also a prefix of it, so two occurrences never overlap. */
  predicate NonSelfOverlapping(p: seq<byte>) {
    forall k :: 0 < k < |p| ==> p[k..] != p[..|p| - k]
  }

  lemma MatchesApart(s: seq<byte>, p: seq<byte>, i: nat, j: nat)
    requires NonSelfOverlapping(p) && MatchAt(s, p, i) && MatchAt(s, p, j) && i < j
    ensures i + |p| <= j
  {
    if j < i + |p| {
      var k := j - i;
      forall t | 0 <= t < |p| - k ensures p[k..][t] == p[..|p| - k][t] {
        assert s[i + (k + t)] == p[k + t];
        assert s[j + t] == p[t];
      }
      assert false;
    }
  }

  /** Distinct first and last occurrences of a non-self-overlapping pattern do not overlap. */
  lemma FirstLastApart(s: seq<byte>, p: seq<byte>, lo: nat, hi: nat, f: nat, l: nat)
    requires hi <= |s| && NonSelfOverlapping(p) && f != l
    requires FirstMatch(s, p, lo, hi) == Some(f) && LastMatch(s, p, lo, hi) == Some(l)
    ensures f + |p| <= l
  {
    FirstMatchSpec(s, p, lo, hi);
    LastMatchSpec(s, p, lo, hi);
    MatchesApart(s, p, f, l);
  }

  /** For a pattern that cannot overlap itself, both picking orders give the same result. */
  lemma {:induction false} BwdIsFwd(s: seq<byte>, p: seq<byte>, r: seq<byte>, lo: nat, hi: nat)
    requires |p| > 0 && lo <= hi <= |s| && NonSelfOverlapping(p)
    ensures Bwd(s, p, r, lo, hi) == Fwd(s, p, r, lo, hi)
    decreases hi - lo, 3
  {
    var fm, lm := FirstMatch(s, p, lo, hi), LastMatch(s, p, lo, hi);
    FirstMatchSpec(s, p, lo, hi);
    if fm.None? {
      LastMatchNone(s, p, lo, hi);
    } else {
      LastMatchSpec(s, p, lo, hi);
      if lm.None? {
        assert false;
      }
      BwdIsFwdAt(s, p, r, lo, hi, fm.value, lm.value);
    }
  }

  lemma {:induction false} BwdIsFwdAt(s: seq<byte>, p: seq<byte>, r: seq<byte>, lo: nat, hi: nat, f: nat, l: nat)
    requires |p| > 0 && lo <= hi <= |s| && NonSelfOverlapping(p)
    requires FirstMatch(s, p, lo, hi) == Some(f) && LastMatch(s, p, lo, hi) == Some(l)
    ensures Bwd(s, p, r, lo, hi) == Fwd(s, p, r, lo, hi)
    decreases hi - lo, 2
  {
    Inner(s, p, lo, hi, f, l);
    if f == l {
      BwdIsFwdOne(s, p, r, lo, hi, f);
    } else {
      FirstLastApart(s, p, lo, hi, f, l);
      BwdIsFwdApart(s, p, r, lo, hi, f, l);
    }
  }

  lemma {:induction false} BwdIsFwdApart(s: seq<byte>, p: seq<byte>, r: seq<byte>, lo: nat, hi: nat, f: nat, l: nat)
    requires |p| > 0 && lo <= f && f + |p| <= l && l + |p| <= hi <= |s| && NonSelfOverlapping(p)
    requires FirstMatch(s, p, lo, hi) == Some(f) && LastMatch(s, p, lo, hi) == Some(l)
    requires LastMatch(s, p, f + |p|, hi) == Some(l) && FirstMatch(s, p, lo, l) == Some(f)
    ensures Bwd(s, p, r, lo, hi) == Fwd(s, p, r, lo, hi)
    decreases hi - lo, 1
  {
    BwdSide(s, p, r, lo, hi, f, l);
    FwdHead(s, p, r, lo, hi, f);
    BwdTail(s, p, r, f + |p|, hi, l);
    Reassociate(Bwd(s, p, r, lo, hi), Fwd(s, p, r, lo, hi), s[lo..f], r, Fwd(s, p, r, f + |p|, l),
                s[l + |p|..hi], Bwd(s, p, r, f + |p|, hi));
  }

  /** Right to left: the last occurrence, then the rest of the window, which holds the first. */
  lemma {:induction false} BwdSide(s: seq<byte>, p: seq<byte>, r: seq<byte>, lo: nat, hi: nat, f: nat, l: nat)
    requires |p| > 0 && lo <= f && f + |p| <= l && l + |p| <= hi <= |s| && NonSelfOverlapping(p)
    requires LastMatch(s, p, lo, hi) == Some(l) && FirstMatch(s, p, lo, l) == Some(f)
    ensures Bwd(s, p, r, lo, hi) == (s[lo..f] + r + Fwd(s, p, r, f + |p|, l)) + r + s[l + |p|..hi]
    decreases hi - lo, 0
  {
    calc {
      Bwd(s, p, r, lo, hi);
    == { BwdUnfold(s, p, r, lo, hi, l); }
      Bwd(s, p, r, lo, l) + r + s[l + |p|..hi];
    == { BwdIsFwd(s, p, r, lo, l); }
      Fwd(s, p, r, lo, l) + r + s[l + |p|..hi];
    == { FwdUnfold(s, p, r, lo, l, f); }
      (s[lo..f] + r + Fwd(s, p, r, f + |p|, l)) + r + s[l + |p|..hi];
    }
  }

  /** Left to right: the first occurrence, then the rest of the window, picked right to left. */
  lemma {:induction false} FwdHead(s: seq<byte>, p: seq<byte>, r: seq<byte>, lo: nat, hi: nat, f: nat)
    requires |p| > 0 && lo <= f && f + |p| <= hi <= |s| && NonSelfOverlapping(p)
    requires FirstMatch(s, p, lo, hi) == Some(f)
    ensures Fwd(s, p, r, lo, hi) == s[lo..f] + r + Bwd(s, p, r, f + |p|, hi)
    decreases hi - lo, 0
  {
    FwdUnfold(s, p, r, lo, hi, f);
    BwdIsFwd(s, p, r, f + |p|, hi);
  }

  /** Right to left from the last occurrence, with the rest before it picked left to right. */
  lemma {:induction false} BwdTail(s: seq<byte>, p: seq<byte>, r: seq<byte>, lo: nat, hi: nat, l: nat)
    requires |p| > 0 && lo <= l && l + |p| <= hi <= |s| && NonSelfOverlapping(p)
    requires LastMatch(s, p, lo, hi) == Some(l)
    ensures Bwd(s, p, r, lo, hi) == Fwd(s, p, r, lo, l) + r + s[l + |p|..hi]
    decreases hi - lo, 0
  {
    BwdUnfold(s, p, r, lo, hi, l);
    BwdIsFwd(s, p, r, lo, l);
  }

  lemma BwdIsFwdOne(s: seq<byte>, p: seq<byte>, r: seq<byte>, lo: nat, hi: nat, f: nat)
    requires |p| > 0 && lo <= f && f + |p| <= hi <= |s|
    requires FirstMatch(s, p, lo, hi) == Some(f) && LastMatch(s, p, lo, hi) == Some(f)
    requires LastMatch(s, p, f + |p|, hi) == None && FirstMatch(s, p, lo, f) == None
    ensures Bwd(s, p, r, lo, hi) == Fwd(s, p, r, lo, hi)
  {
    NoneBothWays(s, p, lo, f);
    NoneBothWays(s, p, f + |p|, hi);
    FwdUnfold(s, p, r, lo, hi, f);
    BwdUnfold(s, p, r, lo, hi, f);
  }

  /** A window has an occurrence for `index_of` exactly when it has one for `last_index_of`. */
  lemma NoneBothWays(s: seq<byte>, p: seq<byte>, lo: nat, hi: nat)
    requires hi <= |s|
    ensures FirstMatch(s, p, lo, hi).None? <==> LastMatch(s, p, lo, hi).None?
  {
    FirstMatchSpec(s, p, lo, hi);
    LastMatchSpec(s, p, lo, hi);
  }

  lemma Reassociate(bw: seq<byte>, fw: seq<byte>, a: seq<byte>, r: seq<byte>, x: seq<byte>, b: seq<byte>, y: seq<byte>)
    requires bw == (a + r + x) + r + b
    requires fw == a + r + y && y == x + r + b
    ensures bw == fw
  {
    assert (a + r + x) + r + b == a + r + (x + r + b);
  }

  lemma FwdUnfold(s: seq<byte>, p: seq<byte>, r: seq<byte>, lo: nat, hi: nat, j: nat)
    requires |p| > 0 && lo <= j && j + |p| <= hi <= |s| && FirstMatch(s, p, lo, hi) == Some(j)
    ensures Fwd(s, p, r, lo, hi) == s[lo..j] + r + Fwd(s, p, r, j + |p|, hi)
  {
  }

  lemma CountUnfold(s: seq<byte>, p: seq<byte>, lo: nat, hi: nat, j: nat)
    requires |p| > 0 && lo <= j && j + |p| <= hi <= |s| && FirstMatch(s, p, lo, hi) == Some(j)
    ensures CountFwd(s, p, lo, hi) == 1 + CountFwd(s, p, j + |p|, hi)
  {
  }

  lemma BwdUnfold(s: seq<byte>, p: seq<byte>, r: seq<byte>, lo: nat, hi: nat, j: nat)
    requires |p| > 0 && lo <= j && j + |p| <= hi <= |s| && LastMatch(s, p, lo, hi) == Some(j)
    ensures Bwd(s, p, r, lo, hi) == Bwd(s, p, r, lo, j) + r + s[j + |p|..hi]
  {
  }

  // ---------------------------------------------------------------------------
  // Trimming by a set of elements: bytes of a sequence, or codepoints of a text

  /** How many leading elements of `s` are among `chars`. */
  function LeadingIn<T(==)>(s: seq<T>, chars: seq<T>): (k: nat)
    ensures k <= |s|
    ensures forall i :: 0 <= i < k ==> s[i] in chars
    ensures k < |s| ==> s[k] !in chars
  {
    if s == [] || s[0] !in chars then 0 else 1 + LeadingIn(s[1..], chars)
  }

  /** How many trailing elements of `s` are among `chars`. */
  function TrailingIn<T(==)>(s: seq<T>, chars: seq<T>): (k: nat)
    ensures k <= |s|
    ensures forall i :: |s| - k <= i < |s| ==> s[i] in chars
    ensures k < |s| ==> s[|s| - 1 - k] !in chars
  {
    if s == [] || s[|s| - 1] !in chars then 0 else 1 + TrailingIn(s[..|s| - 1], chars)
  }

  function TrimStart<T(==)>(s: seq<T>, chars: seq<T>): seq<T> {
    s[LeadingIn(s, chars)..]
  }

  function TrimEnd<T(==)>(s: seq<T>, chars: seq<T>): seq<T> {
    s[..|s| - TrailingIn(s, chars)]
  }

  /** Any k satisfying the characterisation of LeadingIn is LeadingIn. */
  lemma LeadingInUnique<T>(s: seq<T>, chars: seq<T>, k: nat)
    requires k <= |s| && (forall i :: 0 <= i < k ==> s[i] in chars) && (k < |s| ==> s[k] !in chars)
    ensures LeadingIn(s, chars) == k
  {

  }

  lemma TrailingInUnique<T>(s: seq<T>, chars: seq<T>, k: nat)
    requires k <= |s| && (forall i :: |s| - k <= i < |s| ==> s[i] in chars) && (k < |s| ==> s[|s| - 1 - k] !in chars)
    ensures TrailingIn(s, chars) == k
  {

  }

  /**
   * Trimming the start leaves a suffix of the original that is empty or
   * begins with a byte outside `chars`, every byte removed being in `chars`.
   */
  lemma TrimStartSpec<T>(s: seq<T>, chars: seq<T>)
    ensures var t := TrimStart(s, chars);
      |t| <= |s| && t == s[|s| - |t|..] &&
      (forall i :: 0 <= i < |s| - |t| ==> s[i] in chars) &&
      (t != [] ==> t[0] !in chars) &&
      (t == [] <==> forall i :: 0 <= i < |s| ==> s[i] in chars)
  {
    var k := LeadingIn(s, chars);
    if TrimStart(s, chars) == [] {
      assert k == |s|;
    } else {
      assert s[k] !in chars;
    }
  }

  /**
   * Trimming the end leaves a prefix of the original that is empty or ends
   * with a byte outside `chars`, every byte removed being in `chars`.
   */
  lemma TrimEndSpec<T>(s: seq<T>, chars: seq<T>)
    ensures var t := TrimEnd(s, chars);
      |t| <= |s| && t == s[..|t|] &&
      (forall i :: |t| <= i < |s| ==> s[i] in chars) &&
      (t != [] ==> t[|t| - 1] !in chars) &&
      (t == [] <==> forall i :: 0 <= i < |s| ==> s[i] in chars)
  {
    var k := TrailingIn(s, chars);
    if TrimEnd(s, chars) == [] {
      assert k == |s|;
    } else {
      assert s[|s| - 1 - k] !in chars;
    }
  }

  /** Trimming twice trims nothing more. */
  lemma TrimStartIdempotent<T>(s: seq<T>, chars: seq<T>)
    ensures TrimStart(TrimStart(s, chars), chars) == TrimStart(s, chars)
  {
    var t := TrimStart(s, chars);
    TrimStartSpec(s, chars);
    LeadingInUnique(t, chars, 0);
  }

  lemma TrimEndIdempotent<T>(s: seq<T>, chars: seq<T>)
    ensures TrimEnd(TrimEnd(s, chars), chars) == TrimEnd(s, chars)
  {
    var t := TrimEnd(s, chars);
    TrimEndSpec(s, chars);
    TrailingInUnique(t, chars, 0);
  }

  /** Trimming the end first and then the start gives the same bytes as the other order. */
  lemma TrimCommute<T>(s: seq<T>, chars: seq<T>)
    ensures TrimStart(TrimEnd(s, chars), chars) == TrimEnd(TrimStart(s, chars), chars)
  {
    var a, b := LeadingIn(s, chars), TrailingIn(s, chars);
    var e, st := TrimEnd(s, chars), TrimStart(s, chars);
    if a + b >= |s| {
      // every byte is in chars, or the two trimmed runs meet
      forall i | 0 <= i < |s| ensures s[i] in chars {
        if i >= a && i < |s| - b {
          assert false;
        }
      }
      LeadingInUnique(e, chars, |e|);
      TrailingInUnique(st, chars, |st|);
    } else {
      LeadingInUnique(e, chars, a);
      TrailingInUnique(st, chars, b);
      assert e[a..] == s[a..|s| - b] == st[..|st| - b];
    }
  }

  // ---------------------------------------------------------------------------
  // Splitting at the first occurrence

  /** `p` occurs nowhere in `s`. */
  predicate NoOccurrence(s: seq<byte>, p: seq<byte>) {
    forall j :: 0 <= j && j + |p| <= |s| ==> !MatchAt(s, p, j)
  }

  /** `view.split(p)`: the bytes before the first occurrence and those after it, or the whole and nothing. */
  function SplitOnce(s: seq<byte>, p: seq<byte>): (seq<byte>, seq<byte>)
    requires |p| > 0
  {
    match FirstMatch(s, p, 0, |s|)
    case None => (s, [])
    case Some(j) => (s[..j], s[j + |p|..])
  }

  /** Either the first occurrence separates the halves, or there is none and the left half is everything. */
  lemma SplitOnceSpec(s: seq<byte>, p: seq<byte>)
    requires |p| > 0
    ensures NoOccurrence(SplitOnce(s, p).0, p)
    ensures FirstMatch(s, p, 0, |s|).Some? ==> s == SplitOnce(s, p).0 + p + SplitOnce(s, p).1
    ensures FirstMatch(s, p, 0, |s|).None? ==> SplitOnce(s, p) == (s, [])
  {
    match FirstMatch(s, p, 0, |s|)
    case None =>
      FirstMatchSpec(s, p, 0, |s|);
    case Some(j) =>
      BeforeFirst(s, p, j);
  }

  /** The bytes before the first occurrence hold none, and the occurrence is followed by the rest. */
  lemma BeforeFirst(s: seq<byte>, p: seq<byte>, j: nat)
    requires |p| > 0 && FirstMatch(s, p, 0, |s|) == Some(j)
    ensures NoOccurrence(s[..j], p)
    ensures s == s[..j] + p + s[j + |p|..]
  {
    FirstMatchSpec(s, p, 0, |s|);
    PrefixNoOccurrence(s, p, j);
    MatchAtSplit(s, p, j);
  }

  lemma PrefixNoOccurrence(s: seq<byte>, p: seq<byte>, j: nat)
    requires |p| > 0 && j <= |s| && forall i :: 0 <= i < j ==> !MatchAt(s, p, i)
    ensures NoOccurrence(s[..j], p)
  {
    assert s[..j][0..j] == s[0..j];
    forall i | 0 <= i && i + |p| <= j ensures !MatchAt(s[..j], p, i) {
      MatchAtWindow(s, s[..j], p, 0, j, 0, j, i, i);
    }
  }

  lemma MatchAtSplit(s: seq<byte>, p: seq<byte>, j: nat)
    requires MatchAt(s, p, j)
    ensures s == s[..j] + p + s[j + |p|..]
  {
    assert s[j..j + |p|] == p;
    assert s == s[..j] + s[j..j + |p|] + s[j + |p|..];
  }

  /** The pieces `codeunit_sequence::split` visits: it stops as soon as the right half is empty. */
  function SplitPieces(s: seq<byte>, p: seq<byte>): (ps: seq<seq<byte>>)
    requires |p| > 0
    ensures |ps| >= 1
    decreases |s|
  {
    var (l, r) := SplitOnce(s, p);
    SplitOnceSpec(s, p);
    [l] + (if r == [] then [] else SplitPieces(r, p))
  }

  /** The pieces joined back with `p` between them. */
  function Join(ps: seq<seq<byte>>, p: seq<byte>): seq<byte>
  {
    if ps == [] then [] else if |ps| == 1 then ps[0] else ps[0] + p + Join(ps[1..], p)
  }

  /** One split, then the pieces of what follows the first occurrence. */
  lemma SplitPiecesUnfold(s: seq<byte>, p: seq<byte>)
    requires |p| > 0
    ensures SplitOnce(s, p).1 == [] ==> SplitPieces(s, p) == [SplitOnce(s, p).0]
    ensures SplitOnce(s, p).1 != [] ==> |SplitOnce(s, p).1| < |s|
    ensures SplitOnce(s, p).1 != [] ==> SplitPieces(s, p) == [SplitOnce(s, p).0] + SplitPieces(SplitOnce(s, p).1, p)
  {
    SplitOnceSpec(s, p);
  }

  /**
   * Joining the pieces gives the original back, except that a final `p`
   * (one followed by nothing) does not start a piece of its own.
   */
  lemma {:induction false} SplitJoin(s: seq<byte>, p: seq<byte>)
    requires |p| > 0
    ensures Join(SplitPieces(s, p), p) == s || Join(SplitPieces(s, p), p) + p == s
    decreases |s|
  {
    var l, r := SplitOnce(s, p).0, SplitOnce(s, p).1;
    SplitOnceSpec(s, p);
    SplitPiecesUnfold(s, p);
    if r != [] {
      var rest := SplitPieces(r, p);
      SplitJoin(r, p);
      JoinCons(l, rest, p);
      if Join(rest, p) + p == r {
        assert Join([l] + rest, p) + p == l + p + (Join(rest, p) + p);
      }
    }
  }

  lemma JoinCons(l: seq<byte>, rest: seq<seq<byte>>, p: seq<byte>)
    requires rest != []
    ensures Join([l] + rest, p) == l + p + Join(rest, p)
  {
    assert ([l] + rest)[1..] == rest;
  }

  /** No piece contains the separator. */
  lemma {:induction false} SplitPiecesNoOccurrence(s: seq<byte>, p: seq<byte>)
    requires |p| > 0
    ensures forall k :: 0 <= k < |SplitPieces(s, p)| ==> NoOccurrence(SplitPieces(s, p)[k], p)
    decreases |s|
  {
    SplitOnceSpec(s, p);
    SplitPiecesUnfold(s, p);
    var r := SplitOnce(s, p).1;
    if r != [] {
      SplitPiecesNoOccurrence(r, p);
    }
  }

  /** The pieces left after dropping the empty ones (`cull_empty`). */
  function NonEmpty(ps: seq<seq<byte>>): (qs: seq<seq<byte>>)
    ensures |qs| <= |ps|
    ensures forall k :: 0 <= k < |qs| ==> qs[k] != []
    ensures Flatten(qs) == Flatten(ps)
  {
    if ps == [] then []
    else
      var rest := NonEmpty(ps[1..]);
      if ps[0] == [] then rest else [ps[0]] + rest
  }
}
