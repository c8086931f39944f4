/**
 * `codeunit_sequence` (source/text.cpp): an owning byte buffer. Short
 * contents live inline (capacity SSO_SIZE_MAX), longer ones in a heap block
 * of `get_capacity(n + 1)` bytes whose last byte is kept for the terminator.
 * The two layouts the source overlays on one 16-byte block are told apart
 * here by the `isShort` tag.
 */
module CodeunitSequences {
  import opened Common
  import opened Capacity
  import opened IndexInterval
  import opened View
  import opened Passes
  import opened BackwardPass
  import opened SequenceSpec

  /** A heap capacity as the buffer uses it: get_capacity(n + 1) - 1 for some n > SSO_SIZE_MAX. */
  predicate HeapCapacity(c: nat) {
    IsPow2(c + 1) && c > SSO_SIZE_MAX
  }

  /** A heap block allocated for `n > SSO_SIZE_MAX` bytes has a heap capacity and room for them. */
  lemma HeapCapacityFor(n: nat)
    requires n > SSO_SIZE_MAX
    ensures HeapCapacity(NextPow2(n + 1) - 1) && NextPow2(n + 1) - 1 >= n
  {
    HeapCapacityFits(n);
  }

  /** The first `k + 1` bytes of a buffer are `X` and then `x`. */
  lemma SplitLast(A: seq<byte>, X: seq<byte>, x: byte, k: nat)
    requires k < |A| && |X| == k && A[..k + 1] == X + [x]
    ensures A[..k] == X && A[k] == x
  {
    assert A[..k] == A[..k + 1][..k];
  }

  /**
   * What a pass over the whole buffer owes, for content `S[..n]` and
   * terminator slot `n`: at least one occurrence in the window means both
   * searches find one, and the result is the content's outcome plus the slot.
   */
  lemma ReplaceWindow(S: seq<byte>, c: seq<byte>, n: nat, p: seq<byte>, r: seq<byte>, lo: nat, hi: nat, cap: nat, t: seq<byte>)
    requires |p| > 0 && lo <= hi <= n < |S| && c == S[..n] && Count(c[lo..hi], p) > 0
    requires t == ReplaceOutcome(c, p, r, lo, hi, cap)
    ensures FirstMatch(S, p, lo, hi).Some? && LastMatch(S, p, lo, hi).Some?
    ensures |r| <= |p| || |t| > cap ==> Replaced(S, p, r, lo, hi, n + 1) == t + [S[n]]
    ensures |r| > |p| && |t| <= cap ==> ReplacedBwd(S, p, r, lo, hi, n + 1) == t + [S[n]]
  {
    WindowIsSubview(c, p, r, lo, hi);
    BufferReplaced(S, n, p, r, lo, hi);
    ReplaceOutcomeLength(c, p, r, lo, hi, cap);
    NoneBothWays(S, p, lo, hi);
  }

  lemma {:induction false} NegativeGrowth(count: nat, d: int)
    requires count > 0 && d < 0
    ensures count * d < 0
  {
    if count > 1 {
      NegativeGrowth(count - 1, d);
      assert count * d == (count - 1) * d + d;
    }
  }

  /** The loop of `split`, over the view `s`, appending the kept pieces to `into`. */
  method SplitScan(s: seq<byte>, splitter: seq<byte>, cullEmpty: bool, into: seq<seq<byte>>)
    returns (pieces: seq<seq<byte>>, count: nat)
    requires |splitter| > 0
    ensures count == |SplitPieces(s, splitter)|
    ensures pieces == into + KeptPieces(SplitPieces(s, splitter), cullEmpty)
  {
    var view := s;
    ghost var visited: seq<seq<byte>> := [];
    pieces, count := into, 0;
    while true
      invariant visited + SplitPieces(view, splitter) == SplitPieces(s, splitter)
      invariant pieces == into + KeptPieces(visited, cullEmpty) && count == |visited|
      decreases |view|
    {
      var (left, right) := SplitOnce(view, splitter);
      SplitPiecesUnfold(view, splitter);
      NonEmptyConcat(visited, [left]);
      if !cullEmpty || left != [] {
        Associate(into, KeptPieces(visited, cullEmpty), [left]);
        pieces := pieces + [left];
      }
      count := count + 1;
      if right == [] {
        visited := visited + [left];
        break;
      }
      ghost var rest := SplitPieces(right, splitter);
      Associate(visited, [left], rest);
      visited := visited + [left];
      view := right;
    }
  }

  /** The scan of `self_trim_start`: how many leading bytes of `a[..n]` are in `chars`. */
  method LeadingCount(a: array<byte>, n: nat, chars: seq<byte>) returns (i: nat)
    requires n <= a.Length
    ensures i == LeadingIn(a[..n], chars)
  {
    i := 0;
    while i < n && a[i] in chars
      invariant i <= n
      invariant forall k :: 0 <= k < i ==> a[..n][k] in chars
    {
      i := i + 1;
    }
    LeadingInUnique(a[..n], chars, i);
  }

  /** The scan of `self_trim_end`: the index of the last byte of `a[..n]` not in `chars`, or -1. */
  method LastKept(a: array<byte>, n: nat, chars: seq<byte>) returns (i: int)
    requires n <= a.Length
    ensures i == n - 1 - TrailingIn(a[..n], chars)
  {
    i := n - 1;
    while i >= 0 && a[i] in chars
      invariant -1 <= i < n
      invariant forall k :: i < k < n ==> a[..n][k] in chars
    {
      i := i - 1;
    }
    TrailingInUnique(a[..n], chars, n - 1 - i);
  }

  /**
   * The rebuilding pass of `replace` stated on the content `a[..n]`: the new
   * block receives the outcome and then the terminator slot's byte.
   */
  method RebuildInto(a: array<byte>, dst: array<byte>, n: nat, p: seq<byte>, r: seq<byte>, lo: nat, hi: nat,
                     answer: nat, cap: nat)
    requires a != dst && n < a.Length && 0 < |p| && lo <= hi <= n && Count(a[..n][lo..hi], p) > 0
    requires answer == |ReplaceOutcome(a[..n], p, r, lo, hi, cap)| && answer > cap && answer < dst.Length
    modifies dst
    ensures dst[..answer] == ReplaceOutcome(a[..n], p, r, lo, hi, cap) && dst[answer] == a[n]
  {
    ghost var c, S := a[..n], a[..];
    ghost var t := ReplaceOutcome(c, p, r, lo, hi, cap);
    ReplaceWindow(S, c, n, p, r, lo, hi, cap, t);
    ReplaceGrow(a, dst, n + 1, p, r, lo, hi, answer, S);
    SplitLast(dst[..], t, S[n], answer);
  }

  /** Reversing [lo, hi) of a buffer reverses it in the content the buffer starts with. */
  lemma ReversedWithin(A: seq<byte>, lo: nat, hi: nat, n: nat)
    requires lo <= hi <= n <= |A|
    ensures (A[..lo] + Reversed(A[lo..hi]) + A[hi..])[..n] == A[..n][..lo] + Reversed(A[..n][lo..hi]) + A[..n][hi..]
  {
    assert A[..n][lo..hi] == A[lo..hi];
    assert A[..n][..lo] == A[..lo];
    var R := Reversed(A[lo..hi]);
    assert (A[..lo] + R + A[hi..])[..n] == A[..lo] + R + A[hi..n];
  }

  /**
   * The splice of `replace(range, dest)` on the buffer: W before, B after
   * copying `dest` to `lo`, C after sliding [hi, n) down behind it.
   */
  lemma Spliced(W: seq<byte>, B: seq<byte>, C: seq<byte>, lo: nat, hi: nat, n: nat, dest: seq<byte>)
    requires lo + |dest| <= hi <= n <= |W|
    requires B == W[..lo] + dest + W[lo + |dest|..]
    requires C == B[..lo + |dest|] + B[hi..n] + B[lo + |dest| + (n - hi)..]
    ensures |C| == |W| && C[..n - (hi - lo) + |dest|] == W[..n][..lo] + dest + W[..n][hi..]
  {
    assert B[..lo + |dest|] == W[..lo] + dest;
    assert B[hi..n] == W[hi..n];
    assert C[..n - (hi - lo) + |dest|] == B[..lo + |dest|] + B[hi..n];
  }

  /** The splice of `replace(range, dest)` when `dest` is exactly as long as the selection. */
  lemma SplicedEqual(W: seq<byte>, B: seq<byte>, lo: nat, hi: nat, n: nat, dest: seq<byte>)
    requires lo + |dest| == hi <= n <= |W|
    requires B == W[..lo] + dest + W[lo + |dest|..]
    ensures B[..n] == W[..n][..lo] + dest + W[..n][hi..]
  {
    assert W[..n][hi..] == W[hi..n];
  }

  class CodeunitSequence {
    /** The live storage: the inline block or the heap block, `Capacity() + 1` bytes. */
    var buf: array<byte>
    var size: nat
    var isShort: bool
    /** `as_norm().capacity`, meaningful only for a heap block. */
    var heapCapacity: nat

    /** `get_capacity()`. */
    function Capacity(): nat
      reads this
    {
      if isShort then SSO_SIZE_MAX else heapCapacity
    }

    ghost predicate Valid()
      reads this
    {
      buf.Length == Capacity() + 1 && size <= Capacity() &&
      (!isShort ==> HeapCapacity(heapCapacity))
    }

    /** The bytes of `view()`. */
    function Content(): (c: seq<byte>)
      requires Valid()
      reads this, buf
      ensures |c| == size
    {
      buf[..size]
    }

    /** `c_str()` sees a terminator right after the content. */
    ghost predicate Terminated()
      reads this, buf
    {
      Valid() && buf[size] == 0
    }

    /**
     * The storage for a buffer that has to hold `n` bytes: the zeroed inline
     * block when they fit, else a heap block of get_capacity(n + 1) bytes
     * whose contents are not initialised.
     */
    static method Storage(n: nat) returns (b: array<byte>, short: bool, heapCap: nat)
      ensures fresh(b)
      ensures short <==> n <= SSO_SIZE_MAX
      ensures short ==> b.Length == SSO_SIZE_MAX + 1 && b[0] == 0
      ensures !short ==> heapCap == NextPow2(n + 1) - 1 && HeapCapacity(heapCap) && b.Length == heapCap + 1 && heapCap >= n
    {
      if n <= SSO_SIZE_MAX {
        b := new byte[SSO_SIZE_MAX + 1](_ => 0);
        short, heapCap := true, 0;
      } else {
        var memoryCapacity := GetCapacity(n + 1);
        HeapCapacityFor(n);
        b := new byte[memoryCapacity];
        short, heapCap := false, memoryCapacity - 1;
      }
    }

    /** `codeunit_sequence()`: empty, inline, zeroed. */
    constructor ()
      ensures Valid() && Terminated() && isShort && Content() == [] && fresh(buf)
    {
      buf := new byte[SSO_SIZE_MAX + 1](_ => 0);
      size, isShort, heapCapacity := 0, true, 0;
    }

    /**
     * `codeunit_sequence(size)`: empty with room for `n` bytes. Only the
     * inline block is zeroed; a heap block gets no terminator.
     */
    constructor WithCapacity(n: nat)
      ensures Valid() && Content() == [] && Capacity() >= n && fresh(buf)
      ensures isShort <==> n <= SSO_SIZE_MAX
      ensures isShort ==> Terminated()
      ensures !isShort ==> heapCapacity == NextPow2(n + 1) - 1
    {
      var b, short, heapCap := Storage(n);
      buf, size, isShort, heapCapacity := b, 0, short, heapCap;
    }

    /** `codeunit_sequence(view)`: a copy of the bytes, terminated. */
    constructor FromBytes(sv: seq<byte>)
      ensures Valid() && Terminated() && Content() == sv && fresh(buf)
      ensures isShort <==> |sv| <= SSO_SIZE_MAX
      ensures !isShort ==> heapCapacity == NextPow2(|sv| + 1) - 1
    {
      var b, short, heapCap := Storage(|sv|);
      CopyInto(b, 0, sv, b[..]);
      b[|sv|] := 0;
      buf, size, isShort, heapCapacity := b, |sv|, short, heapCap;
    }

    /**
     * `reserve(n)`: nothing when `n` fits the capacity; otherwise move the
     * content (not its terminator) to a heap block of get_capacity(n + 1) bytes.
     */
    method Reserve(n: nat)
      requires Valid()
      modifies this
      ensures Valid() && Content() == old(Content()) && Capacity() >= n
      ensures n <= old(Capacity()) ==> buf == old(buf) && Capacity() == old(Capacity())
      ensures n > old(Capacity()) ==> fresh(buf) && !isShort && heapCapacity == NextPow2(n + 1) - 1
    {
      if n <= Capacity() {
        return;
      }
      var memoryCapacity := GetCapacity(n + 1);
      HeapCapacityFor(n);
      var data := new byte[memoryCapacity];
      CopyInto(data, 0, buf[..size], data[..]);
      buf, isShort, heapCapacity := data, false, memoryCapacity - 1;
    }

    /** `empty()`: size 0 and a terminator at the front; the storage stays. */
    method Empty()
      requires Valid()
      modifies this, buf
      ensures Valid() && Terminated() && Content() == []
      ensures buf == old(buf) && isShort == old(isShort) && heapCapacity == old(heapCapacity)
    {
      size := 0;
      buf[0] := 0;
    }

    /** `empty(size)`: empty, keeping the storage when `n` fits, else in a new heap block. */
    method EmptyWithCapacity(n: nat)
      requires Valid()
      modifies this, buf
      ensures Valid() && Terminated() && Content() == [] && Capacity() >= n
      ensures n <= old(Capacity()) ==> buf == old(buf) && Capacity() == old(Capacity())
      ensures n > old(Capacity()) ==> fresh(buf) && !isShort && heapCapacity == NextPow2(n + 1) - 1
    {
      if n <= Capacity() {
        Empty();
      } else {
        var memoryCapacity := GetCapacity(n + 1);
        HeapCapacityFor(n);
        var data := new byte[memoryCapacity];
        data[0] := 0;
        buf, size, isShort, heapCapacity := data, 0, false, memoryCapacity - 1;
      }
    }

    /** `operator+=(view)`: the bytes go after the content, which is then terminated. */
    method Append(rhs: seq<byte>)
      requires Valid()
      modifies this, buf
      ensures Valid() && Terminated() && Content() == old(Content()) + rhs
      ensures old(size) + |rhs| <= old(Capacity()) ==> buf == old(buf) && Capacity() == old(Capacity())
    {
      var answerSize := size + |rhs|;
      Reserve(answerSize);
      CopyInto(buf, size, rhs, buf[..]);
      buf[answerSize] := 0;
      size := answerSize;
    }

    /**
     * `append(count, codeunit)`: `count` copies of a non-zero byte after the
     * content; for the zero byte only the terminator is written and the new
     * bytes are whatever the storage held.
     */
    method AppendRepeat(count: nat, b: byte)
      requires Valid()
      modifies this, buf
      ensures Valid() && Terminated() && |Content()| == old(size) + count
      ensures Content()[..old(size)] == old(Content())
      ensures b != 0 ==> Content() == old(Content()) + Repeat(b, count)
      ensures old(size) + count <= old(Capacity()) ==> buf == old(buf) && Capacity() == old(Capacity())
    {
      var oldSize := size;
      var answerSize := oldSize + count;
      Reserve(answerSize);
      if b != 0 {
        CopyInto(buf, oldSize, Repeat(b, count), buf[..]);
      }
      buf[answerSize] := 0;
      size := answerSize;
    }

    /**
     * `subsequence(range)`: keep the selected bytes. An empty selection
     * empties, the full one changes nothing, any other moves the selection to
     * the front and terminates it. The storage never changes.
     */
    method Subsequence(range: Interval)
      requires Valid()
      modifies this, buf
      ensures Valid() && Content() == Subrange(old(Content()), Select(range, old(size)))
      ensures buf == old(buf) && isShort == old(isShort) && heapCapacity == old(heapCapacity)
      ensures old(Terminated()) ==> Terminated()
      ensures Select(range, old(size)) != FromUniversal(old(size)) ==> Terminated()
    {
      var selfSize := size;
      var selection := Select(range, selfSize);
      if selection.IsEmpty() {
        Empty();
        return;
      }
      if selection == FromUniversal(selfSize) {
        SubrangeWhole(Content());
        return;
      }
      KeepWindow(selection.min, selection.max);
    }

    /** The non-trivial case of `subsequence`: slide [from, last) to the front and terminate it. */
    method KeepWindow(from: nat, last: nat)
      requires Valid() && from < last <= size
      modifies this, buf
      ensures Valid() && Terminated() && Content() == old(Content())[from..last]
      ensures buf == old(buf) && isShort == old(isShort) && heapCapacity == old(heapCapacity)
    {
      ghost var c := Content();
      if from != 0 {
        MoveDown(buf, from, last);
      }
      ghost var moved := buf[..last - from];
      assert moved == c[from..last];
      var postSize := last - from;
      buf[postSize] := 0;
      assert buf[..postSize] == moved;
      size := postSize;
    }

    /** `self_remove_prefix(prefix)`: `subsequence({'[', |prefix|, '~'})` when the content starts with it. */
    method SelfRemovePrefix(prefix: seq<byte>)
      requires Valid()
      modifies this, buf
      ensures Valid() && Content() == RemovePrefix(old(Content()), prefix)
      ensures buf == old(buf) && isShort == old(isShort) && heapCapacity == old(heapCapacity)
      ensures old(Terminated()) ==> Terminated()
    {
      if StartsWith(Content(), prefix) {
        ghost var c := Content();
        SelectFrom(|prefix|, size);
        Subsequence(Interval(Inclusive(|prefix|), Unbounded));
        assert Content() == c[|prefix|..];
      }
    }

    /**
     * `self_remove_suffix(suffix)` as written: `subsequence({'[', 0,
     * -|suffix|, ')'})` when the content ends with it.
     */
    method SelfRemoveSuffixAsWritten(suffix: seq<byte>)
      requires Valid()
      modifies this, buf
      ensures Valid() && Content() == RemoveSuffixAsWritten(old(Content()), suffix)
      ensures buf == old(buf) && isShort == old(isShort) && heapCapacity == old(heapCapacity)
      ensures old(Terminated()) ==> Terminated()
    {
      if EndsWith(Content(), suffix) {
        Subsequence(Interval(Inclusive(0), Exclusive(0 - |suffix|)));
      }
    }

    /**
     * `self_remove_suffix(suffix)` with the upper bound counted from the
     * start, `{'[', 0, size - |suffix|, ')'}`, so that an empty suffix keeps
     * everything.
     */
    method SelfRemoveSuffix(suffix: seq<byte>)
      requires Valid()
      modifies this, buf
      ensures Valid() && Content() == RemoveSuffix(old(Content()), suffix)
      ensures buf == old(buf) && isShort == old(isShort) && heapCapacity == old(heapCapacity)
      ensures old(Terminated()) ==> Terminated()
    {
      if EndsWith(Content(), suffix) {
        ghost var c := Content();
        var keep := size - |suffix|;
        SelectClosedOpen(0, keep, size);
        Subsequence(Interval(Inclusive(0), Exclusive(keep)));
        assert Content() == c[..keep];
      }
    }

    /** `write_at(index, codeunit)`: a negative index counts from the end. */
    method WriteAt(index: int, b: byte)
      requires Valid() && 0 <= Resolve(index, size) < size
      modifies buf
      ensures Valid() && Content() == old(Content())[Resolve(index, size) := b]
      ensures old(Terminated()) ==> Terminated()
    {
      buf[index + (if index >= 0 then 0 else size)] := b;
    }

    /** `reverse(range)`: the selected bytes in reverse order, the others in place. */
    method Reverse(range: Interval)
      requires Valid()
      modifies buf
      ensures Valid() && Content() == ReverseOutcome(old(Content()), Select(range, size))
      ensures old(Terminated()) ==> Terminated()
    {
      var selection := Select(range, size);
      if !selection.IsEmpty() {
        ghost var A := buf[..];
        ReverseRange(buf, selection.min, selection.max);
        ReversedWithin(A, selection.min, selection.max, size);
      }
    }
  
    /**
     * `replace(pattern, replacement, range)`. Nothing happens for an empty
     * pattern or when the selected window holds no occurrence. Otherwise the
     * pass is chosen by the sizes: overwrite in place for equal sizes, compact
     * in place for a shorter replacement, rebuild in a new heap block when a
     * longer result exceeds the capacity, and else expand in place from the
     * back. The terminator travels with the content.
     */
    method Replace(p: seq<byte>, r: seq<byte>, range: Interval)
      requires Valid()
      modifies this, buf
      ensures Valid() && buf[size] == old(buf[size]) && Capacity() >= old(Capacity())
      ensures Select(range, old(size)).IsEmpty() ==> Content() == old(Content())
      ensures var sel := Select(range, old(size));
        !sel.IsEmpty() ==> Content() == ReplaceOutcome(old(Content()), p, r, sel.min, sel.max, old(Capacity()))
      ensures buf != old(buf) ==> fresh(buf) && !isShort
    {
      if |p| == 0 {
        return;
      }
      var selection := Select(range, size);
      var view := Subrange(Content(), selection);
      var count := Count(view, p);
      if count == 0 {
        if !selection.IsEmpty() {
          ReplaceOutcomeNoOp(Content(), p, r, selection.min, selection.max, Capacity());
        }
        return;
      }
      ReplaceOccurrences(p, r, selection.min, selection.max, count);
    }

    /**
     * The four passes of `replace`, once the window [lo, hi) is known to hold
     * `count > 0` occurrences; `answer` is the size of the result.
     */
    method ReplaceOccurrences(p: seq<byte>, r: seq<byte>, lo: nat, hi: nat, count: nat)
      requires Valid() && |p| > 0 && lo <= hi <= size && count == Count(Content()[lo..hi], p) && count > 0
      modifies this, buf
      ensures Valid() && buf[size] == old(buf[size]) && Capacity() >= old(Capacity())
      ensures Content() == ReplaceOutcome(old(Content()), p, r, lo, hi, old(Capacity()))
      ensures buf != old(buf) ==> fresh(buf) && !isShort
    {
      var answer := size + count * (|r| - |p|);
      ReplaceOutcomeLength(Content(), p, r, lo, hi, Capacity());
      if |r| == |p| {
        OverwriteOccurrences(p, r, lo, hi);
      } else if |r| < |p| {
        NegativeGrowth(count, |r| - |p|);
        CompactOccurrences(p, r, lo, hi, answer);
      } else if Capacity() < answer {
        RebuildOccurrences(p, r, lo, hi, answer);
      } else {
        ExpandOccurrences(p, r, lo, hi, answer);
      }
    }

    /** Equal sizes: each occurrence is overwritten where it lies. */
    method OverwriteOccurrences(p: seq<byte>, r: seq<byte>, lo: nat, hi: nat)
      requires Valid() && 0 < |p| == |r| && lo <= hi <= size && Count(Content()[lo..hi], p) > 0
      modifies buf
      ensures Valid() && buf[size] == old(buf[size])
      ensures Content() == ReplaceOutcome(old(Content()), p, r, lo, hi, Capacity())
    {
      ghost var c, S := Content(), buf[..];
      ghost var t := ReplaceOutcome(c, p, r, lo, hi, Capacity());
      ReplaceWindow(S, c, size, p, r, lo, hi, Capacity(), t);
      ReplaceOutcomeLength(c, p, r, lo, hi, Capacity());
      ReplaceEqual(buf, size + 1, p, r, lo, hi);
      SplitLast(buf[..], t, S[size], size);
    }

    /** A shorter replacement: the buffer is compacted in place from the first occurrence on. */
    method CompactOccurrences(p: seq<byte>, r: seq<byte>, lo: nat, hi: nat, answer: nat)
      requires Valid() && 0 < |p| && |r| < |p| && lo <= hi <= size && Count(Content()[lo..hi], p) > 0
      requires answer == |ReplaceOutcome(Content(), p, r, lo, hi, Capacity())| && answer < size
      modifies this, buf
      ensures Valid() && buf[size] == old(buf[size])
      ensures Content() == ReplaceOutcome(old(Content()), p, r, lo, hi, old(Capacity()))
      ensures buf == old(buf) && isShort == old(isShort) && heapCapacity == old(heapCapacity)
    {
      ghost var c, S := Content(), buf[..];
      ghost var t := ReplaceOutcome(c, p, r, lo, hi, Capacity());
      ReplaceWindow(S, c, size, p, r, lo, hi, Capacity(), t);
      ReplaceShrink(buf, size + 1, p, r, lo, hi, answer, S);
      SplitLast(buf[..], t, S[size], answer);
      size := answer;
    }

    /** A longer result past the capacity: it is built in a new heap block of get_capacity(answer + 1) bytes. */
    method RebuildOccurrences(p: seq<byte>, r: seq<byte>, lo: nat, hi: nat, answer: nat)
      requires Valid() && 0 < |p| && lo <= hi <= size && Count(Content()[lo..hi], p) > 0
      requires answer == |ReplaceOutcome(Content(), p, r, lo, hi, Capacity())| && answer > Capacity()
      modifies this
      ensures Valid() && buf[size] == old(buf[size])
      ensures Content() == ReplaceOutcome(old(Content()), p, r, lo, hi, old(Capacity()))
      ensures fresh(buf) && !isShort && heapCapacity == NextPow2(size + 1) - 1 && Capacity() > old(Capacity())
    {
      var data, short, heapCap := Storage(answer);
      RebuildInto(buf, data, size, p, r, lo, hi, answer, Capacity());
      buf, size, isShort, heapCapacity := data, answer, short, heapCap;
    }

    /** A longer result within the capacity: the buffer is expanded in place from the back. */
    method ExpandOccurrences(p: seq<byte>, r: seq<byte>, lo: nat, hi: nat, answer: nat)
      requires Valid() && 0 < |p| < |r| && lo <= hi <= size && Count(Content()[lo..hi], p) > 0
      requires answer == |ReplaceOutcome(Content(), p, r, lo, hi, Capacity())| && answer <= Capacity()
      modifies this, buf
      ensures Valid() && buf[size] == old(buf[size])
      ensures Content() == ReplaceOutcome(old(Content()), p, r, lo, hi, old(Capacity()))
      ensures buf == old(buf) && isShort == old(isShort) && heapCapacity == old(heapCapacity)
    {
      ghost var c, S := Content(), buf[..];
      ghost var t := ReplaceOutcome(c, p, r, lo, hi, Capacity());
      ReplaceWindow(S, c, size, p, r, lo, hi, Capacity(), t);
      ReplaceBackward(buf, size + 1, p, r, lo, hi, answer, S);
      SplitLast(buf[..], t, S[size], answer);
      size := answer;
    }

    /**
     * `replace(range, destination)`: a destination no longer than the
     * selection is copied over its front and the rest of the content slides
     * down behind it. An empty selection and a longer destination (a branch
     * the source leaves unwritten) change nothing.
     */
    method ReplaceRange(range: Interval, dest: seq<byte>)
      requires Valid()
      modifies this, buf
      ensures Valid() && Content() == SpliceOutcome(old(Content()), Select(range, old(size)), dest)
      ensures buf == old(buf) && isShort == old(isShort) && heapCapacity == old(heapCapacity)
      ensures old(Terminated()) ==> Terminated()
    {
      var selfSize := size;
      var selection := Select(range, selfSize);
      if selection.IsEmpty() {
        return;
      }
      var delta := |dest| - selection.Size();
      if delta <= 0 {
        ghost var W := buf[..];
        CopyInto(buf, selection.min, dest, W);
        if delta == 0 {
          SplicedEqual(W, buf[..], selection.min, selection.max, selfSize, dest);
        } else {
          CloseGap(selection, dest, delta, W);
        }
      }
    }

    /**
     * The rest of `replace(range, dest)` for a destination shorter by
     * `-delta` bytes, once it has been copied over the front of the
     * selection: the bytes after the selection slide down behind it.
     */
    method CloseGap(selection: Selection, dest: seq<byte>, delta: int, ghost W: seq<byte>)
      requires Valid() && selection.min < selection.max <= size && delta == |dest| - selection.Size() < 0
      requires |W| == buf.Length && buf[..] == W[..selection.min] + dest + W[selection.min + |dest|..]
      modifies this, buf
      ensures Valid() && Terminated() && Content() == W[..old(size)][..selection.min] + dest + W[..old(size)][selection.max..]
      ensures buf == old(buf) && isShort == old(isShort) && heapCapacity == old(heapCapacity)
    {
      var selfSize := size;
      var answerSize := selfSize + delta;
      var sourceSuffix := Select(Interval(Inclusive(selection.max), Unbounded), selfSize);
      SelectFrom(selection.max, selfSize);
      ghost var B := buf[..];
      ShiftDown(buf, sourceSuffix.min, sourceSuffix.max, sourceSuffix.min + delta);
      Spliced(W, B, buf[..], selection.min, selection.max, selfSize, dest);
      buf[answerSize] := 0;
      size := answerSize;
    }

    /**
     * `split(splitter, pieces, cull_empty)`: cut the content at each first
     * occurrence of the splitter in what is left, until nothing is left after
     * one, appending the kept pieces to the caller's vector `into`; `count` is
     * the number of pieces visited.
     */
    method SplitInto(splitter: seq<byte>, into: seq<seq<byte>>, cullEmpty: bool) returns (pieces: seq<seq<byte>>, count: nat)
      requires Valid() && |splitter| > 0
      ensures count == |SplitPieces(Content(), splitter)|
      ensures pieces == into + KeptPieces(SplitPieces(Content(), splitter), cullEmpty)
    {
      pieces, count := SplitScan(Content(), splitter, cullEmpty, into);
    }

    /** `split(splitter, cull_empty)` returning a fresh vector: the kept pieces alone. */
    method Split(splitter: seq<byte>, cullEmpty: bool) returns (pieces: seq<seq<byte>>)
      requires Valid() && |splitter| > 0
      ensures pieces == KeptPieces(SplitPieces(Content(), splitter), cullEmpty)
    {
      var count;
      pieces, count := SplitInto(splitter, [], cullEmpty);
    }

    /**
     * `self_trim_start(characters)`: drop the leading bytes found in
     * `characters`, by `subsequence` from the first byte that is not, or by
     * `empty` when there is none.
     */
    method SelfTrimStart(chars: seq<byte>)
      requires Valid()
      modifies this, buf
      ensures Valid() && Content() == TrimStart(old(Content()), chars)
      ensures buf == old(buf) && isShort == old(isShort) && heapCapacity == old(heapCapacity)
      ensures old(Terminated()) ==> Terminated()
    {
      if size == 0 {
        return;
      }
      var i := LeadingCount(buf, size, chars);
      if i < size {
        SelectFrom(i, size);
        Subsequence(Interval(Inclusive(i), Unbounded));
      } else {
        Empty();
      }
    }

    /**
     * `self_trim_end(characters)`: drop the trailing bytes found in
     * `characters`, by `subsequence` up to the last byte that is not, or by
     * `empty` when there is none.
     */
    method SelfTrimEnd(chars: seq<byte>)
      requires Valid()
      modifies this, buf
      ensures Valid() && Content() == TrimEnd(old(Content()), chars)
      ensures buf == old(buf) && isShort == old(isShort) && heapCapacity == old(heapCapacity)
      ensures old(Terminated()) ==> Terminated()
    {
      if size == 0 {
        return;
      }
      ghost var c := Content();
      var i := LastKept(buf, size, chars);
      if i >= 0 {
        ghost var kept := c[..i + 1];
        assert TrimEnd(c, chars) == kept;
        SelectClosed(0, i, size);
        Subsequence(Interval(Inclusive(0), Inclusive(i)));
        assert Content() == kept;
      } else {
        assert TrimEnd(c, chars) == [];
        Empty();
      }
    }

    /** `self_trim(characters)`: the end first, then the start; the other order gives the same bytes. */
    method SelfTrim(chars: seq<byte>)
      requires Valid()
      modifies this, buf
      ensures Valid() && Content() == TrimStart(TrimEnd(old(Content()), chars), chars)
      ensures Content() == TrimEnd(TrimStart(old(Content()), chars), chars)
      ensures buf == old(buf) && isShort == old(isShort) && heapCapacity == old(heapCapacity)
      ensures old(Terminated()) ==> Terminated()
    {
      TrimCommute(Content(), chars);
      SelfTrimEnd(chars);
      SelfTrimStart(chars);
    }
  }
}
