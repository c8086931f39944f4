# OpenString `codeunit_sequence` and `text`, modelled in Dafny

This project models the core of OpenString's `source/text.cpp`. It has two layers.

**The byte buffer.** `codeunit_sequence` is an owning UTF-8 byte buffer.
- Up to 15 bytes (`SSO_SIZE_MAX`) are stored inline.
- Longer contents live in a heap block of `get_capacity(n + 1)` bytes. The last byte of that block is kept for the terminating zero.
- All mutators work in place on that buffer.

**The text wrapper.** `text` wraps the buffer and applies its mutators codepoint by codepoint.

## Modules

**Class and in-place passes**
- `CodeunitSequences` (codeunit_sequence.dfy): the class `CodeunitSequence`, with fields `buf` (an `array<byte>` of `Capacity() + 1` bytes), `size`, `isShort` and `heapCapacity`. The C++ overlays two layouts on one 16-byte block; here they are told apart by the explicit `isShort` tag.
- `Passes` (passes.dfy) and `BackwardPass` (backward.dfy): the index loops of the buffer's mutators, as methods over arrays:
  - copy;
  - slide down;
  - reverse;
  - the equal-size, shrinking and rebuilding passes of `replace`;
  - the in-place backward pass of `replace`.

  Each pass is proved against a function of the bytes it starts from.

**Specifications**
- `SequenceSpec` (sequence_spec.dfy): each byte-buffer mutator's outcome as a function of the old content, with the lemmas that say what it means.
- `View` (view.dfy): the specification of the `codeunit_sequence_view` searches the buffer relies on:
  - `index_of`, `last_index_of` and `count`;
  - a forward and a backward replace-all;
  - trimming;
  - `split`.
- `IndexInterval` (index_interval.dfy): `index_interval::select`.
- `Capacity` (capacity.dfy): `details::get_capacity` and the storage policy.
- `Utf8` (utf8.dfy): UTF-8 lengths, encoding and decoding, as in section 3 of RFC 3629, and the split of a well-formed string into codepoint spans. A codepoint span follows the byte syntax of section 4 of RFC 3629, which is exactly the shortest encoding of a Unicode scalar: overlong forms, surrogates and values past U+10FFFF are not well-formed, and two spans are equal exactly when their codepoints are.

**The text layer**
- `TextSpec` (text_spec.dfy) and `Texts` (text.dfy): the `text` class. Its mutators are stated on `Codepoints()`, the list of the byte spans of its codepoints.

Source paths below are relative to the repository root.

The interval semantics matter for the three findings below:
- A negative index counts from the end, with -1 naming the last element.
- A non-negative index, zero included, counts from the start.

## Model

| member | source | states |
|---|---|---|
| Capacity.GetCapacity | source/text.cpp:13-26 | `get_capacity(v)` is the least power of two that is at least `v`. It halves `1 << bit_pos` exactly when `v` is itself a power of two. The loop invariant ties `value` and `bit_pos` to `v`. |
| Capacity.NextPow2IsLeast | source/text.cpp:13-26 | No power of two that is at least `v` lies below `get_capacity(v)`. |
| Capacity.NextPow2Unique | source/text.cpp:13-26 | A power of two `q` with `q >= v > q / 2` is `get_capacity(v)`. |
| Capacity.HeapCapacityFits | source/text.cpp:171-182 | A heap block made for `n` bytes keeps `get_capacity(n + 1) - 1 >= n` bytes. For `n` past the inline size it is also larger than the inline block. |
| CodeunitSequences.CodeunitSequence.constructor | source/text.cpp:167-169 | The default sequence is empty, inline and terminated. |
| CodeunitSequences.CodeunitSequence.WithCapacity | source/text.cpp:171-182 | `codeunit_sequence(size)` is empty with capacity at least `size`. It is inline exactly when `size <= 15`, and otherwise has heap capacity `get_capacity(size + 1) - 1`. Only the inline form is terminated. |
| CodeunitSequences.CodeunitSequence.FromBytes | source/text.cpp:213-232 | Building from a view copies its bytes and terminates them. The storage kind and capacity follow the size. |
| CodeunitSequences.CodeunitSequence.Reserve | source/text.cpp:560-573 | Content is unchanged. A request within the capacity keeps the storage. A larger one moves to a fresh heap block of capacity `get_capacity(n + 1) - 1 >= n`. |
| CodeunitSequences.CodeunitSequence.Empty | source/text.cpp:536-540 | Content becomes empty and terminated. The storage and capacity stay. |
| CodeunitSequences.CodeunitSequence.EmptyWithCapacity | source/text.cpp:542-558 | The sequence becomes empty and terminated with capacity at least `size`. The old storage is kept when `size` fits, and a fresh heap block is used otherwise. |
| CodeunitSequences.CodeunitSequence.Append | source/text.cpp:281-289 | `+=` leaves content `old ++ rhs`, terminated. The storage is unchanged when the sum fits the capacity. |
| CodeunitSequences.CodeunitSequence.AppendRepeat | source/text.cpp:291-301 | The size grows by `count` and the old content is kept as a prefix. For a non-zero byte the content is `old ++ [c] * count`. It is terminated at the new size. |
| CodeunitSequences.CodeunitSequence.Subsequence | source/text.cpp:341-364 | Content becomes the resolved selection of the old content: empty for an empty selection, unchanged for the full one. Storage and capacity never change. |
| CodeunitSequences.CodeunitSequence.KeepWindow | source/text.cpp:353-361 | A proper window `[from, last)` is moved to the front and terminated in the same storage. |
| SequenceSpec.Subrange | source/text.cpp:341-364 | The kept content has the selection's size, and byte `k` is old byte `min + k`. |
| SequenceSpec.SubrangeWhole | source/text.cpp:351-353 | The full selection keeps the content unchanged. |
| SequenceSpec.SubrangeOfSubrange | source/text.cpp:341-364 | Two successive subsequences keep the same bytes as one subsequence with the composed range. |
| CodeunitSequences.CodeunitSequence.Replace | source/text.cpp:366-468 | Every size path of `replace(pattern, replacement, range)` leaves `ReplaceOutcome` of the old content and resolved selection. The byte past the content is kept, the capacity never shrinks, and a changed buffer is a fresh heap block. |
| CodeunitSequences.CodeunitSequence.ReplaceOccurrences | source/text.cpp:374-465 | Once the window holds `count > 0` occurrences, the pass picked by the sizes gives `ReplaceOutcome`. |
| CodeunitSequences.CodeunitSequence.OverwriteOccurrences | source/text.cpp:382-393 | The equal-size path overwrites each occurrence in place and gives `ReplaceOutcome`. |
| CodeunitSequences.CodeunitSequence.CompactOccurrences | source/text.cpp:394-411 | The shrinking path compacts in place, with the new size, and gives `ReplaceOutcome`. |
| CodeunitSequences.CodeunitSequence.RebuildOccurrences | source/text.cpp:414-440 | The growing path over the capacity builds the result in a fresh heap block of capacity `get_capacity(answer + 1) - 1`. |
| CodeunitSequences.CodeunitSequence.ExpandOccurrences | source/text.cpp:441-464 | The growing path within the capacity rewrites in place from the back and gives `ReplaceOutcome`. |
| CodeunitSequences.RebuildInto | source/text.cpp:417-433 | The new block receives the outcome on the content and then the terminator slot's byte. |
| SequenceSpec.ReplaceOutcomeNoOp | source/text.cpp:368-374 | An empty pattern, or a window with no occurrence, changes nothing. |
| SequenceSpec.ReplaceOutcomeLength | source/text.cpp:375-380 | The new size is `old + count * (|replacement| - |pattern|)`. |
| SequenceSpec.ReplaceOutcomeIsReplaceAll | source/text.cpp:382-465 | For a pattern that cannot overlap itself, every path replaces all occurrences in the window and keeps the bytes around it. |
| SequenceSpec.ReplaceOutcomeOutside | source/text.cpp:382-465 | The bytes before the window and after it keep their places relative to either end. |
| SequenceSpec.BufferReplaced | source/text.cpp:396-465 | A pass that runs over the terminator slot too gives the content's outcome followed by that slot. Bytes beyond the content never reach the window. |
| Passes.ReplaceEqual | source/text.cpp:382-393 | The equal-size loop leaves every occurrence, searched from the left after the last write, replaced in place. |
| Passes.ReplaceShrink | source/text.cpp:396-410 | The shrinking loop, reading `offset` bytes ahead of where it writes, leaves the left-to-right replacement followed by the moved terminator. |
| Passes.ReplaceGrow | source/text.cpp:420-433 | The rebuilding loop writes the left-to-right replacement and the terminator into the new block, and leaves the old one untouched. |
| BackwardPass.ReplaceBackward | source/text.cpp:445-463 | The in-place backward loop, searching with `last_index_of`, leaves the right-to-left replacement followed by the moved terminator. It never reads a byte it has already overwritten. |
| BackwardPass.LastIndexOf | source/text.cpp:445-457 | `last_index_of` on the live buffer returns an occurrence lying wholly in the selection with none after it in the selection, or -1 exactly when the selection holds no occurrence. |
| Passes.Find | source/text.cpp:387 | `index_of` on the live buffer returns an occurrence lying wholly in the selection with none before it in the selection, or -1 exactly when the selection holds no occurrence. |
| View.FirstMatchSpec | source/text.cpp:511-514 | `index_of` finds an occurrence with none before it in the window; a miss means there is none in the window. |
| View.LastMatchSpec | source/text.cpp:516-519 | `last_index_of` finds an occurrence with none after it in the window; a miss means there is none in the window. |
| View.CountBwdIsCountFwd | source/text.cpp:445-463 | The backward pass replaces as many occurrences as `count` found, which is what makes its precomputed size right. |
| View.BwdIsFwd | source/text.cpp:445-463 | For a pattern that cannot overlap itself, replacing from the right equals replacing from the left. |
| View.FwdLength | source/text.cpp:375-380 | Each left-to-right replacement changes the length by `|replacement| - |pattern|`. |
| View.BwdLength | source/text.cpp:445-463 | Each right-to-left replacement changes the length by `|replacement| - |pattern|`. |
| View.WindowIsSubview | source/text.cpp:370-372 | Replacing inside a window of the buffer is replace-all on `subview(selection)`, and the count is that subview's `count`. |
| View.ReplaceAllLength | source/text.cpp:375-380 | Replace-all on a view changes its length by `count * (|replacement| - |pattern|)`. |
| View.ReplaceAllNoMatch | source/text.cpp:372-374 | Replace-all without occurrences is the identity. |
| View.FwdSelf | source/text.cpp:382-393 | Replacing a pattern by itself changes nothing. |
| CodeunitSequences.CodeunitSequence.ReplaceRange | source/text.cpp:470-499 | `replace(range, dest)` leaves `SpliceOutcome`. It is the identity for an empty selection or a longer `dest`; otherwise `dest` takes the selection's place. Storage is unchanged. |
| CodeunitSequences.CodeunitSequence.CloseGap | source/text.cpp:484-491 | After `dest` is copied over the front of the selection, the bytes after the selection slide down behind it and the result is terminated at the new size. |
| SequenceSpec.SpliceOutcomeSpec | source/text.cpp:477-491 | A splice that happens has size `old - |selection| + |dest|`, keeps the prefix and the suffix, and has `dest` in between. |
| SequenceSpec.SpliceOutcomeRestores | source/text.cpp:470-499 | Splicing a selection's own bytes back restores the content. |
| Passes.ShiftDown | source/text.cpp:486-488 | Sliding `[from, last)` down to `to` reads every byte before overwriting it. The result is the old prefix, the moved range, then the old tail. |
| Passes.CopyInto | source/text.cpp:482-483 | The copy loop writes `dest` at position `at` and changes no other byte. |
| CodeunitSequences.CodeunitSequence.SelfRemovePrefix | source/text.cpp:501-504 | When the content starts with the prefix, exactly the prefix is dropped; otherwise nothing changes. |
| SequenceSpec.RemovePrefixSpec | source/text.cpp:501-504 | `prefix ++ result == old` when the prefix is present; the content is unchanged otherwise. |
| CodeunitSequences.CodeunitSequence.SelfRemoveSuffixAsWritten | source/text.cpp:506-509 | The code as written keeps the selection `{'[', 0, -|suffix|, ')'}` when the content ends with the suffix. |
| SequenceSpec.RemoveSuffixAsWrittenAgrees | source/text.cpp:506-509 | For a non-empty suffix, the code as written removes exactly the suffix. |
| SequenceSpec.RemoveEmptySuffixClears | source/text.cpp:506-509 | Removing the empty suffix from non-empty content clears it, while the intended result is the content unchanged. |
| CodeunitSequences.CodeunitSequence.SelfRemoveSuffix | source/text.cpp:506-509 | The corrected `self_remove_suffix` removes exactly the suffix when present and keeps everything for an empty suffix. |
| SequenceSpec.RemoveSuffixSpec | source/text.cpp:506-509 | `result ++ suffix == old` when the suffix is present; otherwise unchanged; and the empty suffix keeps everything. |
| CodeunitSequences.CodeunitSequence.WriteAt | source/text.cpp:575-578 | `write_at` changes exactly the byte at the index, where a negative index counts from the end. |
| CodeunitSequences.CodeunitSequence.Reverse | source/text.cpp:595-609 | `reverse(range)` leaves the selected bytes in reverse order and the others in place. |
| Passes.ReverseRange | source/text.cpp:597-607 | The swapping loop reverses exactly `[lo, hi)`. |
| SequenceSpec.ReverseOutcomeAt | source/text.cpp:595-609 | A selected byte comes from its mirrored position; an unselected byte stays where it is. |
| SequenceSpec.ReverseOutcomeInvolution | source/text.cpp:595-609 | Reversing the same selection twice restores the content. |
| CodeunitSequences.CodeunitSequence.SplitInto | source/text.cpp:618-633 | `split(splitter, pieces, cull_empty)` appends the kept pieces (all of them, or only the non-empty ones with `cull_empty`) to the caller's vector, after what it already held, and returns the number of pieces visited. |
| CodeunitSequences.CodeunitSequence.Split | source/text.cpp:611-616 | `split(splitter, cull_empty)` returns exactly the kept pieces. |
| CodeunitSequences.SplitScan | source/text.cpp:620-632 | The splitting loop visits exactly the pieces of `SplitPieces` and appends the kept ones to the given vector. |
| View.SplitOnceSpec | source/text.cpp:624 | `view.split` returns the bytes before and after the first occurrence, or the whole view and nothing. The left half holds no occurrence. |
| View.SplitJoin | source/text.cpp:618-633 | Joining the pieces with the splitter gives back the content, except for a final splitter that is followed by nothing. |
| View.SplitPiecesNoOccurrence | source/text.cpp:618-633 | No piece contains the splitter. |
| CodeunitSequences.CodeunitSequence.SelfTrimStart | source/text.cpp:645-655 | `self_trim_start` leaves `TrimStart` of the content, in the same storage. |
| CodeunitSequences.LeadingCount | source/text.cpp:649-652 | The forward scan stops at the number of leading bytes that are in the set. |
| CodeunitSequences.CodeunitSequence.SelfTrimEnd | source/text.cpp:657-667 | `self_trim_end` leaves `TrimEnd` of the content, in the same storage. |
| CodeunitSequences.LastKept | source/text.cpp:661-664 | The backward scan stops at the last byte outside the set, or at -1. |
| CodeunitSequences.CodeunitSequence.SelfTrim | source/text.cpp:669-674 | `self_trim` trims the end and then the start, which gives the same bytes as the other order. |
| View.TrimStartSpec | source/text.cpp:645-655 | The result is a suffix of the old content. Every dropped byte is in the set, the first kept byte is not, and the result is empty exactly when every byte is in the set. |
| View.TrimEndSpec | source/text.cpp:657-667 | The result is a prefix of the old content. Every dropped byte is in the set, the last kept byte is not, and the result is empty exactly when every byte is in the set. |
| View.TrimStartIdempotent | source/text.cpp:645-655 | Trimming the start twice trims nothing more. |
| View.TrimEndIdempotent | source/text.cpp:657-667 | Trimming the end twice trims nothing more. |
| View.TrimCommute | source/text.cpp:669-674 | Trimming the end then the start equals trimming the start then the end. |
| IndexInterval.SelectFrom | source/text.cpp:652 | `{'[', k, '~'}` with `k <= n` selects `[k, n)`. |
| IndexInterval.SelectClosed | source/text.cpp:664 | `{'[', lo, hi, ']'}` inside the sequence selects `[lo, hi + 1)`. |
| IndexInterval.SelectDropLast | source/text.cpp:508 | `{'[', 0, -k, ')'}` with `0 < k <= n` drops the last `k` elements. |
| IndexInterval.SelectZeroExclusiveEnd | source/text.cpp:1048 | `{'[', 0, 0, ')'}` selects nothing, because a zero bound counts from the start. |
| IndexInterval.SelectClosedOpen | source/text.cpp:915 | `{'[', lo, hi, ')'}` with `lo <= hi <= n` selects exactly `[lo, hi)`. |
| Utf8.LeadLength | source/text.cpp:971 | `parse_utf8_length` of a byte is 0 exactly for a continuation byte `10xxxxxx`, and 1 exactly for ASCII. |
| Utf8.EncodedLength | source/text.cpp:807 | `parse_utf8_length` of a scalar is 1 to 4, and 1 exactly for ASCII. |
| Utf8.Encode | source/text.cpp:814 | The encoding of a scalar is a leading byte announcing the length `parse_utf8_length` gives, followed by continuation bytes. |
| Utf8.DecodeEncode | source/text.cpp:814 | Decoding an encoded scalar gives it back, and the encoding is one codepoint span. |
| Utf8.ChunkValue | source/text.cpp:1025 | A well-formed codepoint span, by the byte syntax of section 4 of RFC 3629, stands for a Unicode scalar and is that scalar's shortest encoding. |
| Utf8.MalformedRejected | source/text.cpp:1025 | Example on two fixed inputs: the overlong NUL `C0 80` and a sequence opened by `FF` are not well-formed text. |
| Utf8.EncodeDecode | source/text.cpp:1025 | Every codepoint span is the encoding of the codepoint it stands for. |
| Utf8.SameSpanSameCodepoint | source/text.cpp:1025 | Two codepoint spans are the same bytes exactly when they stand for the same codepoint. |
| Utf8.SpanInIffCodepointIn | source/text.cpp:1025 | A span is among the spans of `characters` exactly when its codepoint is among their codepoints, which is the test `characters.contains(it.get_codepoint())` makes. |
| Utf8.EncodedSizeIsLength | source/text.cpp:803-810 | The sizing pass's total is the length of the encoded string. |
| Utf8.EncodeAllConcat | source/text.cpp:811-816 | Encoding a concatenation of codepoints is encoding each part. |
| TextSpec.DecodeEncodeAll | source/text.cpp:801-818 | Decoding the spans `from_utf32` writes gives back the codepoints before the zero. |
| Texts.SizeUntil0 | source/text.cpp:803-810 | The sizing loop sums `parse_utf8_length` over the codepoints before the zero. |
| Texts.AppendUntil0 | source/text.cpp:811-816 | The encoding loop appends each codepoint's encoding without ever replacing the buffer. |
| Texts.Utf32Sequence | source/text.cpp:803-816 | The two passes give a terminated, well-formed buffer whose spans are the encoded codepoints and whose capacity is the one made for their total size. |
| Texts.EncodedFacts | source/text.cpp:801-818 | The encoding of scalars has the summed size, is well-formed and splits back into its spans. |
| Texts.Text.FromUtf32 | source/text.cpp:801-818 | `from_utf32` gives a terminated text whose codepoints encode the input up to its first zero, with capacity `CapacityFor(size)`. |
| Texts.Text.Subtext | source/text.cpp:901-917 | `subtext(range)` keeps exactly the selected codepoints. |
| TextSpec.OffsetSlice | source/text.cpp:912-915 | The bytes between the offsets of codepoints `a` and `b` are exactly those codepoints' spans. |
| TextSpec.SliceOfChunks | source/text.cpp:912-915 | A run of codepoint spans is well-formed and splits back into that run. |
| TextSpec.CodeunitRange | source/text.cpp:966 | `get_codeunit_range` starts at the selection's lower codepoint offset. It ends at the upper offset, or is empty for an empty selection. |
| Texts.Text.Reverse | source/text.cpp:964-978 | `text::reverse(range)` reverses the order of the selected codepoints, each keeping its byte pattern, and keeps the terminator. |
| Texts.Text.RestoreCodepoints | source/text.cpp:969-977 | After the byte reverse, the loop over the range restores every span and gives the window in codepoint-reversed order. |
| Texts.Text.RestoreStep | source/text.cpp:971-975 | One iteration re-reverses the span that ends at a leading byte and moves `lower_bound` past it; a continuation byte changes nothing. |
| Texts.Text.RestoreSpan | source/text.cpp:973 | Reversing `[lower_bound, i]` back restores that span. |
| TextSpec.ReversedFlatten | source/text.cpp:964-978 | Reversing concatenated spans gives the spans in reverse order, each reversed. |
| TextSpec.LeadAtEnd | source/text.cpp:971 | In a reversed span, only the last byte is a leading byte. |
| TextSpec.ReverseStart | source/text.cpp:966-967 | The byte reverse of the codeunit range leaves every span of the selection reversed, in reverse order. |
| TextSpec.ReverseEnd | source/text.cpp:969-977 | Once all spans are restored, the bytes are the codepoint list with the selection reversed. |
| TextSpec.ReverseOutcomeChunks | source/text.cpp:964-978 | Reversing codepoints keeps a list of whole spans. |
| Texts.Text.SelfTrimStart | source/text.cpp:1018-1031 | `text::self_trim_start` drops exactly the leading codepoints found among the codepoints of `characters`. |
| Texts.LeadingOffset | source/text.cpp:1022-1028 | The scan's `codeunit_index` is the byte size of those leading codepoints. |
| TextSpec.TrimStartBytes | source/text.cpp:1029 | Dropping that many bytes leaves exactly the trimmed codepoints, still well-formed. |
| Texts.Text.SelfTrimEndAsWritten | source/text.cpp:1033-1050 | As written, the trimmed size becomes a negative exclusive upper bound. A text with nothing to trim gets bound 0 and is cleared. |
| TextSpec.TrimEndAsWrittenAgrees | source/text.cpp:1033-1050 | When at least one codepoint is trimmed, the code as written trims correctly. |
| TextSpec.TrimEndAsWrittenClears | source/text.cpp:1048 | A non-empty text whose last codepoint is not in the set is cleared, where it should be kept whole. |
| Texts.Text.SelfTrimEnd | source/text.cpp:1033-1050 | The corrected `text::self_trim_end` drops exactly the trailing codepoints in the set and keeps the text when there are none. |
| Texts.TrailingOffset | source/text.cpp:1037-1047 | The backward scan's `codeunit_index` is minus the byte size of the trailing codepoints in the set. |
| TextSpec.TrimEndBytes | source/text.cpp:1048 | Dropping that many bytes from the end leaves exactly the trimmed codepoints, still well-formed. |
| Texts.Text.SelfTrimAsWritten | source/text.cpp:1052-1055 | As written, `text::self_trim` runs the end trim as written and then the start trim. The text is cleared unless at least one trailing codepoint is among the characters, and otherwise both ends are trimmed. |
| TextSpec.TrimEndAsWrittenOutcome | source/text.cpp:1033-1050 | The end trim as written leaves well-formed bytes whose codepoints are none when nothing is trimmed, and the correctly trimmed codepoints otherwise. |
| TextSpec.TrimAsWrittenClears | source/text.cpp:1052-1055 | For a non-empty text whose last codepoint is not among the characters, nothing is trimmed at the end, while a correct trim of both ends keeps at least that last codepoint. |
| Texts.Text.SelfTrim | source/text.cpp:1052-1055 | The corrected `text::self_trim` trims the corrected end and then the start, which gives the same codepoints as the other order. |

## Left out

- 32-bit integers: sizes, counts and indices are unbounded, so the `i32` overflow of `per_delta * count`, of `1 << bit_pos`, and of the `u32` split count is not modelled.
- Allocation: `allocator<char>` is Dafny's `new`, and `deallocate`, the destructor, and the move and copy constructors and assignments are not modelled. Ownership needs nothing from them here.
- The storage overlay: `as_sso`/`as_norm` and `is_short` are replaced by the `isShort` tag and `heapCapacity` field.
- Iterators: the byte iterator and the codepoint iterator are replaced by index arithmetic and by `Codepoints()`, the list the codepoint iterator walks.
- Self-aliasing: every view argument is taken as a value, a `seq` copied on entry. So a view into the object's own buffer is not modelled for `+=` and `append`, `replace(pattern, replacement, range)` (pattern or replacement), `replace(range, dest)`, `self_remove_prefix`, `self_remove_suffix`, the byte and text trims, and `text::self_trim` (whose end trim writes the terminator before the start trim reads `characters`). There the source can differ from the model. For example, replacing a view of the content's own first two bytes in "abab" by "xy" overwrites the pattern and leaves "xyab", where the model gives "xyxy".
- The `text_view` and `codeunit_sequence_view` sources are not part of this model. Their `index_of`, `last_index_of`, `count`, `split`, `contains`, `get_codepoint_index` and `get_codeunit_range` are given as specification functions (`FirstMatch`, `LastMatch`, `Count`, `SplitOnce`, sequence membership, `Offset`, `CodeunitRange`).
- `index_interval` is not part of this model either. Its `select` and `intersect` are written out in `IndexInterval`, with negative indices counting from the end.
- `CodeunitSequences.CodeunitSequence.WithCapacity`, `Reserve`: a heap block's bytes are left unconstrained, as C++'s `new char[]` leaves them. So the terminator is promised only where the code writes one.
- `CodeunitSequences.CodeunitSequence.AppendRepeat`: for the zero byte, the new bytes are left unconstrained, as the code leaves them unwritten.
- `CodeunitSequences.CodeunitSequence.Split`, `CodeunitSequences.CodeunitSequence.SplitInto`, `View.SplitOnceSpec`: the splitter must be non-empty. With an empty splitter the code loops forever.
- The in-place backward pass of `replace`: when the leftmost occurrence starts at 0, the code reads and writes `data()[-1]` on its last step. The model stops that pass at index 0.
- `replace(range, dest)` with a destination longer than the selection is an empty branch in the code. It is modelled as the identity.
- `text::split`, `text::replace`, `text::write_at`, `read_at`, `get_hash`, the equality and search delegations, `c_str`, `view_*` and the `+` operators are not modelled. They delegate to the view or to code that is not part of this model.
- Malformed UTF-8: the `text` methods require well-formed content and well-formed `characters` (the shortest encodings of Unicode scalars), and `from_utf32` requires Unicode scalars. The code leaves other input undefined.
- Performance: only the results of the passes are stated, not their number of steps.

## Findings

| source | as written | input that shows it | evidently intended | confidence | as-written member | corrected member |
|---|---|---|---|---|---|---|
| source/text.cpp:506-509 | `self_remove_suffix` keeps `{'[', 0, -|suffix|, ')'}`; for the empty suffix the bound is 0, which counts from the start and selects nothing | content `"ab"`, suffix `""`: the content is cleared | removing the empty suffix leaves the content unchanged (upper bound `size - |suffix|`) | not executed; depends on a zero exclusive bound counting from the start | CodeunitSequences.CodeunitSequence.SelfRemoveSuffixAsWritten, SequenceSpec.RemoveEmptySuffixClears | CodeunitSequences.CodeunitSequence.SelfRemoveSuffix, SequenceSpec.RemoveSuffixSpec |
| source/text.cpp:1033-1050 | `text::self_trim_end` passes the negative trimmed byte count as the exclusive upper bound; with nothing trimmed it is 0 | text `"ab"`, characters `"x"`: the text is cleared | a text whose last codepoint is not in the set is kept whole | not executed; depends on a zero exclusive bound counting from the start | Texts.Text.SelfTrimEndAsWritten, TextSpec.TrimEndAsWrittenClears | Texts.Text.SelfTrimEnd, TextSpec.TrimEndBytes |
| source/text.cpp:1052-1055 | `text::self_trim` calls the as-written `self_trim_end`, whose zero exclusive bound clears the text before `self_trim_start` runs | text `"ab"`, characters `"x"`: the text is cleared | trimming both ends of a text whose last codepoint is not in the set keeps that codepoint | not executed; depends on a zero exclusive bound counting from the start | Texts.Text.SelfTrimAsWritten, TextSpec.TrimAsWrittenClears | Texts.Text.SelfTrim, View.TrimCommute |
