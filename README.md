# Basic paired-read aligner, modelled in Dafny

This project models the alignment core of `PA1/basic_aligner.py`. The
aligner places short paired genomic reads on a long reference string. It
searches by brute force, counting substitution mismatches only (Hamming
distance).

- **Mismatch scanner** (`mismatchify_pair`, module `Scanner`, file
  `scanner.dfy`). It slides the front read over the reference and keeps a
  running minimum of mismatches. The minimum is replaced only on a strictly
  smaller count, so ties keep the earliest offset. If the best front count
  is 10 or more it stops early, with back count 0 and back location -1.
  Otherwise it slides the back read over offsets `front_loc + 130` up to
  `front_loc + 169`. It stops at the first offset where the back read would
  run past the end of the reference.
- **Pair aligner** (`align_pairs_to_ref`, module `PairAligner`, file
  `pair_aligner.dfy`). For each pair, in input order, it reverses the back
  read and runs the scanner. It keeps the pair when front count plus back
  count is below `THRESHOLD = 7`. A kept pair adds `[front_loc, back_loc]`
  to one output list and `[front, reversed back]` to a parallel one.

How the model is built:

- `Mismatches` is the per-offset mismatch count, a pure function.
- `IsEarliestMin` and `ScanOutcome` say what a scan of a range of offsets
  must return: the least count and its earliest offset, or the sentinel
  `(len(read) + 1, -1)` when the range is empty.
- `BestIn` is a separate reference definition of a scan. It recurses from
  the left and lets the first offset win unless a later one is strictly
  better. Its contract is `ScanOutcome`.
- `ScanPair` is the whole scanner as a function, and `ScanPairSpec` states
  what it returns. `MismatchifyPair` is the
  same scanner written with the source's loops, early `return` and `break`.
  Its loop invariants are `ScanOutcome` over the offsets seen so far, and
  its postcondition says it returns exactly `ScanPair`.
- `AlignPairsToRef` is the pair aligner's loop. It is proved to return
  `AcceptedLocations` and `AcceptedReads`, filters over the pairs in input
  order. Lemmas relate both to `AcceptedIndices`, the increasing list of
  positions of the accepted pairs.

Two details are modelled as the code has them, not as one might expect:

- The front loop is `range(len(ref) - len(front))`, so the last fitting
  offset `len(ref) - len(front)` is never tried (`LastFrontOffsetSkipped`). The
  docstring of `mismatchify_pair` (PA1/basic_aligner.py:13-14) says the read
  slides through the entire genome. The model follows the loop at line 27.
- When no front offset is tried, the front location stays -1. When
  `len(front) + 1 < 10`, the back search still runs, from offset 129. Such a
  pair is accepted with locations `(-1, -1)` when its reads are short
  enough (`DegeneratePairOutcome`).

The back read is only reversed, not complemented, as in the code. The
constants 7, 10, 130 and 170 are fixed constants, as in the code.

## Model

| member | source | states |
|---|---|---|
| `Scanner.Mismatches` | PA1/basic_aligner.py:28 | The count at one offset is at most the read length. |
| `Scanner.MismatchesZero` | PA1/basic_aligner.py:28 | The count at an offset is zero exactly when the read equals the reference slice at that offset. |
| `Scanner.BestIn` | PA1/basic_aligner.py:25-30 | Scanning a range of offsets gives the sentinel `(len(read)+1, -1)` when the range is empty. Otherwise it gives an offset in the range whose count is no larger than any other, and every earlier offset has a strictly larger count. |
| `Scanner.ScanOutcomeUnique` | PA1/basic_aligner.py:29-30 | The earliest-minimum outcome of a scan is unique, so any loop meeting it returns the reference result. |
| `Scanner.ScanPairSpec` | PA1/basic_aligner.py:11-44 | With `len(ref) <= len(front)` the front result is `(len(front)+1, -1)`. Otherwise it is the earliest minimum over `[0, len(ref)-len(front))`. A front count of 10 or more gives back result `(0, -1)`. Otherwise the back result is the scan outcome over `[front_loc+130, min(front_loc+170, len(ref)-len(back)+1))`. |
| `Scanner.MismatchifyPair` | PA1/basic_aligner.py:11-44 | The loops, early exit and break return exactly `ScanPair(front, back, ref)`. |
| `Scanner.FrontBounds` | PA1/basic_aligner.py:25-30 | When `len(ref) > len(front)`, the front location is in `[0, len(ref)-len(front))` and the front count is at most `len(front)`. |
| `Scanner.LastFrontOffsetSkipped` | PA1/basic_aligner.py:27 | If the front read occurs exactly only at the last fitting offset `len(ref)-len(front)`, the front count is still nonzero. That offset is never tried. |
| `Scanner.ExactMatchFound` | PA1/basic_aligner.py:27-30 | If the read occurs verbatim at `k` and nowhere earlier in the range, the scan returns `(0, k)`. |
| `Scanner.BackWindowExact` | PA1/basic_aligner.py:37-39 | An offset is in `[front_loc+130, BackHi)` exactly when it lies in `[front_loc+130, front_loc+170)` and the back read fits in the reference there. |
| `Scanner.BackMinimum` | PA1/basic_aligner.py:35-42 | Without early exit, a back location other than -1 is a window offset where the back read fits. Its count is the least over all such offsets, and every earlier one is strictly worse. A back location of -1 means count `len(back)+1` and that no window offset fits. |
| `Scanner.DegenerateFront` | PA1/basic_aligner.py:25-39 | With `len(ref) <= len(front)`, the result is `(len(front)+1, -1, 0, -1)` when `len(front)+1 >= 10`. Otherwise it is `(len(front)+1, -1, len(back)+1, -1)`, because the back window starting at 129 cannot fit. |
| `PairAligner.Reverse` | PA1/basic_aligner.py:72 | The reversed read has the same length, and position `k` holds the input's position `len(s)-1-k`. |
| `PairAligner.KeptIndices` | PA1/basic_aligner.py:76-81 | The kept positions are strictly increasing, every one passes the threshold, and every passing position is among them. |
| `PairAligner.AcceptedIndicesExact` | PA1/basic_aligner.py:69-81 | A pair's position is listed exactly when the pair is accepted. Positions appear in input order without repetition, and there are at most as many as input pairs. |
| `PairAligner.KeptOutputsAt` | PA1/basic_aligner.py:76-81 | Both kept outputs have one entry per passing position. Entry `j` holds the locations and the oriented reads found at the `j`-th passing position. |
| `PairAligner.AcceptedOutputsExact` | PA1/basic_aligner.py:64-81 | The two outputs have equal length, one entry per accepted pair. Entry `j` is the scanner's `(front_loc, back_loc)` and `(front, reverse(back))` of the `j`-th accepted pair in input order. |
| `PairAligner.AlignPairsToRef` | PA1/basic_aligner.py:54-85 | The loop that reverses each back read, calls the scanner and appends on acceptance returns exactly `AcceptedLocations` and `AcceptedReads`. |
| `PairAligner.EarlyExitRejected` | PA1/basic_aligner.py:32-33 | A pair whose front count triggers the early exit is never accepted. |
| `PairAligner.AcceptedBackInWindow` | PA1/basic_aligner.py:76 | An accepted pair passed the early exit. Its back location is -1 or a fitting offset in the back window. |
| `PairAligner.ExactPairAccepted` | PA1/basic_aligner.py:72-81 | If the front occurs first at `k` (a tried offset) and the reversed back occurs first in the window at `e`, the pair is accepted with locations `(k, e)`. |
| `PairAligner.DegeneratePairOutcome` | PA1/basic_aligner.py:76-78 | A pair with `len(front) >= len(ref)` is accepted exactly when `len(front) + len(back) + 2 < 7`. It is then recorded at `(-1, -1)`. |

## Left out

- `print_info` (PA1/basic_aligner.py:46-52): console output, the process clock and floating-point time estimates.
- Progress bookkeeping in `align_pairs_to_ref`: `count`, `start`, `matched`, the call to `print_info` on every 50th pair, and the final print. These only feed console output.
- `do_main`: file paths, and reading reads and the reference with helper functions from another module. It also formats the report and writes it to a file. That I/O and the helper module are not part of this model.
- The `sys.path` setup and imports, including the unused numpy import.
- The outputs are modelled as immutable sequences. The Python lists are built by `append`, and the model does not capture their identity or aliasing.
- A read pair is modelled as a two-field datatype. The source indexes `read_pair[0]` and `read_pair[1]` and ignores any further elements.
