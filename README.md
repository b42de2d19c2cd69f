# pzip: a verified model of the parallel run-length zip

`pzip` compresses a buffer of lower-case letters `a`–`z` with `nThreads`
worker threads. The driver gives worker `i` the `inputCharsSize / nThreads`
characters starting at `i * (inputCharsSize / nThreads)`; the last
`inputCharsSize % nThreads` characters go to no worker. Each worker
(`threaded_zip`) scans its slice once. It writes one `(character, occurence)`
pair per block of equal neighbours into a private buffer of `iterate_num`
slots, then adds each pair's `occurence` to the shared 26-entry counter of its
letter. After joining the workers in index order, the driver copies each
worker's buffer into `zipped_chars` at the running count `zipped_chars_count`,
then advances the count by that worker's run count.

The model has three modules:

- `Rle` (`rle.dfy`) is the value-level vocabulary:
  - the `Run` datatype (`struct zipped_char`);
  - `Decode`, which expands runs back into characters;
  - `Encode`, the run-length encoding, defined the way a left-to-right scan builds it one character at a time;
  - letter counts (`Count`), per-letter run totals (`Frequency`) and their lemmas.
- `Partition` (`partition.dfy`) covers the slice arithmetic of the driver.
- `Pzip` (`pzip.dfy`) holds:
  - the whole output as a function of the input (`Zipped`), with the properties the output has;
  - the worker as a class `Reader` (`struct reader`), whose methods `LocalZip`, `ScanRuns` and `AddFrequencies` are the loops of `threaded_zip` over real arrays;
  - the driver `Pzip`, with its two loops `StartWorkers` and `MergeWorkers`.

Threads become sequential calls. The first loop creates worker `i` and runs it to completion. The second loop merges the workers in index order. This matches what the code computes: the merge only happens after `pthread_join`, in index order, and the counter updates are additions, so their order does not change the result.

Every method is proved against a specification function:
- The worker's buffer ends up holding `Encode(Slice())`.
- The counters grow by `Count(Slice(), letter)`.
- The output prefix `zippedChars[..count]` is `Zipped(input, nThreads)`.

Lemmas then prove the properties of those functions:
- a round trip;
- maximal runs;
- the occurrence sums;
- where each worker's runs sit in the output;
- that runs are not merged across slice boundaries;
- that trailing characters are dropped.

The commented-out code (src/pzip.c:133-138) has each worker add its run count to the shared count after a barrier. The live code has the driver accumulate the offset after each join (src/pzip.c:72-81). The model follows the live code.

## Model

| member | source | states |
|---|---|---|
| Partition.SliceStartProduct | src/pzip.c:57 | Worker `i`'s slice starts at `i * len`, the offset the driver adds to `input_chars`. |
| Partition.SliceLength | src/pzip.c:58 | `iterate_num` is the quotient of `size` by `nThreads`: `nThreads * len <= size < nThreads * len + nThreads`. |
| Partition.CoveredPrefix | src/pzip.c:55-58 | The `nThreads` slices of length `size / nThreads` end inside the input and leave exactly `size % nThreads` characters uncovered. |
| Partition.Covered | src/pzip.c:55-58 | The covered prefix is no longer than the input, and what remains is `size % nThreads`, which is less than `nThreads`. |
| Partition.SliceNonEmpty | src/pzip.c:58 | With `1 <= nThreads <= size`, `iterate_num` is at least 1. |
| Partition.SliceInside | src/pzip.c:55-58 | Every worker's slice ends within the covered prefix. |
| Partition.SliceStartMono | src/pzip.c:57 | Slices are laid out in worker order. |
| Partition.BlocksDisjoint | src/pzip.c:57-58 | Two slices of length `q` that share a position are the same slice. |
| Partition.SliceOwner | src/pzip.c:55-58 | A position of the covered prefix lies in the slice of exactly one worker, namely `p / (size / nThreads)`. A position past the covered prefix lies in no slice. So the slices are disjoint, contiguous and cover exactly the first `nThreads * (size / nThreads)` characters. |
| Rle.LetterIndex | src/pzip.c:130 | A lower-case letter's counter index `ch - 'a'` lies in 0..25, and that is the only index whose letter is `ch`. |
| Rle.Push | src/pzip.c:105-116 | One pass of the loop body adds one run at most, and leaves the run list ending with a run of the scanned character. |
| Rle.Encode | src/pzip.c:100-123 | The scan of a slice as a value: at most one run per character, and the last run holds the last character of the slice. |
| Rle.EncodeSnoc | src/pzip.c:103-116 | Encoding one more character is one step of the scan. |
| Rle.EncodeExtend | src/pzip.c:105-108 | When the next character equals the open run's character, that run grows by one. |
| Rle.EncodeOpen | src/pzip.c:109-116 | When the next character differs, a new run of length one opens after the finished runs. |
| Rle.PushDecode | src/pzip.c:103-121 | A scan step adds exactly the scanned character to what the runs expand to. |
| Rle.PushWellFormed | src/pzip.c:103-121 | A scan step keeps runs non-empty and keeps neighbouring runs distinct. |
| Rle.DecodeEncode | src/pzip.c:100-123 | Round trip: expanding the runs of a slice gives the slice back. |
| Rle.EncodeWellFormed | src/pzip.c:105-116 | Every run has `occurence >= 1`, and adjacent runs hold different characters: runs are maximal. |
| Rle.EncodeUnique | src/pzip.c:100-123 | Any maximal list of runs is the encoding of what it expands to. So the scan's output is the only maximal encoding of the slice. |
| Rle.EncodeBlock | src/pzip.c:105-116 | A block of `n` equal characters that cannot join the previous run adds exactly one run `(c, n)`. |
| Rle.EncodeOccurrences | src/pzip.c:100-121 | The occurrences of a worker's runs add up to the slice length `iterate_num`. |
| Rle.EncodeLower | src/pzip.c:111-130 | Runs of a lower-case slice hold lower-case letters, so `character - 97` indexes the counter array. |
| Rle.DecodeLength | src/pzip.c:100-121 | The expanded length of a list of runs is the sum of its occurrences. |
| Rle.FrequencyStep | src/pzip.c:128-131 | Taking run `i` into account adds its occurrence to its own letter's total only. |
| Rle.Frequency | src/pzip.c:128-131 | What one worker adds to a letter's counter is at most the total occurrence of its runs. |
| Rle.FrequencyDecode | src/pzip.c:128-131 | A letter's run total equals that letter's count in what the runs expand to. |
| Rle.EncodeFrequency | src/pzip.c:128-131 | The run total of each letter over a worker's runs equals that letter's count in its slice. |
| Rle.CountAppend | src/pzip.c:128-131 | Letter counts of consecutive slices add. |
| Rle.LetterTotalLength | src/pzip.c:128-131 | Over a lower-case text, the 26 letter counts add up to its length. |
| Pzip.WorkerSlice | src/pzip.c:57-58 | Worker `i` scans exactly `len` characters. |
| Pzip.Zipped | src/pzip.c:55-81 | The whole merged output holds at most one run per covered character. |
| Pzip.ZipSlicesStep | src/pzip.c:72-81 | Merging one more worker appends its runs, and there are at most `len` of them. |
| Pzip.FlattenRegion | src/pzip.c:75-80 | In the concatenation of the workers' buffers, part `i` occupies the slots right after the earlier parts. |
| Pzip.FlattenLength | src/pzip.c:80 | The concatenation is as long as all parts together. |
| Pzip.ZippedCount | src/pzip.c:69-81 | The final run count equals the sum of the workers' `local_zip_char_size`. |
| Pzip.ZipSlicesRegion | src/pzip.c:72-81 | Among the first `n` workers, worker `i`'s runs sit right after the runs of the workers before it. |
| Pzip.WorkerRegion | src/pzip.c:69-81 | In the whole output, worker `i`'s runs occupy `[offset_i, offset_i + size_i)`, where `offset_i` is the number of runs of workers `0..i-1`. |
| Pzip.WorkerRunsMaximal | src/pzip.c:100-123 | Each worker's own runs are maximal and expand to its slice. |
| Pzip.ZipSlicesLength | src/pzip.c:59-81 | The first `n` workers write at most one run per character they scan. |
| Pzip.DecodeZipSlices | src/pzip.c:55-81 | Expanding the runs of the first `n` workers gives the first `n` slices of the input. |
| Pzip.ZippedDecode | src/pzip.c:31-92 | Expanding the whole output gives the covered prefix of the input. |
| Pzip.ZipSlicesPositive | src/pzip.c:100-121 | Every run in the output has `occurence >= 1`. |
| Pzip.FrequencyTotal | src/pzip.c:128-131 | Over a lower-case input, the 26 letter counts of the covered prefix add up to `nThreads * (size / nThreads)`. |
| Pzip.SingleWorker | src/pzip.c:55-81 | With one worker, the output is the plain run-length encoding of the whole input. |
| Pzip.BoundaryNotMerged | src/pzip.c:55-116 | "aaaa" with two workers gives `[('a',2), ('a',2)]`: runs are not merged across slices. |
| Pzip.TrailingDropped | src/pzip.c:57-58 | "aabbc" with two workers gives `[('a',2), ('b',2)]`: the trailing character is dropped. |
| Pzip.Progress | src/pzip.c:100-117 | After reading `n` characters the open run's character is the last one read, its count is at least 1, and fewer than `n` runs are finished. |
| Pzip.ProgressEncodes | src/pzip.c:100-121 | The finished runs plus the open run are the encoding of what has been read. |
| Pzip.Reader.constructor | src/pzip.c:57-62 | The worker starts with its slice, capacity `iterate_num`, a fresh buffer and `local_zip_char_size == 0`. |
| Pzip.Reader.ScanRuns | src/pzip.c:100-117 | The loop leaves `zip_num` finished runs in the buffer, with `zip_num < iterate_num`, equal to the scan's finished runs. `occurence` is the length of the open run. |
| Pzip.Reader.LocalZip | src/pzip.c:100-123 | After the last run is written, the buffer's first `local_zip_char_size <= iterate_num` slots hold exactly the encoding of the slice. |
| Pzip.Reader.AddFrequencies | src/pzip.c:128-131 | Each letter's counter grows by that letter's count in the slice. |
| Pzip.Reader.ThreadedZip | src/pzip.c:94-131 | The worker leaves the encoding of its slice in its buffer and adds the letter counts of its slice to the counters. |
| Pzip.StartWorker | src/pzip.c:57-64 | Worker `i`, set up on the slice at `i * iterate_num`, ends holding the runs of its slice and adds that slice's letter counts. |
| Pzip.CountThroughSlice | src/pzip.c:128-131 | Counts up to the end of slice `i` are the counts before it plus slice `i`'s counts. |
| Pzip.StartWorkers | src/pzip.c:55-65 | Every worker holds the runs of its own slice in a fresh buffer, and the counters have grown by the letter counts of the covered prefix. |
| Pzip.CopyRuns | src/pzip.c:75-78 | One worker's runs are copied to `zipped_chars` at the offset; the slots after the copied runs are unchanged. |
| Pzip.MergeWorkers | src/pzip.c:69-81 | The final count is at most the covered length. The first `count` output slots hold the workers' runs in order, which is `Zipped`. All later slots are unchanged. |
| Pzip.Pzip | src/pzip.c:31-92 | End to end:<br>• `zipped_chars[..zipped_chars_count]` is the zipped output, whose expansion is the covered prefix;<br>• output slots past the count are unchanged;<br>• each counter has grown by its letter's count in the covered prefix. |

## Left out

- Threads: `pthread_create`, `pthread_join`, and the barrier and mutex set-up and tear-down (src/pzip.c:27-28, 45-50, 64, 74, 82). Workers run sequentially in index order, which is the order the join loop merges them in.
- The data race on `char_frequency` (src/pzip.c:130). Concurrent unsynchronised increments can lose updates. The sequential model adds every run exactly once.
- Commented-out code, which is dead:
  - the second mutex `lock2` (src/pzip.c:29, 50, 83, 139-141);
  - the barrier waits (src/pzip.c:67, 125, 134, 143);
  - the worker's own `malloc` of `local_zip_char` (src/pzip.c:98);
  - the empty loop after the merge (src/pzip.c:84-89);
  - the workers' own updates of the shared run count (src/pzip.c:132, 133-138);
  - the `sleep` (src/pzip.c:145).
- `malloc` and `free` of the worker buffers (src/pzip.c:59, 79) are a fresh Dafny array per worker. Allocation failure is not modelled.
- The file reading, printing and argument parsing around `pzip`. They are not part of this model.
- `pzip.h` is not part of this model. The two structs are reconstructed from their uses (`Run`, `Reader`).
- 32-bit `int`: counters, sizes and `occurence` are unbounded in the model; the source's overflow past 2^31-1 is not modelled.
- Pzip.Pzip: requires `nThreads <= inputCharsSize`. With fewer characters than workers, `iterate_num` is 0 and src/pzip.c:119 reads `input_chars[-1]`, which is undefined behaviour the model does not follow.
- Pzip.Pzip: requires lower-case letters over the covered prefix. Other characters make src/pzip.c:130 index outside `char_frequency`.
- Pzip.Pzip: states each counter as its old value plus the letter count. So the "exact letter counts" promise needs the caller to zero the counters first; the callers are not part of the source.
