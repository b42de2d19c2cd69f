/**
 * The parallel zip: the driver hands each worker an equal slice of the input,
 * each worker run-length encodes its slice into a private buffer and adds its
 * runs to the shared letter counters, and the driver then copies the workers'
 * buffers into the output one after another, in worker order.
 *
 * Workers are run one after another in index order; the output is merged in
 * the same order after every worker has finished, as the driver does after
 * joining the threads.
 */
module Pzip {
  import opened Rle
  import opened Partition

  // ---------------------------------------------------------------------------
  // What the output is

  /** The `len` characters of `s` that worker `i` scans. */
  function WorkerSlice(s: seq<char>, len: nat, i: nat): (w: seq<char>)
    requires SliceStart(i + 1, len) <= |s|
    ensures |w| == len
  {
    s[SliceStart(i, len)..SliceStart(i, len) + len]
  }

  /** The runs each of workers `0 .. n - 1` writes, one entry per worker. */
  function WorkerOutputs(s: seq<char>, len: nat, n: nat): (p: seq<seq<Run>>)
    requires SliceStart(n, len) <= |s|
    ensures |p| == n
  {
    seq(n, (k: nat) requires k < n => SliceStartMono(k + 1, n, len); Encode(WorkerSlice(s, len, k)))
  }

  /** The parts of `p` one after another. */
  function Flatten(p: seq<seq<Run>>): seq<Run>
  {
    if p == [] then [] else Flatten(p[..|p| - 1]) + p[|p| - 1]
  }

  /** The runs of workers `0 .. n - 1`, worker after worker. */
  function ZipSlices(s: seq<char>, len: nat, n: nat): seq<Run>
    requires SliceStart(n, len) <= |s|
  {
    Flatten(WorkerOutputs(s, len, n))
  }

  /** One more worker appends its runs, at most one per character of its slice. */
  lemma ZipSlicesStep(s: seq<char>, len: nat, i: nat)
    requires SliceStart(i + 1, len) <= |s|
    ensures ZipSlices(s, len, i + 1) == ZipSlices(s, len, i) + Encode(WorkerSlice(s, len, i))
    ensures |Encode(WorkerSlice(s, len, i))| <= len
  {
    assert WorkerOutputs(s, len, i + 1)[..i] == WorkerOutputs(s, len, i);
  }

  /** The whole zipped output for input `s` and `nThreads` workers. */
  function Zipped(s: seq<char>, nThreads: int): (z: seq<Run>)
    requires 1 <= nThreads
    ensures |z| <= Covered(|s|, nThreads)
  {
    CoveredPrefix(|s|, nThreads);
    ZipSlicesLength(s, SliceLength(|s|, nThreads), nThreads);
    ZipSlices(s, SliceLength(|s|, nThreads), nThreads)
  }

  // ---------------------------------------------------------------------------
  // Properties of the output

  /** The first `n` workers produce at most one run per character they scan. */
  lemma {:induction false} ZipSlicesLength(s: seq<char>, len: nat, n: nat)
    requires SliceStart(n, len) <= |s|
    ensures |ZipSlices(s, len, n)| <= SliceStart(n, len)
    decreases n
  {
    if n > 0 {
      ZipSlicesLength(s, len, n - 1);
      ZipSlicesStep(s, len, n - 1);
    }
  }

  /** Expanding the runs of the first `n` workers gives back the first `n` slices of the input. */
  lemma {:induction false} DecodeZipSlices(s: seq<char>, len: nat, n: nat)
    requires SliceStart(n, len) <= |s|
    ensures Decode(ZipSlices(s, len, n)) == s[..SliceStart(n, len)]
    decreases n
  {
    if n > 0 {
      var m := n - 1;
      assert SliceStart(n, len) == SliceStart(m, len) + len;
      var a, w := ZipSlices(s, len, m), WorkerSlice(s, len, m);
      ZipSlicesStep(s, len, m);
      DecodeZipSlices(s, len, m);
      DecodeAppend(a, Encode(w));
      DecodeEncode(w);
      PrefixThroughSlice(s, len, m);
    }
  }

  /** The input up to the end of worker `i`'s slice is the input up to its start, then the slice. */
  lemma PrefixThroughSlice(s: seq<char>, len: nat, i: nat)
    requires SliceStart(i + 1, len) <= |s|
    ensures s[..SliceStart(i + 1, len)] == s[..SliceStart(i, len)] + WorkerSlice(s, len, i)
  {
    var a := SliceStart(i, len);
    assert s[..a + len] == s[..a] + s[a..a + len];
  }

  /** Decoding the whole output reproduces the covered prefix of the input; the rest is dropped. */
  lemma ZippedDecode(s: seq<char>, nThreads: int)
    requires 1 <= nThreads
    ensures Decode(Zipped(s, nThreads)) == s[..Covered(|s|, nThreads)]
  {
    CoveredPrefix(|s|, nThreads);
    DecodeZipSlices(s, SliceLength(|s|, nThreads), nThreads);
  }

  /** Total number of runs in the parts of `p`. */
  function RunCount(p: seq<seq<Run>>): nat
  {
    if p == [] then 0 else RunCount(p[..|p| - 1]) + |p[|p| - 1]|
  }

  /** Flattening keeps every run: the result is as long as all parts together. */
  lemma {:induction false} FlattenLength(p: seq<seq<Run>>)
    ensures |Flatten(p)| == RunCount(p)
    decreases |p|
  {
    if p != [] {
      FlattenLength(p[..|p| - 1]);
    }
  }

  /** The number of runs in the output is the sum of the workers' run counts. */
  lemma ZippedCount(s: seq<char>, nThreads: int)
    requires 1 <= nThreads
    ensures SliceStart(nThreads, SliceLength(|s|, nThreads)) <= |s|
    ensures |Zipped(s, nThreads)| == RunCount(WorkerOutputs(s, SliceLength(|s|, nThreads), nThreads))
  {
    CoveredPrefix(|s|, nThreads);
    FlattenLength(WorkerOutputs(s, SliceLength(|s|, nThreads), nThreads));
  }

  /** Over a lower-case input the 26 letter counts of the covered prefix add up to `nThreads * (|s| / nThreads)`. */
  lemma FrequencyTotal(s: seq<char>, nThreads: int)
    requires 1 <= nThreads
    requires forall k :: 0 <= k < Covered(|s|, nThreads) ==> IsLower(s[k])
    ensures LetterTotal(s[..Covered(|s|, nThreads)], 26) == nThreads * (|s| / nThreads)
  {
    SliceStartProduct(nThreads, SliceLength(|s|, nThreads));
    LetterTotalLength(s[..Covered(|s|, nThreads)]);
  }

  /**
   * Worker `i`'s runs sit in the output at the offset given by the number of
   * runs of the workers before it; they are the maximal runs of its own slice
   * and expand back to it.
   */
  lemma WorkerRegion(s: seq<char>, nThreads: int, i: nat)
    requires 1 <= nThreads && i < nThreads
    ensures |RunsBefore(s, nThreads, i)| + |WorkerRuns(s, nThreads, i)| <= |Zipped(s, nThreads)|
    ensures Zipped(s, nThreads)[|RunsBefore(s, nThreads, i)|..|RunsBefore(s, nThreads, i)| + |WorkerRuns(s, nThreads, i)|]
      == WorkerRuns(s, nThreads, i)
  {
    SliceInside(i, |s|, nThreads);
    CoveredPrefix(|s|, nThreads);
    ZipSlicesRegion(s, SliceLength(|s|, nThreads), i, nThreads);
  }

  /** Worker `i`'s runs are the maximal runs of its slice, and expand back to it. */
  lemma WorkerRunsMaximal(s: seq<char>, nThreads: int, i: nat)
    requires 1 <= nThreads && i < nThreads
    ensures SliceStart(i + 1, SliceLength(|s|, nThreads)) <= |s|
    ensures WellFormed(WorkerRuns(s, nThreads, i))
    ensures Decode(WorkerRuns(s, nThreads, i)) == WorkerSlice(s, SliceLength(|s|, nThreads), i)
  {
    SliceInside(i, |s|, nThreads);
    var w := WorkerSlice(s, SliceLength(|s|, nThreads), i);
    EncodeWellFormed(w);
    DecodeEncode(w);
  }

  /** The runs worker `i` writes. */
  function WorkerRuns(s: seq<char>, nThreads: int, i: nat): seq<Run>
    requires 1 <= nThreads && i < nThreads
  {
    SliceInside(i, |s|, nThreads);
    Encode(WorkerSlice(s, SliceLength(|s|, nThreads), i))
  }

  /** The runs the workers before worker `i` write. */
  function RunsBefore(s: seq<char>, nThreads: int, i: nat): seq<Run>
    requires 1 <= nThreads && i < nThreads
  {
    SliceInside(i, |s|, nThreads);
    SliceStartMono(i, i + 1, SliceLength(|s|, nThreads));
    ZipSlices(s, SliceLength(|s|, nThreads), i)
  }

  /** Among the first `n` workers, worker `i`'s runs follow those of the workers before it. */
  lemma ZipSlicesRegion(s: seq<char>, len: nat, i: nat, n: nat)
    requires i < n && SliceStart(n, len) <= |s|
    ensures SliceStart(i + 1, len) <= |s|
    ensures |ZipSlices(s, len, i)| + |Encode(WorkerSlice(s, len, i))| <= |ZipSlices(s, len, n)|
    ensures ZipSlices(s, len, n)[|ZipSlices(s, len, i)|..|ZipSlices(s, len, i)| + |Encode(WorkerSlice(s, len, i))|]
      == Encode(WorkerSlice(s, len, i))
  {
    SliceStartMono(i + 1, n, len);
    var p := WorkerOutputs(s, len, n);
    assert p[..i] == WorkerOutputs(s, len, i);
    FlattenRegion(p, i);
  }

  /** Part `i` of `p` sits in `Flatten(p)` right after the parts before it. */
  lemma {:induction false} FlattenRegion(p: seq<seq<Run>>, i: nat)
    requires i < |p|
    ensures |Flatten(p[..i])| + |p[i]| <= |Flatten(p)|
    ensures Flatten(p)[|Flatten(p[..i])|..|Flatten(p[..i])| + |p[i]|] == p[i]
    decreases |p|
  {
    var q := p[..|p| - 1];
    if i == |p| - 1 {
      assert q == p[..i];
    } else {
      assert q[..i] == p[..i];
      FlattenRegion(q, i);
      var lo := |Flatten(p[..i])|;
      assert (Flatten(q) + p[|p| - 1])[lo..lo + |p[i]|] == Flatten(q)[lo..lo + |p[i]|];
    }
  }

  /** Every run in the output stands for at least one character. */
  lemma {:induction false} ZipSlicesPositive(s: seq<char>, len: nat, n: nat)
    requires SliceStart(n, len) <= |s|
    ensures forall k :: 0 <= k < |ZipSlices(s, len, n)| ==> ZipSlices(s, len, n)[k].occurence >= 1
    decreases n
  {
    if n > 0 {
      ZipSlicesPositive(s, len, n - 1);
      ZipSlicesStep(s, len, n - 1);
      EncodeWellFormed(WorkerSlice(s, len, n - 1));
    }
  }

  /** With a single worker the output is the plain run-length encoding of the whole input. */
  lemma SingleWorker(s: seq<char>)
    ensures Zipped(s, 1) == Encode(s)
  {
    var len := SliceLength(|s|, 1);
    assert len == |s|;
    assert WorkerSlice(s, len, 0) == s;
    ZipSlicesStep(s, len, 0);
  }

  /** Encoding two equal characters gives one run of length two. */
  lemma EncodePair(c: char)
    ensures Encode([c, c]) == [Run(c, 2)]
  {
    EncodeOpen([], c);
    assert [] + [c] == [c];
    EncodeExtend([c], c);
    assert [c] + [c] == [c, c];
  }

  /** Runs are not merged across slice boundaries: "aaaa" with two workers gives two runs of 'a'. */
  lemma BoundaryNotMerged()
    ensures Zipped("aaaa", 2) == [Run('a', 2), Run('a', 2)]
  {
    var s := "aaaa";
    assert SliceLength(|s|, 2) == 2;
    assert SliceStart(2, 2) == 4;
    assert WorkerSlice(s, 2, 0) == ['a', 'a'];
    assert WorkerSlice(s, 2, 1) == ['a', 'a'];
    EncodePair('a');
    ZipSlicesStep(s, 2, 0);
    ZipSlicesStep(s, 2, 1);
  }

  /** Characters past the covered prefix are dropped: "aabbc" with two workers loses the 'c'. */
  lemma TrailingDropped()
    ensures Zipped("aabbc", 2) == [Run('a', 2), Run('b', 2)]
  {
    var s := "aabbc";
    assert SliceLength(|s|, 2) == 2;
    assert SliceStart(2, 2) == 4;
    assert WorkerSlice(s, 2, 0) == ['a', 'a'];
    assert WorkerSlice(s, 2, 1) == ['b', 'b'];
    EncodePair('a');
    EncodePair('b');
    ZipSlicesStep(s, 2, 0);
    ZipSlicesStep(s, 2, 1);
  }

  // ---------------------------------------------------------------------------
  // The scan of one worker

  /**
   * Where the scan of a slice stands: the runs it has finished, the character
   * of the open run and how often it has been seen so far (`occurence`).
   */
  datatype ScanState = ScanState(done: seq<Run>, current: char, occurence: nat)

  /** The state of the scan of `s` once it has read the first `n` characters. */
  function Progress(s: seq<char>, n: nat): (st: ScanState)
    requires 1 <= n <= |s|
    ensures st.current == s[n - 1] && st.occurence >= 1 && |st.done| < n
  {
    if n == 1 then ScanState([], s[0], 1)
    else
      var st := Progress(s, n - 1);
      if st.current == s[n - 1] then ScanState(st.done, st.current, st.occurence + 1)
      else ScanState(st.done + [Run(st.current, st.occurence)], s[n - 1], 1)
  }

  /** The finished runs followed by the open one are the encoding of what has been read. */
  lemma {:induction false} ProgressEncodes(s: seq<char>, n: nat)
    requires 1 <= n <= |s|
    ensures Progress(s, n).done + [Run(s[n - 1], Progress(s, n).occurence)] == Encode(s[..n])
    decreases n
  {
    var t, x := s[..n - 1], s[n - 1];
    assert s[..n] == t + [x];
    EncodeSnoc(t, x);
    if n == 1 {
      assert t == [];
    } else {
      ProgressEncodes(s, n - 1);
      var st := Progress(s, n - 1);
      assert Encode(t) == st.done + [Run(st.current, st.occurence)];
      if st.current == x {
        PushExtend(st.done, Run(x, st.occurence));
      }
    }
  }

  // ---------------------------------------------------------------------------
  // A worker (`struct reader`)

  /**
   * The state handed to one worker: where its slice lies in the input, its
   * private run buffer with room for `iterateNum` runs, how many runs it has
   * written there, and the shared letter counters.
   */
  class Reader {
    const inputChars: array<char>
    const start: nat
    const iterateNum: nat
    const localZipChar: array<Run>
    var localZipCharSize: nat
    const charFrequency: array<int>

    ghost predicate Valid() {
      && start + iterateNum <= inputChars.Length
      && localZipChar.Length == iterateNum
      && charFrequency.Length == 26
    }

    /** The characters this worker scans. */
    ghost function Slice(): seq<char>
      reads inputChars
      requires Valid()
    {
      inputChars[start..start + iterateNum]
    }

    /** The runs this worker has produced. */
    ghost function Runs(): seq<Run>
      reads this, localZipChar
      requires Valid() && localZipCharSize <= iterateNum
    {
      localZipChar[..localZipCharSize]
    }

    /** Set up worker state as the driver does before starting a worker. */
    constructor (inputChars: array<char>, start: nat, iterateNum: nat, charFrequency: array<int>)
      requires start + iterateNum <= inputChars.Length
      requires charFrequency.Length == 26
      ensures Valid()
      ensures this.inputChars == inputChars && this.start == start && this.iterateNum == iterateNum
      ensures this.charFrequency == charFrequency
      ensures fresh(localZipChar) && localZipCharSize == 0
    {
      this.inputChars := inputChars;
      this.start := start;
      this.iterateNum := iterateNum;
      this.charFrequency := charFrequency;
      localZipChar := new Run[iterateNum];
      localZipCharSize := 0;
    }

    /**
     * The worker: run-length encode the slice into the private buffer, then
     * add every run's length to the counter of its letter.
     */
    method ThreadedZip()
      requires Valid() && iterateNum >= 1
      requires forall k :: start <= k < start + iterateNum ==> IsLower(inputChars[k])
      modifies this`localZipCharSize, localZipChar, charFrequency
      ensures localZipCharSize <= iterateNum
      ensures Runs() == Encode(Slice())
      ensures forall c :: 0 <= c < 26 ==> charFrequency[c] == old(charFrequency[c]) + Count(Slice(), Letter(c))
    {
      LocalZip();
      AddFrequencies();
    }

    /**
     * The scan: count equal neighbours; on a change of character write the
     * finished run to the buffer and start a new one; the last run is always
     * written. Records how many runs the buffer holds.
     */
    method LocalZip()
      requires Valid() && iterateNum >= 1
      modifies this`localZipCharSize, localZipChar
      ensures localZipCharSize <= iterateNum
      ensures Runs() == Encode(Slice())
    {
      ghost var s := Slice();
      var zipNum, occurence := ScanRuns();
      ghost var done := localZipChar[..zipNum];
      localZipChar[zipNum] := Run(inputChars[start + iterateNum - 1], occurence);
      assert localZipChar[..zipNum + 1] == done + [Run(s[iterateNum - 1], occurence)];
      localZipCharSize := zipNum + 1;
      ProgressEncodes(s, iterateNum);
      assert s[..iterateNum] == s;
    }

    /**
     * The loop of the scan: afterwards the buffer holds the `zipNum` runs the
     * scan of the slice has finished, and `occurence` counts the open run.
     */
    method ScanRuns() returns (zipNum: nat, occurence: nat)
      requires Valid() && iterateNum >= 1
      modifies localZipChar
      ensures zipNum < iterateNum
      ensures localZipChar[..zipNum] == Progress(Slice(), iterateNum).done
      ensures occurence == Progress(Slice(), iterateNum).occurence
    {
      ghost var s := Slice();
      occurence := 1;
      zipNum := 0;
      for i := 0 to iterateNum - 1
        invariant zipNum == |Progress(s, i + 1).done|
        invariant forall k :: 0 <= k < zipNum ==> localZipChar[k] == Progress(s, i + 1).done[k]
        invariant occurence == Progress(s, i + 1).occurence
      {
        if inputChars[start + i] == inputChars[start + i + 1] {
          occurence := occurence + 1;
        } else {
          localZipChar[zipNum] := Run(inputChars[start + i], occurence);
          occurence := 1;
          zipNum := zipNum + 1;
        }
      }
      assert localZipChar[..zipNum] == Progress(s, iterateNum).done;
    }

    /** Add the length of every run in the buffer to the counter of its letter. */
    method AddFrequencies()
      requires Valid() && localZipCharSize <= iterateNum
      requires Runs() == Encode(Slice())
      requires forall k :: start <= k < start + iterateNum ==> IsLower(inputChars[k])
      modifies charFrequency
      ensures forall c :: 0 <= c < 26 ==> charFrequency[c] == old(charFrequency[c]) + Count(Slice(), Letter(c))
    {
      ghost var s := Slice();
      ghost var runs := Runs();
      EncodeLower(s);
      for i := 0 to localZipCharSize
        invariant forall c :: 0 <= c < 26 ==> charFrequency[c] == old(charFrequency[c]) + Frequency(runs[..i], Letter(c))
      {
        var run := localZipChar[i];
        assert run == runs[i];
        FrequencyStepLetters(runs, i);
        charFrequency[run.character as int - 97] := charFrequency[run.character as int - 97] + run.occurence;
      }
      assert runs[..localZipCharSize] == runs;
      EncodeFrequencyLetters(s);
    }
  }

  // ---------------------------------------------------------------------------
  // The driver

  /**
   * Zip `inputChars[..inputCharsSize]` with `nThreads` workers: start every
   * worker on its slice, then, worker by worker, append its runs to
   * `zippedChars` at the running count. Returns the number of runs written.
   */
  method Pzip(nThreads: int, inputChars: array<char>, inputCharsSize: int,
              zippedChars: array<Run>, charFrequency: array<int>)
    returns (zippedCharsCount: int)
    requires 1 <= nThreads <= inputCharsSize <= inputChars.Length
    requires inputCharsSize <= zippedChars.Length
    requires charFrequency.Length == 26
    requires forall k :: 0 <= k < Covered(inputCharsSize, nThreads) ==> IsLower(inputChars[k])
    modifies zippedChars, charFrequency
    ensures 0 <= zippedCharsCount <= Covered(inputCharsSize, nThreads)
    ensures zippedChars[..zippedCharsCount] == Zipped(inputChars[..inputCharsSize], nThreads)
    ensures forall k :: zippedCharsCount <= k < zippedChars.Length ==> zippedChars[k] == old(zippedChars[k])
    ensures forall c :: 0 <= c < 26 ==>
      charFrequency[c] == old(charFrequency[c]) + Count(inputChars[..Covered(inputCharsSize, nThreads)], Letter(c))
  {
    var info := StartWorkers(nThreads, inputChars, inputCharsSize, charFrequency);
    zippedCharsCount := MergeWorkers(nThreads, inputChars[..inputCharsSize], info, zippedChars);
  }

  /**
   * The first loop of the driver: set up worker `i` on the slice at
   * `i * (inputCharsSize / nThreads)` and let it run, for every `i` in order.
   * Every worker ends up holding the runs of its own slice in a buffer of its
   * own, and the counters have grown by the letters of the covered prefix.
   */
  method StartWorkers(nThreads: int, inputChars: array<char>, inputCharsSize: int, charFrequency: array<int>)
    returns (info: seq<Reader>)
    requires 1 <= nThreads <= inputCharsSize <= inputChars.Length
    requires charFrequency.Length == 26
    requires forall k :: 0 <= k < Covered(inputCharsSize, nThreads) ==> IsLower(inputChars[k])
    modifies charFrequency
    ensures |info| == nThreads
    ensures forall k :: 0 <= k < nThreads ==> fresh(info[k].localZipChar)
    ensures forall k :: 0 <= k < nThreads ==>
      HoldsRuns(info[k], inputChars[..inputCharsSize], SliceLength(inputCharsSize, nThreads), k)
    ensures forall c :: 0 <= c < 26 ==>
      charFrequency[c] == old(charFrequency[c]) + Count(inputChars[..Covered(inputCharsSize, nThreads)], Letter(c))
  {
    ghost var s := inputChars[..inputCharsSize];
    ghost var len := SliceLength(inputCharsSize, nThreads);
    SliceNonEmpty(inputCharsSize, nThreads);
    info := [];
    for i := 0 to nThreads
      invariant |info| == i
      invariant SliceStart(i, len) <= Covered(inputCharsSize, nThreads)
      invariant forall k :: 0 <= k < i ==> fresh(info[k].localZipChar)
      invariant forall k :: 0 <= k < i ==> HoldsRuns(info[k], s, len, k)
      invariant forall c :: 0 <= c < 26 ==>
        charFrequency[c] == old(charFrequency[c]) + Count(s[..SliceStart(i, len)], Letter(c))
      modifies charFrequency
    {
      SliceInside(i, inputCharsSize, nThreads);
      LowerSlice(inputChars, Covered(inputCharsSize, nThreads), SliceStart(i, len), SliceStart(i + 1, len));
      var r := StartWorker(inputChars, inputCharsSize, i, inputCharsSize / nThreads, charFrequency);
      CountThroughSlice(s, len, i);
      info := info + [r];
    }
    assert s[..Covered(inputCharsSize, nThreads)] == inputChars[..Covered(inputCharsSize, nThreads)];
  }

  /** Create worker `i` on the slice at `i * iterateNum` of the input, and run it. */
  method StartWorker(inputChars: array<char>, inputCharsSize: int, i: nat, iterateNum: nat, charFrequency: array<int>)
    returns (r: Reader)
    requires 1 <= iterateNum && SliceStart(i + 1, iterateNum) <= inputCharsSize <= inputChars.Length
    requires charFrequency.Length == 26
    requires forall k :: SliceStart(i, iterateNum) <= k < SliceStart(i + 1, iterateNum) ==> IsLower(inputChars[k])
    modifies charFrequency
    ensures fresh(r) && fresh(r.localZipChar)
    ensures HoldsRuns(r, inputChars[..inputCharsSize], iterateNum, i)
    ensures forall c :: 0 <= c < 26 ==>
      charFrequency[c] == old(charFrequency[c]) + Count(WorkerSlice(inputChars[..inputCharsSize], iterateNum, i), Letter(c))
  {
    ghost var w := WorkerSlice(inputChars[..inputCharsSize], iterateNum, i);
    SliceStartProduct(i, iterateNum);
    var lo := i * iterateNum;
    assert SliceStart(i + 1, iterateNum) == lo + iterateNum;
    assert w == inputChars[lo..lo + iterateNum];
    r := new Reader(inputChars, lo, iterateNum, charFrequency);
    assert r.Slice() == w;
    r.ThreadedZip();
  }

  /** A range inside a lower-case prefix is lower-case. */
  lemma LowerSlice(a: array<char>, n: nat, lo: nat, hi: nat)
    requires lo <= hi <= n <= a.Length
    requires forall k :: 0 <= k < n ==> IsLower(a[k])
    ensures forall k :: lo <= k < hi ==> IsLower(a[k])
  {
  }

  /** The letter counts of the input up to the end of slice `i` add slice `i`'s counts to those before it. */
  lemma CountThroughSlice(s: seq<char>, len: nat, i: nat)
    requires SliceStart(i + 1, len) <= |s|
    ensures forall c :: 0 <= c < 26 ==>
      Count(s[..SliceStart(i + 1, len)], Letter(c)) == Count(s[..SliceStart(i, len)], Letter(c)) + Count(WorkerSlice(s, len, i), Letter(c))
  {
    PrefixThroughSlice(s, len, i);
    forall c | 0 <= c < 26
      ensures Count(s[..SliceStart(i + 1, len)], Letter(c))
        == Count(s[..SliceStart(i, len)], Letter(c)) + Count(WorkerSlice(s, len, i), Letter(c))
    {
      CountAppend(s[..SliceStart(i, len)], WorkerSlice(s, len, i), Letter(c));
    }
  }

  /**
   * The second loop of the driver: take the finished workers in index order
   * and copy each one's runs to `zippedChars` at the running count, which
   * then advances by that worker's run count.
   */
  method MergeWorkers(nThreads: int, ghost s: seq<char>, info: seq<Reader>, zippedChars: array<Run>)
    returns (zippedCharsCount: int)
    requires 1 <= nThreads <= |s| <= zippedChars.Length
    requires |info| == nThreads
    requires forall k :: 0 <= k < nThreads ==> HoldsRuns(info[k], s, SliceLength(|s|, nThreads), k)
    requires forall k :: 0 <= k < nThreads ==> info[k].localZipChar != zippedChars
    modifies zippedChars
    ensures 0 <= zippedCharsCount <= Covered(|s|, nThreads)
    ensures zippedChars[..zippedCharsCount] == Zipped(s, nThreads)
    ensures forall k :: zippedCharsCount <= k < zippedChars.Length ==> zippedChars[k] == old(zippedChars[k])
  {
    ghost var len := SliceLength(|s|, nThreads);
    zippedCharsCount := 0;
    for i := 0 to nThreads
      invariant SliceStart(i, len) <= Covered(|s|, nThreads)
      invariant 0 <= zippedCharsCount <= SliceStart(i, len)
      invariant zippedChars[..zippedCharsCount] == ZipSlices(s, len, i)
      invariant forall k :: zippedCharsCount <= k < zippedChars.Length ==> zippedChars[k] == old(zippedChars[k])
    {
      SliceInside(i, |s|, nThreads);
      ZipSlicesStep(s, len, i);
      var r := info[i];
      assert HoldsRuns(r, s, len, i);
      CopyRuns(zippedChars, zippedCharsCount, r);
      zippedCharsCount := zippedCharsCount + r.localZipCharSize;
    }
  }

  /**
   * The copy-out of one joined worker: its runs are written to `zippedChars`
   * starting at `offset`; nothing before `offset` or after the copied runs changes.
   */
  method CopyRuns(zippedChars: array<Run>, offset: nat, r: Reader)
    requires r.localZipCharSize <= r.localZipChar.Length
    requires offset + r.localZipCharSize <= zippedChars.Length
    requires zippedChars != r.localZipChar
    modifies zippedChars
    ensures zippedChars[..offset + r.localZipCharSize] == old(zippedChars[..offset]) + r.localZipChar[..r.localZipCharSize]
    ensures forall k :: offset + r.localZipCharSize <= k < zippedChars.Length ==> zippedChars[k] == old(zippedChars[k])
  {
    for j := 0 to r.localZipCharSize
      invariant zippedChars[..offset + j] == old(zippedChars[..offset]) + r.localZipChar[..j]
      invariant forall k :: offset + j <= k < zippedChars.Length ==> zippedChars[k] == old(zippedChars[k])
    {
      zippedChars[offset + j] := r.localZipChar[j];
      assert r.localZipChar[..j + 1] == r.localZipChar[..j] + [r.localZipChar[j]];
    }
  }

  /** Worker `k`'s buffer holds the runs of its slice of `s`. */
  ghost predicate HoldsRuns(r: Reader, s: seq<char>, len: nat, k: nat)
    reads r, r.localZipChar
  {
    && SliceStart(k + 1, len) <= |s|
    && r.localZipCharSize <= r.localZipChar.Length
    && r.localZipChar[..r.localZipCharSize] == Encode(WorkerSlice(s, len, k))
  }
}
