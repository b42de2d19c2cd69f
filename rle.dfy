/**
 * Run-length encoding of character buffers: the value-level vocabulary of the
 * parallel zip. A worker turns its slice into a list of runs; decoding a list
 * of runs gives the characters back; frequencies count letters.
 */
module Rle {

  /** One entry of the zipped output (`struct zipped_char`): a character and its repeat count. */
  datatype Run = Run(character: char, occurence: nat)

  /** The input alphabet: the 26 lower-case ASCII letters. */
  predicate IsLower(ch: char) {
    'a' <= ch <= 'z'
  }

  /** The letter whose counter sits at index `c` of a frequency table (`c == ch - 'a'`). */
  function Letter(c: int): (ch: char)
    requires 0 <= c < 26
    ensures IsLower(ch) && ch as int - 'a' as int == c
  {
    (c + 'a' as int) as char
  }

  /** A lower-case letter's counter sits at index `ch - 'a'`, and at no other index. */
  lemma LetterIndex(ch: char)
    requires IsLower(ch)
    ensures 0 <= ch as int - 'a' as int < 26 && Letter(ch as int - 'a' as int) == ch
    ensures forall c :: 0 <= c < 26 ==> (Letter(c) == ch <==> c == ch as int - 'a' as int)
  {
  }

  /** `n` copies of `c`. */
  function Repeat(c: char, n: nat): (r: seq<char>)
    ensures |r| == n
  {
    if n == 0 then [] else Repeat(c, n - 1) + [c]
  }

  /** One more copy of `c` at the end. */
  lemma RepeatSnoc(c: char, n: nat)
    ensures Repeat(c, n + 1) == Repeat(c, n) + [c]
  {
  }

  /** Expands runs back into the characters they stand for, in order. */
  function Decode(runs: seq<Run>): seq<char>
  {
    if runs == [] then []
    else Decode(runs[..|runs| - 1]) + Repeat(runs[|runs| - 1].character, runs[|runs| - 1].occurence)
  }

  /** Sum of the repeat counts of `runs`. */
  function Occurrences(runs: seq<Run>): nat
  {
    if runs == [] then 0 else Occurrences(runs[..|runs| - 1]) + runs[|runs| - 1].occurence
  }

  /** Every run is non-empty and neighbouring runs hold different characters,
      so every run is a maximal block of equal characters. */
  ghost predicate WellFormed(runs: seq<Run>) {
    && (forall k :: 0 <= k < |runs| ==> runs[k].occurence >= 1)
    && (forall k :: 0 < k < |runs| ==> runs[k - 1].character != runs[k].character)
  }

  /** Well-formedness of a list with one more run at the end. */
  lemma WellFormedSnoc(init: seq<Run>, last: Run)
    ensures WellFormed(init + [last]) <==>
      && WellFormed(init)
      && last.occurence >= 1
      && (init == [] || init[|init| - 1].character != last.character)
  {
    var r := init + [last];
    assert forall k :: 0 <= k < |init| ==> r[k] == init[k];
    assert r[|init|] == last;
    if WellFormed(r) {
      forall k | 0 < k < |init|
        ensures init[k - 1].character != init[k].character
      {
        assert r[k - 1].character != r[k].character;
      }
      if init != [] {
        assert r[|init| - 1].character != r[|init|].character;
      }
    }
  }

  /** Lengthening the last run keeps a list maximal. */
  lemma WellFormedGrow(init: seq<Run>, c: char, n: nat)
    requires WellFormed(init + [Run(c, n)])
    ensures WellFormed(init + [Run(c, n + 1)])
  {
    WellFormedSnoc(init, Run(c, n));
    WellFormedSnoc(init, Run(c, n + 1));
  }

  /**
   * One step of the left-to-right scan: a character equal to the last run's
   * extends that run, any other character opens a new run of length one.
   */
  function Push(runs: seq<Run>, x: char): (r: seq<Run>)
    ensures |r| <= |runs| + 1
    ensures r != [] && r[|r| - 1].character == x
  {
    if runs != [] && runs[|runs| - 1].character == x then
      runs[..|runs| - 1] + [Run(x, runs[|runs| - 1].occurence + 1)]
    else
      runs + [Run(x, 1)]
  }

  /** The run-length encoding of `s`, built the way a left-to-right scan builds it. */
  function Encode(s: seq<char>): (r: seq<Run>)
    ensures |r| <= |s|
    ensures s != [] ==> r != [] && r[|r| - 1].character == s[|s| - 1]
    decreases |s|
  {
    if s == [] then [] else Push(Encode(s[..|s| - 1]), s[|s| - 1])
  }

  /** Number of occurrences of `ch` in `s`. */
  function Count(s: seq<char>, ch: char): nat
  {
    if s == [] then 0 else Count(s[..|s| - 1], ch) + (if s[|s| - 1] == ch then 1 else 0)
  }

  /** Total repeat count of the runs of `runs` that hold `ch`: what a worker adds to `ch`'s counter. */
  function Frequency(runs: seq<Run>, ch: char): (f: nat)
    ensures f <= Occurrences(runs)
  {
    if runs == [] then 0
    else Frequency(runs[..|runs| - 1], ch) + (if runs[|runs| - 1].character == ch then runs[|runs| - 1].occurence else 0)
  }

  /** Sum of the counters for the first `k` letters of the alphabet. */
  function LetterTotal(s: seq<char>, k: nat): nat
    requires k <= 26
  {
    if k == 0 then 0 else LetterTotal(s, k - 1) + Count(s, Letter(k - 1))
  }

  // ---------------------------------------------------------------------------
  // Decoding

  /** Decoding distributes over concatenation. */
  lemma {:induction false} DecodeAppend(a: seq<Run>, b: seq<Run>)
    ensures Decode(a + b) == Decode(a) + Decode(b)
    decreases |b|
  {
    if b == [] {
      assert a + b == a;
    } else {
      var b' := b[..|b| - 1];
      assert (a + b)[..|a + b| - 1] == a + b';
      DecodeAppend(a, b');
    }
  }

  /** Decoding one more run appends its block. */
  lemma DecodeSnoc(init: seq<Run>, last: Run)
    ensures Decode(init + [last]) == Decode(init) + Repeat(last.character, last.occurence)
  {
    assert (init + [last])[..|init|] == init;
  }

  /** A decoded list is exactly as long as the sum of its repeat counts. */
  lemma {:induction false} DecodeLength(runs: seq<Run>)
    ensures |Decode(runs)| == Occurrences(runs)
    decreases |runs|
  {
    if runs != [] {
      DecodeLength(runs[..|runs| - 1]);
    }
  }

  /** The last character of a decoded list is the character of its last run, when that run is non-empty. */
  lemma DecodeLast(runs: seq<Run>)
    requires runs != [] && runs[|runs| - 1].occurence >= 1
    ensures Decode(runs) != [] && Decode(runs)[|Decode(runs)| - 1] == runs[|runs| - 1].character
  {
  }

  // ---------------------------------------------------------------------------
  // Encoding

  /** Encoding one more character is one more scan step. */
  lemma EncodeSnoc(t: seq<char>, x: char)
    ensures Encode(t + [x]) == Push(Encode(t), x)
  {
    assert (t + [x])[..|t|] == t;
  }

  /** Scan step, equal character: the last run grows by one. */
  lemma EncodeExtend(t: seq<char>, x: char)
    requires Encode(t) != [] && Encode(t)[|Encode(t)| - 1].character == x
    ensures Encode(t + [x]) == Encode(t)[..|Encode(t)| - 1] + [Run(x, Encode(t)[|Encode(t)| - 1].occurence + 1)]
  {
    EncodeSnoc(t, x);
  }

  /** Scan step, different character: a new run of length one opens. */
  lemma EncodeOpen(t: seq<char>, x: char)
    requires Encode(t) == [] || Encode(t)[|Encode(t)| - 1].character != x
    ensures Encode(t + [x]) == Encode(t) + [Run(x, 1)]
  {
    EncodeSnoc(t, x);
  }

  /** A scan step with the character of the last run extends that run. */
  lemma PushExtend(init: seq<Run>, last: Run)
    ensures Push(init + [last], last.character) == init + [Run(last.character, last.occurence + 1)]
  {
    assert (init + [last])[..|init|] == init;
  }

  /** A scan step adds exactly the scanned character to what the runs expand to. */
  lemma PushDecode(runs: seq<Run>, x: char)
    ensures Decode(Push(runs, x)) == Decode(runs) + [x]
  {
    if runs != [] && runs[|runs| - 1].character == x {
      var init, n := runs[..|runs| - 1], runs[|runs| - 1].occurence;
      assert runs == init + [Run(x, n)];
      DecodeSnoc(init, Run(x, n));
      DecodeSnoc(init, Run(x, n + 1));
      RepeatSnoc(x, n);
    } else {
      DecodeSnoc(runs, Run(x, 1));
    }
  }

  /** A scan step keeps the runs maximal. */
  lemma PushWellFormed(runs: seq<Run>, x: char)
    requires WellFormed(runs)
    ensures WellFormed(Push(runs, x))
  {
    if runs != [] && runs[|runs| - 1].character == x {
      var init, n := runs[..|runs| - 1], runs[|runs| - 1].occurence;
      assert runs == init + [Run(x, n)];
      WellFormedGrow(init, x, n);
    } else {
      WellFormedSnoc(runs, Run(x, 1));
    }
  }

  /** Every run of the encoding of a lower-case text holds a lower-case letter. */
  lemma {:induction false} EncodeLower(s: seq<char>)
    requires forall k :: 0 <= k < |s| ==> IsLower(s[k])
    ensures forall k :: 0 <= k < |Encode(s)| ==> IsLower(Encode(s)[k].character)
    decreases |s|
  {
    if s != [] {
      var t, x := s[..|s| - 1], s[|s| - 1];
      assert s == t + [x];
      EncodeSnoc(t, x);
      EncodeLower(t);
      var r := Encode(t);
      assert forall k :: 0 <= k < |r| ==> IsLower(r[k].character);
    }
  }

  /** Round trip: expanding the encoding of `s` gives back `s`. */
  lemma {:induction false} DecodeEncode(s: seq<char>)
    ensures Decode(Encode(s)) == s
    decreases |s|
  {
    if s != [] {
      var t, x := s[..|s| - 1], s[|s| - 1];
      assert s == t + [x];
      EncodeSnoc(t, x);
      DecodeEncode(t);
      PushDecode(Encode(t), x);
    }
  }

  /** The encoding consists of maximal runs: each non-empty, neighbours different. */
  lemma {:induction false} EncodeWellFormed(s: seq<char>)
    ensures WellFormed(Encode(s))
    decreases |s|
  {
    if s != [] {
      var t, x := s[..|s| - 1], s[|s| - 1];
      assert s == t + [x];
      EncodeSnoc(t, x);
      EncodeWellFormed(t);
      PushWellFormed(Encode(t), x);
    }
  }

  /** The repeat counts of the encoding add up to the length of the input. */
  lemma EncodeOccurrences(s: seq<char>)
    ensures Occurrences(Encode(s)) == |s|
  {
    DecodeEncode(s);
    DecodeLength(Encode(s));
  }

  /** Appending a block of `n` copies of `c` that cannot join the last run adds exactly one run. */
  lemma {:induction false} EncodeBlock(t: seq<char>, c: char, n: nat)
    requires n >= 1
    requires t == [] || t[|t| - 1] != c
    ensures Encode(t + Repeat(c, n)) == Encode(t) + [Run(c, n)]
    decreases n
  {
    if n == 1 {
      assert t + Repeat(c, n) == t + [c];
      EncodeSnoc(t, c);
    } else {
      var u := t + Repeat(c, n - 1);
      RepeatSnoc(c, n - 1);
      assert t + Repeat(c, n) == u + [c];
      EncodeBlock(t, c, n - 1);
      calc {
        Encode(t + Repeat(c, n));
        Encode(u + [c]);
        { EncodeSnoc(u, c); }
        Push(Encode(u), c);
        Push(Encode(t) + [Run(c, n - 1)], c);
        { PushExtend(Encode(t), Run(c, n - 1)); }
        Encode(t) + [Run(c, n)];
      }
    }
  }

  /**
   * Uniqueness: a list of maximal runs is the encoding of what it decodes to.
   * With DecodeEncode and EncodeWellFormed this makes Encode(s) the one and
   * only well-formed run list whose expansion is `s`.
   */
  lemma {:induction false} EncodeUnique(runs: seq<Run>)
    requires WellFormed(runs)
    ensures Encode(Decode(runs)) == runs
    decreases |runs|
  {
    if runs != [] {
      var init := runs[..|runs| - 1];
      var last := runs[|runs| - 1];
      assert runs == init + [last];
      WellFormedSnoc(init, last);
      EncodeUnique(init);
      if init != [] {
        DecodeLast(init);
      }
      DecodeSnoc(init, last);
      EncodeBlock(Decode(init), last.character, last.occurence);
    }
  }

  // ---------------------------------------------------------------------------
  // Counting

  /** Counting distributes over concatenation. */
  lemma {:induction false} CountAppend(a: seq<char>, b: seq<char>, ch: char)
    ensures Count(a + b, ch) == Count(a, ch) + Count(b, ch)
    decreases |b|
  {
    if b == [] {
      assert a + b == a;
    } else {
      var b' := b[..|b| - 1];
      assert (a + b)[..|a + b| - 1] == a + b';
      CountAppend(a, b', ch);
    }
  }

  /** A block of `n` copies of `c` holds `n` occurrences of `c` and none of any other character. */
  lemma {:induction false} CountRepeat(c: char, n: nat, ch: char)
    ensures Count(Repeat(c, n), ch) == if c == ch then n else 0
    decreases n
  {
    if n > 0 {
      assert Repeat(c, n)[..n - 1] == Repeat(c, n - 1);
      CountRepeat(c, n - 1, ch);
    }
  }

  /** Taking one more run of `runs` into account adds its repeat count to its own character's total only. */
  lemma FrequencyStep(runs: seq<Run>, i: nat, ch: char)
    requires i < |runs|
    ensures Frequency(runs[..i + 1], ch) == Frequency(runs[..i], ch) + (if runs[i].character == ch then runs[i].occurence else 0)
  {
    assert runs[..i + 1][..i] == runs[..i];
  }

  /** Run `i` adds its length to the total of its own letter and nothing to the other letters. */
  lemma FrequencyStepLetters(runs: seq<Run>, i: nat)
    requires i < |runs| && IsLower(runs[i].character)
    ensures forall c :: 0 <= c < 26 ==>
      Frequency(runs[..i + 1], Letter(c))
        == Frequency(runs[..i], Letter(c)) + (if c == runs[i].character as int - 'a' as int then runs[i].occurence else 0)
  {
    LetterIndex(runs[i].character);
    forall c | 0 <= c < 26
      ensures Frequency(runs[..i + 1], Letter(c))
        == Frequency(runs[..i], Letter(c)) + (if c == runs[i].character as int - 'a' as int then runs[i].occurence else 0)
    {
      FrequencyStep(runs, i, Letter(c));
    }
  }

  /** Adding the runs' repeat counts for `ch` gives the number of `ch`s the runs stand for. */
  lemma {:induction false} FrequencyDecode(runs: seq<Run>, ch: char)
    ensures Frequency(runs, ch) == Count(Decode(runs), ch)
    decreases |runs|
  {
    if runs != [] {
      var init := runs[..|runs| - 1];
      var last := runs[|runs| - 1];
      FrequencyDecode(init, ch);
      CountAppend(Decode(init), Repeat(last.character, last.occurence), ch);
      CountRepeat(last.character, last.occurence, ch);
    }
  }

  /** The runs of the encoding of `s` hold, for each `ch`, exactly the occurrences of `ch` in `s`. */
  lemma EncodeFrequency(s: seq<char>, ch: char)
    ensures Frequency(Encode(s), ch) == Count(s, ch)
  {
    FrequencyDecode(Encode(s), ch);
    DecodeEncode(s);
  }

  /** Per letter, the runs of `s` add up to the letter counts of `s`. */
  lemma EncodeFrequencyLetters(s: seq<char>)
    ensures forall c :: 0 <= c < 26 ==> Frequency(Encode(s), Letter(c)) == Count(s, Letter(c))
  {
    forall c | 0 <= c < 26
      ensures Frequency(Encode(s), Letter(c)) == Count(s, Letter(c))
    {
      EncodeFrequency(s, Letter(c));
    }
  }

  /** One more character adds one to the letter total exactly when it is among the first `k` letters. */
  lemma {:induction false} LetterTotalSnoc(s: seq<char>, x: char, k: nat)
    requires k <= 26 && IsLower(x)
    ensures LetterTotal(s + [x], k) == LetterTotal(s, k) + (if x as int - 'a' as int < k then 1 else 0)
    decreases k
  {
    if k > 0 {
      LetterTotalSnoc(s, x, k - 1);
      assert (s + [x])[..|s|] == s;
    }
  }

  /** Over a lower-case text the 26 letter counts add up to its length. */
  lemma {:induction false} LetterTotalLength(s: seq<char>)
    requires forall k :: 0 <= k < |s| ==> IsLower(s[k])
    ensures LetterTotal(s, 26) == |s|
    decreases |s|
  {
    if s == [] {
      LetterTotalEmpty(26);
    } else {
      var t := s[..|s| - 1];
      LetterTotalLength(t);
      LetterTotalSnoc(t, s[|s| - 1], 26);
      assert t + [s[|s| - 1]] == s;
    }
  }

  /** The empty text has no letters. */
  lemma {:induction false} LetterTotalEmpty(k: nat)
    requires k <= 26
    ensures LetterTotal([], k) == 0
    decreases k
  {
    if k > 0 {
      LetterTotalEmpty(k - 1);
    }
  }
}
