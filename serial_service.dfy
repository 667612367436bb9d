// The telemetry read loop: decoded text chunks are appended to a buffer,
// complete lines are split off and parsed, and the trailing fragment is kept.

module SerialService {
  import opened Types
  import opened LineFraming
  import opened ScaleParser

  // ---------------------------------------------------------------------
  // The read loop
  // ---------------------------------------------------------------------

  /** The weights reported for a sequence of complete lines, one per line holding a digit. */
  function Readings(lines: seq<string>): (weights: seq<real>)
    ensures |weights| <= |lines|
  {
    if |lines| == 0 then []
    else
      var w := ParseScaleString(lines[|lines| - 1]);
      Readings(lines[..|lines| - 1]) + (if w.Some? then [w.value] else [])
  }

  /** One more line adds its weight, if it reports one. */
  lemma ReadingsSnoc(lines: seq<string>, i: nat)
    requires i < |lines|
    ensures var w := ParseScaleString(lines[i]);
      Readings(lines[..i + 1]) == Readings(lines[..i]) + (if w.Some? then [w.value] else [])
  {
    assert lines[..i + 1][..i] == lines[..i];
  }

  lemma {:induction false} ReadingsAppend(a: seq<string>, b: seq<string>)
    ensures Readings(a + b) == Readings(a) + Readings(b)
    decreases |b|
  {
    if |b| > 0 {
      assert (a + b)[..|a + b| - 1] == a + b[..|b| - 1];
      ReadingsAppend(a, b[..|b| - 1]);
    } else {
      assert a + b == a;
    }
  }

  /**
   * What one chunk adds to the reading loop's output: the readings of the
   * lines it completes, split from the old buffer followed by the chunk.
   */
  lemma FeedChunk(seen: string, chunk: string)
    ensures Readings(CompleteLines(seen + chunk))
         == Readings(CompleteLines(seen)) + Readings(CompleteLines(Remainder(seen) + chunk))
    ensures Remainder(seen + chunk) == Remainder(Remainder(seen) + chunk)
  {
    LinesAppend(seen, chunk);
    RemainderAppend(seen, chunk);
    ReadingsAppend(CompleteLines(seen), CompleteLines(Remainder(seen) + chunk));
  }

  /**
   * Parses each complete line in order and reports the weight of every line
   * that yields one: exactly the readings of those lines.
   */
  method ProcessLines(lines: seq<string>) returns (reported: seq<real>)
    ensures reported == Readings(lines)
  {
    reported := [];
    for i := 0 to |lines|
      invariant reported == Readings(lines[..i])
    {
      ReadingsSnoc(lines, i);
      var weight := ParseScaleString(lines[i]);
      if weight.Some? {
        reported := reported + [weight.value];
      }
    }
    assert lines[..|lines|] == lines;
  }

  /** All chunks delivered so far, in order. */
  function Concat(chunks: seq<string>): string
  {
    if |chunks| == 0 then "" else Concat(chunks[..|chunks| - 1]) + chunks[|chunks| - 1]
  }

  lemma ConcatPrefix(chunks: seq<string>, n: nat)
    requires n < |chunks|
    ensures Concat(chunks[..n + 1]) == Concat(chunks[..n]) + chunks[n]
  {
    assert chunks[..n + 1][..n] == chunks[..n];
  }

  /** No `\n` in the text: a fragment still waiting for its terminator. */
  predicate Unterminated(s: string)
  {
    forall k :: 0 <= k < |s| ==> s[k] != '\n'
  }

  /** What is left after the last `\n` holds no `\n`. */
  lemma RemainderUnterminated(s: string)
    ensures Unterminated(Remainder(s))
  {
    RemainderIsSuffix(s, 0);
    NoNewlineInRemainder(s, 0);
    var start := RemainderStart(s, 0);
    forall k | 0 <= k < |Remainder(s)| ensures Remainder(s)[k] != '\n' {
      assert Remainder(s)[k] == s[start + k];
    }
  }

  /** Text without a `\n` completes no line and is kept whole. */
  lemma UnterminatedStaysWhole(s: string)
    requires Unterminated(s)
    ensures CompleteLines(s) == [] && Remainder(s) == s
  {
    NoNewlineInRemainder(s, 0);
    assert s[0..] == s;
  }

  /** The line buffer of the reading loop, fed one decoded chunk at a time. */
  class LineReassembler {
    var buffer: string

    /** The buffer never holds a complete line. */
    predicate Valid()
      reads this
    {
      Unterminated(buffer)
    }

    constructor ()
      ensures Valid() && buffer == ""
    {
      buffer := "";
    }

    /**
     * One non-empty chunk is appended, the buffer is split at every `\n`
     * (taking a `\r` before it), every piece but the last is parsed in order,
     * and the last piece is kept. An empty chunk changes nothing. The weights
     * reported are those of the lines completed by the chunk, and the buffer
     * becomes the text after the last `\n` of the old buffer and the chunk.
     */
    method Feed(chunk: string) returns (weights: seq<real>)
      requires Valid()
      modifies this
      ensures Valid()
      ensures weights == Readings(CompleteLines(old(buffer) + chunk))
      ensures buffer == Remainder(old(buffer) + chunk)
    {
      if chunk != "" {
        buffer := buffer + chunk;
        var lines := SplitLines(buffer);
        SplitIsLinesThenRemainder(buffer);
        RemainderUnterminated(buffer);
        buffer := lines[|lines| - 1];
        lines := lines[..|lines| - 1];
        weights := ProcessLines(lines);
      } else {
        assert buffer + chunk == buffer;
        UnterminatedStaysWhole(buffer);
        weights := [];
      }
    }
  }

  /**
   * The reading loop over the chunks the decoder delivers before the stream
   * closes. Its outcome depends only on the concatenated text, so how the text
   * is cut into chunks does not matter: the weights are those of the complete
   * lines of the whole text, in order, and the buffer ends as its fragment
   * after the last `\n`.
   */
  method ReadLoop(chunks: seq<string>) returns (weights: seq<real>, buffer: string)
    ensures weights == Readings(CompleteLines(Concat(chunks)))
    ensures buffer == Remainder(Concat(chunks))
  {
    var reassembler := new LineReassembler();
    weights := [];
    ghost var seen := "";
    var n := 0;
    while n < |chunks|
      invariant 0 <= n <= |chunks|
      invariant seen == Concat(chunks[..n])
      invariant reassembler.Valid()
      invariant reassembler.buffer == Remainder(seen)
      invariant weights == Readings(CompleteLines(seen))
    {
      ConcatPrefix(chunks, n);
      FeedChunk(seen, chunks[n]);
      var reported := reassembler.Feed(chunks[n]);
      weights := weights + reported;
      seen := seen + chunks[n];
      n := n + 1;
    }
    assert chunks[..n] == chunks;
    buffer := reassembler.buffer;
  }
}
