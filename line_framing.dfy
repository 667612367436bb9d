// Line reassembly for the scale connection: the decoded text is cut at every
// `\n` (a `\r` right before it is part of the terminator, as in
// `split(/\r?\n/)`) and the trailing fragment is kept back for the next chunk.
//
// Every function walks the text from an index `j`, so that one step of the
// recursion moves an index rather than cutting a new string.

module LineFraming {

  // ---------------------------------------------------------------------
  // Definitions
  // ---------------------------------------------------------------------

  /** Index of the first `\n` of `s` at or after `j`, or `|s|` when there is none. */
  function NextNewline(s: string, j: nat): (i: nat)
    requires j <= |s|
    ensures j <= i <= |s|
    ensures i < |s| ==> s[i] == '\n'
    decreases |s| - j
  {
    if j == |s| || s[j] == '\n' then j else NextNewline(s, j + 1)
  }

  predicate EndsWithCR(p: string)
  {
    |p| > 0 && p[|p| - 1] == '\r'
  }

  /** Drops one trailing carriage return: the optional `\r?` of a terminator. */
  function StripCR(p: string): string
  {
    if EndsWithCR(p) then p[..|p| - 1] else p
  }

  /**
   * `s[j..].split(/\r?\n/)`. The regex is matched leftmost-first, so a `\r`
   * right before a `\n` belongs to the terminator, while a lone `\r` splits
   * nothing.
   */
  function SplitFrom(s: string, j: nat): seq<string>
    requires j <= |s|
    decreases |s| - j
  {
    var i := NextNewline(s, j);
    if i == |s| then [s[j..]] else [StripCR(s[j..i])] + SplitFrom(s, i + 1)
  }

  /** `s.split(/\r?\n/)`. */
  function SplitLines(s: string): (pieces: seq<string>)
    ensures |pieces| > 0
  {
    SplitFrom(s, 0)
  }

  /** The terminated lines of `s[j..]`, without their terminators. */
  function LinesFrom(s: string, j: nat): seq<string>
    requires j <= |s|
    decreases |s| - j
  {
    var i := NextNewline(s, j);
    if i == |s| then [] else [StripCR(s[j..i])] + LinesFrom(s, i + 1)
  }

  /** Where the unterminated text after the last `\n` of `s[j..]` begins. */
  function RemainderStart(s: string, j: nat): nat
    requires j <= |s|
    decreases |s| - j
  {
    var i := NextNewline(s, j);
    if i == |s| then j else RemainderStart(s, i + 1)
  }

  /** The unterminated text after the last `\n` of `s[j..]`. */
  function RemainderFrom(s: string, j: nat): string
    requires j <= |s|
    decreases |s| - j
  {
    var i := NextNewline(s, j);
    if i == |s| then s[j..] else RemainderFrom(s, i + 1)
  }

  /** The terminator, `"\r\n"` or `"\n"`, that ended each complete line of `s[j..]`. */
  function TerminatorsFrom(s: string, j: nat): seq<string>
    requires j <= |s|
    decreases |s| - j
  {
    var i := NextNewline(s, j);
    if i == |s| then [] else [if EndsWithCR(s[j..i]) then "\r\n" else "\n"] + TerminatorsFrom(s, i + 1)
  }

  function CompleteLines(s: string): seq<string>
  {
    LinesFrom(s, 0)
  }

  function Remainder(s: string): string
  {
    RemainderFrom(s, 0)
  }

  function Terminators(s: string): seq<string>
  {
    TerminatorsFrom(s, 0)
  }

  /** Each line followed by its terminator, concatenated. */
  function Join(lines: seq<string>, terms: seq<string>): string
    requires |lines| == |terms|
  {
    if |lines| == 0 then "" else lines[0] + terms[0] + Join(lines[1..], terms[1..])
  }

  // ---------------------------------------------------------------------
  // One step of the walk, and sequence algebra
  // ---------------------------------------------------------------------

  /** No `\n` lies between `j` and the next one. */
  lemma {:induction false} NoNewlineBefore(s: string, j: nat)
    requires j <= |s|
    ensures forall k :: j <= k < NextNewline(s, j) ==> s[k] != '\n'
    decreases |s| - j
  {
    if j < |s| && s[j] != '\n' {
      NoNewlineBefore(s, j + 1);
    }
  }

  /** The walk at a `\n` found at `i`: the piece before it, then the walk after it. */
  lemma SplitAt(s: string, j: nat, i: nat)
    requires j <= i < |s| && i == NextNewline(s, j)
    ensures SplitFrom(s, j) == [StripCR(s[j..i])] + SplitFrom(s, i + 1)
  {
  }

  lemma LinesAt(s: string, j: nat, i: nat)
    requires j <= i < |s| && i == NextNewline(s, j)
    ensures LinesFrom(s, j) == [StripCR(s[j..i])] + LinesFrom(s, i + 1)
  {
  }

  lemma TerminatorsAt(s: string, j: nat, i: nat)
    requires j <= i < |s| && i == NextNewline(s, j)
    ensures TerminatorsFrom(s, j) == [if EndsWithCR(s[j..i]) then "\r\n" else "\n"] + TerminatorsFrom(s, i + 1)
  {
  }

  lemma RemainderAt(s: string, j: nat, i: nat)
    requires j <= i < |s| && i == NextNewline(s, j)
    ensures RemainderFrom(s, j) == RemainderFrom(s, i + 1)
  {
  }

  /** The walk when no `\n` is left: no complete line, and the rest is the remainder. */
  lemma LastPiece(s: string, j: nat)
    requires j <= |s| && NextNewline(s, j) == |s|
    ensures SplitFrom(s, j) == [s[j..]]
    ensures LinesFrom(s, j) == [] && TerminatorsFrom(s, j) == []
    ensures RemainderFrom(s, j) == s[j..]
  {
  }

  lemma NoLinesLeft(s: string, j: nat)
    requires j <= |s| && NextNewline(s, j) == |s|
    ensures LinesFrom(s, j) == []
  {
  }

  lemma RemainderEnd(s: string, j: nat)
    requires j <= |s| && NextNewline(s, j) == |s|
    ensures RemainderFrom(s, j) == s[j..]
  {
  }

  lemma ConsOnto<T>(a: T, whole: seq<T>, front: seq<T>, back: seq<T>)
    requires whole == front + back
    ensures [a] + whole == ([a] + front) + back
  {
  }

  lemma Assoc<T>(a: seq<T>, b: seq<T>, c: seq<T>)
    ensures a + (b + c) == (a + b) + c
  {
  }

  lemma SliceOfDrop<T>(s: seq<T>, d: nat, a: nat, b: nat)
    requires d <= a <= b <= |s|
    ensures s[d..][a - d..b - d] == s[a..b]
  {
  }

  lemma DropOfDrop<T>(s: seq<T>, d: nat, a: nat)
    requires d <= a <= |s|
    ensures s[d..][a - d..] == s[a..]
  {
  }

  lemma JoinCons(line: string, term: string, lines: seq<string>, terms: seq<string>)
    requires |lines| == |terms|
    ensures Join([line] + lines, [term] + terms) == (line + term) + Join(lines, terms)
  {
    assert ([line] + lines)[1..] == lines;
    assert ([term] + terms)[1..] == terms;
  }

  // ---------------------------------------------------------------------
  // `split` and `pop`
  // ---------------------------------------------------------------------

  predicate PopsRemainder(s: string, j: nat)
    requires j <= |s|
  {
    SplitFrom(s, j) == LinesFrom(s, j) + [RemainderFrom(s, j)]
  }

  lemma PopsRemainderStep(s: string, j: nat, i: nat)
    requires j <= i < |s| && i == NextNewline(s, j)
    requires PopsRemainder(s, i + 1)
    ensures PopsRemainder(s, j)
  {
    SplitAt(s, j, i);
    LinesAt(s, j, i);
    ConsOnto(StripCR(s[j..i]), SplitFrom(s, i + 1), LinesFrom(s, i + 1), [RemainderFrom(s, i + 1)]);
  }

  lemma {:induction false} PopsRemainderFrom(s: string, j: nat)
    requires j <= |s|
    ensures PopsRemainder(s, j)
    decreases |s| - j
  {
    var i := NextNewline(s, j);
    if i < |s| {
      PopsRemainderFrom(s, i + 1);
      PopsRemainderStep(s, j, i);
    } else {
      LastPiece(s, j);
    }
  }

  /**
   * What `lines.pop()` splits the result of `split` into: the popped last
   * element is the remainder, and what stays are the complete lines.
   */
  lemma SplitIsLinesThenRemainder(s: string)
    ensures SplitLines(s) == CompleteLines(s) + [Remainder(s)]
  {
    PopsRemainderFrom(s, 0);
  }

  // ---------------------------------------------------------------------
  // Nothing is lost
  // ---------------------------------------------------------------------

  /** Dropping the `\r?` and then appending the terminator it implies restores the piece and its `\n`. */
  lemma StripThenTerminate(head: string)
    ensures StripCR(head) + (if EndsWithCR(head) then "\r\n" else "\n") == head + "\n"
  {
    if EndsWithCR(head) {
      assert head == head[..|head| - 1] + "\r";
    }
  }

  lemma CutAtNewline(s: string, j: nat, i: nat)
    requires j <= i < |s| && s[i] == '\n'
    ensures s[j..] == (s[j..i] + "\n") + s[i + 1..]
  {
  }

  lemma RejoinLine(line: string, term: string, head: string, joined: string, rest: string, tail: string)
    requires line + term == head + "\n"
    requires joined + rest == tail
    ensures ((line + term) + joined) + rest == (head + "\n") + tail
  {
    Assoc(line + term, joined, rest);
  }

  predicate Rebuilds(s: string, j: nat)
    requires j <= |s|
  {
    |TerminatorsFrom(s, j)| == |LinesFrom(s, j)| &&
    Join(LinesFrom(s, j), TerminatorsFrom(s, j)) + RemainderFrom(s, j) == s[j..]
  }

  lemma RebuildsStep(s: string, j: nat, i: nat)
    requires j <= i < |s| && i == NextNewline(s, j)
    requires Rebuilds(s, i + 1)
    ensures Rebuilds(s, j)
  {
    var head := s[j..i];
    var line, term := StripCR(head), if EndsWithCR(head) then "\r\n" else "\n";
    var lines, terms, rest := LinesFrom(s, i + 1), TerminatorsFrom(s, i + 1), RemainderFrom(s, i + 1);
    LinesAt(s, j, i);
    TerminatorsAt(s, j, i);
    RemainderAt(s, j, i);
    JoinCons(line, term, lines, terms);
    StripThenTerminate(head);
    RejoinLine(line, term, head, Join(lines, terms), rest, s[i + 1..]);
    CutAtNewline(s, j, i);
  }

  lemma {:induction false} RebuildsFrom(s: string, j: nat)
    requires j <= |s|
    ensures Rebuilds(s, j)
    decreases |s| - j
  {
    var i := NextNewline(s, j);
    if i < |s| {
      RebuildsFrom(s, i + 1);
      RebuildsStep(s, j, i);
    } else {
      LastPiece(s, j);
    }
  }

  /**
   * Splitting loses nothing: the complete lines, each followed by the
   * terminator that ended it, and then the remainder, give back the input.
   */
  lemma Reconstruct(s: string)
    ensures |Terminators(s)| == |CompleteLines(s)|
    ensures Join(CompleteLines(s), Terminators(s)) + Remainder(s) == s
  {
    RebuildsFrom(s, 0);
  }

  // ---------------------------------------------------------------------
  // What the lines and terminators look like
  // ---------------------------------------------------------------------

  predicate NewlineFree(lines: seq<string>)
  {
    forall k :: 0 <= k < |lines| ==> '\n' !in lines[k]
  }

  lemma NewlineFreeStep(s: string, j: nat, i: nat)
    requires j <= i < |s| && i == NextNewline(s, j)
    requires NewlineFree(LinesFrom(s, i + 1))
    ensures NewlineFree(LinesFrom(s, j))
  {
    var line, lines := StripCR(s[j..i]), LinesFrom(s, i + 1);
    LinesAt(s, j, i);
    NoNewlineBefore(s, j);
    assert '\n' !in line by {
      forall k | 0 <= k < |line| ensures line[k] != '\n' {
        assert line[k] == s[j + k];
      }
    }
    forall k | 0 <= k < |[line] + lines| ensures '\n' !in ([line] + lines)[k] {
      if k > 0 {
        assert ([line] + lines)[k] == lines[k - 1];
      }
    }
  }

  lemma {:induction false} NewlineFreeFrom(s: string, j: nat)
    requires j <= |s|
    ensures NewlineFree(LinesFrom(s, j))
    decreases |s| - j
  {
    var i := NextNewline(s, j);
    if i < |s| {
      NewlineFreeFrom(s, i + 1);
      NewlineFreeStep(s, j, i);
    } else {
      LastPiece(s, j);
    }
  }

  /** No complete line contains a `\n`. */
  lemma LinesHaveNoNewline(s: string)
    ensures forall k :: 0 <= k < |CompleteLines(s)| ==> '\n' !in CompleteLines(s)[k]
  {
    NewlineFreeFrom(s, 0);
  }

  /** Each terminator is `\r\n`, or a bare `\n` after a line that does not end in `\r`. */
  predicate CRGoesWithTerminator(lines: seq<string>, terms: seq<string>)
  {
    |terms| == |lines| &&
    forall k :: 0 <= k < |lines| ==>
      terms[k] == "\r\n" || (terms[k] == "\n" && !EndsWithCR(lines[k]))
  }

  lemma CRGoesWithTerminatorCons(line: string, term: string, lines: seq<string>, terms: seq<string>)
    requires term == "\r\n" || (term == "\n" && !EndsWithCR(line))
    requires CRGoesWithTerminator(lines, terms)
    ensures CRGoesWithTerminator([line] + lines, [term] + terms)
  {
    forall k | 0 <= k < |[line] + lines|
      ensures ([term] + terms)[k] == "\r\n" || (([term] + terms)[k] == "\n" && !EndsWithCR(([line] + lines)[k]))
    {
      if k > 0 {
        assert ([line] + lines)[k] == lines[k - 1];
        assert ([term] + terms)[k] == terms[k - 1];
      }
    }
  }

  lemma CRGoesWithTerminatorStep(s: string, j: nat, i: nat)
    requires j <= i < |s| && i == NextNewline(s, j)
    requires CRGoesWithTerminator(LinesFrom(s, i + 1), TerminatorsFrom(s, i + 1))
    ensures CRGoesWithTerminator(LinesFrom(s, j), TerminatorsFrom(s, j))
  {
    var head := s[j..i];
    LinesAt(s, j, i);
    TerminatorsAt(s, j, i);
    CRGoesWithTerminatorCons(StripCR(head), if EndsWithCR(head) then "\r\n" else "\n",
      LinesFrom(s, i + 1), TerminatorsFrom(s, i + 1));
  }

  lemma {:induction false} CRGoesWithTerminatorFrom(s: string, j: nat)
    requires j <= |s|
    ensures CRGoesWithTerminator(LinesFrom(s, j), TerminatorsFrom(s, j))
    decreases |s| - j
  {
    var i := NextNewline(s, j);
    if i < |s| {
      CRGoesWithTerminatorFrom(s, i + 1);
      CRGoesWithTerminatorStep(s, j, i);
    } else {
      LastPiece(s, j);
    }
  }

  /**
   * Every complete line has one terminator, `\r\n` or `\n`, and a bare `\n`
   * ends a line only when that line does not end in `\r`: a `\r` right
   * before a `\n` is taken into the terminator, never left on the line.
   */
  lemma TerminatorTakesCR(s: string)
    ensures |Terminators(s)| == |CompleteLines(s)|
    ensures forall k :: 0 <= k < |CompleteLines(s)| ==>
      Terminators(s)[k] == "\r\n" ||
      (Terminators(s)[k] == "\n" && !EndsWithCR(CompleteLines(s)[k]))
  {
    CRGoesWithTerminatorFrom(s, 0);
  }

  /**
   * The remainder is the text after the last `\n`: it runs to the end of the
   * input and starts where the text does or right after a `\n`.
   */
  lemma {:induction false} RemainderIsSuffix(s: string, j: nat)
    requires j <= |s|
    ensures j <= RemainderStart(s, j) <= |s|
    ensures RemainderFrom(s, j) == s[RemainderStart(s, j)..]
    ensures RemainderStart(s, j) == j || s[RemainderStart(s, j) - 1] == '\n'
    decreases |s| - j
  {
    var i := NextNewline(s, j);
    if i < |s| {
      RemainderIsSuffix(s, i + 1);
    }
  }

  /**
   * No `\n` follows the start of the remainder; and text with no `\n` at all
   * (a lone `\r` included) completes no line and is kept whole.
   */
  lemma {:induction false} NoNewlineInRemainder(s: string, j: nat)
    requires j <= |s|
    ensures forall k :: RemainderStart(s, j) <= k < |s| ==> s[k] != '\n'
    ensures (forall k :: j <= k < |s| ==> s[k] != '\n') ==>
      LinesFrom(s, j) == [] && RemainderFrom(s, j) == s[j..]
    decreases |s| - j
  {
    var i := NextNewline(s, j);
    if i < |s| {
      NoNewlineInRemainder(s, i + 1);
    } else {
      NoNewlineBefore(s, j);
    }
  }

  // ---------------------------------------------------------------------
  // Text that arrives in pieces
  // ---------------------------------------------------------------------

  /** Looking at `s` from `d` on shifts the next `\n` by `d`. */
  lemma {:induction false} ShiftNext(s: string, d: nat, j: nat)
    requires d <= j <= |s|
    ensures NextNewline(s, j) == d + NextNewline(s[d..], j - d)
    decreases |s| - j
  {
    if j < |s| {
      assert s[d..][j - d] == s[j];
      if s[j] != '\n' {
        ShiftNext(s, d, j + 1);
      }
    }
  }

  predicate SameLines(s: string, t: string, j: nat, k: nat)
    requires j <= |s| && k <= |t|
  {
    LinesFrom(s, j) == LinesFrom(t, k)
  }

  lemma ShiftLinesStep(s: string, t: string, d: nat, j: nat, i: nat)
    requires d <= j <= i < |s| && t == s[d..]
    requires i == NextNewline(s, j) && i - d == NextNewline(t, j - d)
    requires SameLines(s, t, i + 1, i + 1 - d)
    ensures SameLines(s, t, j, j - d)
  {
    SliceOfDrop(s, d, j, i);
    LinesAt(s, j, i);
    LinesAt(t, j - d, i - d);
  }

  lemma ShiftLinesEnd(s: string, t: string, d: nat, j: nat)
    requires d <= j <= |s| && t == s[d..]
    requires NextNewline(s, j) == |s| && NextNewline(t, j - d) == |t|
    ensures SameLines(s, t, j, j - d)
  {
    NoLinesLeft(s, j);
    NoLinesLeft(t, j - d);
  }

  /** Looking at `s` from `d` on changes no complete line. */
  lemma {:induction false} ShiftLines(s: string, d: nat, j: nat)
    requires d <= j <= |s|
    ensures SameLines(s, s[d..], j, j - d)
    decreases |s| - j
  {
    ShiftNext(s, d, j);
    var i := NextNewline(s, j);
    if i < |s| {
      ShiftLines(s, d, i + 1);
      ShiftLinesStep(s, s[d..], d, j, i);
    } else {
      ShiftLinesEnd(s, s[d..], d, j);
    }
  }

  /** Looking at `s` from `d` on shifts the start of the remainder by `d`. */
  lemma {:induction false} ShiftStart(s: string, d: nat, j: nat)
    requires d <= j <= |s|
    ensures RemainderStart(s, j) == d + RemainderStart(s[d..], j - d)
    decreases |s| - j
  {
    ShiftNext(s, d, j);
    var i := NextNewline(s, j);
    if i < |s| {
      ShiftStart(s, d, i + 1);
    }
  }

  /** Looking at `s` from `d` on changes no remainder. */
  lemma ShiftRemainder(s: string, d: nat, j: nat)
    requires d <= j <= |s|
    ensures RemainderFrom(s, j) == RemainderFrom(s[d..], j - d)
  {
    RemainderIsSuffix(s, j);
    RemainderIsSuffix(s[d..], j - d);
    ShiftStart(s, d, j);
    DropOfDrop(s, d, RemainderStart(s, j));
  }

  /** A `\n` in the first piece is also the next `\n` of the two pieces together. */
  lemma {:induction false} NewlineInFirstPiece(x: string, y: string, j: nat)
    requires j <= |x| && NextNewline(x, j) < |x|
    ensures NextNewline(x + y, j) == NextNewline(x, j)
    decreases |x| - j
  {
    assert (x + y)[j] == x[j];
    if x[j] != '\n' {
      NewlineInFirstPiece(x, y, j + 1);
    }
  }

  predicate LinesCarryOver(x: string, y: string, j: nat)
    requires j <= |x|
  {
    LinesFrom(x + y, j) == LinesFrom(x, j) + CompleteLines(RemainderFrom(x, j) + y)
  }

  lemma LinesCarryOverEnd(x: string, y: string, j: nat)
    requires j <= |x| && NextNewline(x, j) == |x|
    ensures LinesCarryOver(x, y, j)
  {
    var t := (x + y)[j..];
    ShiftLines(x + y, j, j);
    assert t == x[j..] + y;
    RemainderEnd(x, j);
    NoLinesLeft(x, j);
    assert LinesFrom(x + y, j) == CompleteLines(t);
  }

  lemma LinesCarryOverStep(x: string, y: string, j: nat, i: nat)
    requires j <= i < |x| && i == NextNewline(x, j) && i == NextNewline(x + y, j)
    requires LinesCarryOver(x, y, i + 1)
    ensures LinesCarryOver(x, y, j)
  {
    assert (x + y)[j..i] == x[j..i];
    LinesAt(x + y, j, i);
    LinesAt(x, j, i);
    RemainderAt(x, j, i);
    ConsOnto(StripCR(x[j..i]), LinesFrom(x + y, i + 1), LinesFrom(x, i + 1),
             CompleteLines(RemainderFrom(x, i + 1) + y));
  }

  lemma {:induction false} LinesCarryOverFrom(x: string, y: string, j: nat)
    requires j <= |x|
    ensures LinesCarryOver(x, y, j)
    decreases |x| - j
  {
    var i := NextNewline(x, j);
    if i < |x| {
      NewlineInFirstPiece(x, y, j);
      LinesCarryOverFrom(x, y, i + 1);
      LinesCarryOverStep(x, y, j, i);
    } else {
      LinesCarryOverEnd(x, y, j);
    }
  }

  /**
   * Text that arrives in two pieces: the lines complete in the first piece
   * come out as they are, followed by the lines of the first piece's
   * remainder continued by the second piece.
   */
  lemma LinesAppend(x: string, y: string)
    ensures CompleteLines(x + y) == CompleteLines(x) + CompleteLines(Remainder(x) + y)
  {
    LinesCarryOverFrom(x, y, 0);
  }

  lemma {:induction false} RemainderCarriesOver(x: string, y: string, j: nat)
    requires j <= |x|
    ensures RemainderFrom(x + y, j) == Remainder(RemainderFrom(x, j) + y)
    decreases |x| - j
  {
    var i := NextNewline(x, j);
    if i < |x| {
      NewlineInFirstPiece(x, y, j);
      RemainderCarriesOver(x, y, i + 1);
      RemainderAt(x + y, j, i);
      RemainderAt(x, j, i);
    } else {
      LastPiece(x, j);
      ShiftRemainder(x + y, j, j);
      assert (x + y)[j..] == x[j..] + y;
    }
  }

  /** The remainder of text that arrives in two pieces is that of the first piece's remainder continued by the second. */
  lemma RemainderAppend(x: string, y: string)
    ensures Remainder(x + y) == Remainder(Remainder(x) + y)
  {
    RemainderCarriesOver(x, y, 0);
  }

  /** A buffer with a `\r` doubled before its first `\n`. */
  const DoubledCR: string := "a\r\r\nb\n"

  lemma DoubledCRNewlines()
    ensures NextNewline(DoubledCR, 0) == 3 && NextNewline(DoubledCR, 4) == 5
    ensures NextNewline(DoubledCR, 6) == 6
  {
    var s := DoubledCR;
    assert NextNewline(s, 2) == 3;
    assert NextNewline(s, 1) == 3;
    assert NextNewline(s, 5) == 5;
  }

  /** Only the `\r` right before a `\n` is a terminator: an earlier `\r` stays on the line. */
  lemma CarriageReturnsExample()
    ensures CompleteLines(DoubledCR) == ["a\r", "b"]
    ensures Remainder(DoubledCR) == ""
  {
    var s := DoubledCR;
    DoubledCRNewlines();
    LinesAt(s, 0, 3);
    LinesAt(s, 4, 5);
    NoLinesLeft(s, 6);
    assert s[0..3] == "a\r\r" && StripCR("a\r\r") == "a\r";
    assert s[4..5] == "b" && StripCR("b") == "b";
    RemainderAt(s, 0, 3);
    RemainderAt(s, 4, 5);
    RemainderEnd(s, 6);
  }
}
