// The tolerant numeric extraction applied to every complete line of scale
// telemetry: every signed decimal literal is found, parsed, and the largest
// (floored at zero) is reported.

module ScaleParser {
  import opened Types

  // ---------------------------------------------------------------------
  // Tokenising a line: the global regex /[+-]?\d+(\.\d+)?/g
  // ---------------------------------------------------------------------

  /** `\d` without the unicode flag: an ASCII digit. */
  predicate IsDigit(c: char)
  {
    '0' <= c <= '9'
  }

  predicate IsSign(c: char)
  {
    c == '+' || c == '-'
  }

  predicate AllDigits(ds: string)
  {
    forall k :: 0 <= k < |ds| ==> IsDigit(ds[k])
  }

  predicate HasDigit(s: string)
  {
    exists k :: 0 <= k < |s| && IsDigit(s[k])
  }

  /** Length of the greedy run of digits of `s` starting at `i`. */
  function DigitRun(s: string, i: nat): (n: nat)
    requires i <= |s|
    ensures i + n <= |s|
    decreases |s| - i
  {
    if i < |s| && IsDigit(s[i]) then 1 + DigitRun(s, i + 1) else 0
  }

  /** The run is all digits and is followed by the end of the text or by a non-digit. */
  lemma {:induction false} DigitRunIsMaximal(s: string, i: nat)
    requires i <= |s|
    ensures AllDigits(s[i..i + DigitRun(s, i)])
    ensures i + DigitRun(s, i) == |s| || !IsDigit(s[i + DigitRun(s, i)])
    decreases |s| - i
  {
    if i < |s| && IsDigit(s[i]) {
      DigitRunIsMaximal(s, i + 1);
      var run := s[i..i + DigitRun(s, i)];
      forall k | 0 <= k < |run| ensures IsDigit(run[k]) {
        if k > 0 { assert run[k] == s[i + 1..i + 1 + DigitRun(s, i + 1)][k - 1]; }
      }
    }
  }

  /** Where a match can begin: a digit, or a sign immediately followed by a digit. */
  predicate StartsToken(s: string, i: nat)
  {
    (i < |s| && IsDigit(s[i])) || (i + 1 < |s| && IsSign(s[i]) && IsDigit(s[i + 1]))
  }

  /**
   * Length of the match of `[+-]?\d+(\.\d+)?` starting at `i`, 0 when none
   * starts there. Every quantifier is greedy and the fraction is taken only
   * when a digit follows the point.
   */
  function MatchLength(s: string, i: nat): (n: nat)
    requires i <= |s|
    ensures i + n <= |s|
  {
    var start := if i + 1 < |s| && IsSign(s[i]) && IsDigit(s[i + 1]) then i + 1 else i;
    var whole := DigitRun(s, start);
    if whole == 0 then 0
    else
      var e := start + whole;
      var frac := if e + 1 < |s| && s[e] == '.' && IsDigit(s[e + 1]) then 1 + DigitRun(s, e + 1) else 0;
      e + frac - i
  }

  /** A match begins at `i` exactly where a digit, or a sign and a digit, stand. */
  lemma MatchLengthStarts(s: string, i: nat)
    requires i <= |s|
    ensures MatchLength(s, i) > 0 <==> StartsToken(s, i)
  {
  }

  /** The text matched is itself a well-formed start of a number. */
  lemma MatchIsToken(s: string, i: nat)
    requires i <= |s| && MatchLength(s, i) > 0
    ensures StartsToken(s[i..i + MatchLength(s, i)], 0)
  {
  }

  /** `\d+`: a non-empty run of ASCII digits. */
  predicate IsDigits(u: string)
  {
    |u| > 0 && AllDigits(u)
  }

  /** `u` splits at the point `e` into `\d+` `.` `\d+`. */
  predicate SplitsAtPoint(u: string, e: int)
  {
    0 < e < |u| - 1 && u[e] == '.' && IsDigits(u[..e]) && IsDigits(u[e + 1..])
  }

  /** `\d+(\.\d+)?` as a whole. */
  predicate IsUnsignedLiteral(u: string)
  {
    IsDigits(u) || exists e :: 0 < e < |u| - 1 && SplitsAtPoint(u, e)
  }

  /**
   * The whole of `t` is a literal of `[+-]?\d+(\.\d+)?`: an optional sign,
   * digits, and optionally a point followed by digits.
   */
  predicate IsLiteral(t: string)
  {
    IsUnsignedLiteral(if |t| > 0 && IsSign(t[0]) then t[1..] else t)
  }

  lemma DigitsShift(s: string, a: nat, c: nat)
    requires a < c <= |s| && AllDigits(s[a..c])
    ensures IsDigit(s[a]) && AllDigits(s[a + 1..c])
  {
    assert s[a] == s[a..c][0];
    var u := s[a + 1..c];
    forall k | 0 <= k < |u| ensures IsDigit(u[k]) {
      assert u[k] == s[a..c][k + 1];
    }
  }

  /** A run of digits up to `c` makes the greedy run reach at least `c`. */
  lemma {:induction false} DigitsReach(s: string, a: nat, c: nat)
    requires a <= c <= |s| && AllDigits(s[a..c])
    ensures a + DigitRun(s, a) >= c
    decreases c - a
  {
    if a < c {
      DigitsShift(s, a, c);
      DigitsReach(s, a + 1, c);
    }
  }

  /** Digits up to `c` followed by a non-digit: the greedy run stops exactly at `c`. */
  lemma DigitRunStops(s: string, a: nat, c: nat)
    requires a <= c < |s| && AllDigits(s[a..c]) && !IsDigit(s[c])
    ensures a + DigitRun(s, a) == c
  {
    DigitsReach(s, a, c);
    DigitRunIsMaximal(s, a);
    InRunIsDigit(s, a, DigitRun(s, a), c);
  }

  lemma InRunIsDigit(s: string, a: nat, n: nat, c: nat)
    requires a <= c && a + n <= |s| && AllDigits(s[a..a + n])
    ensures c < a + n ==> IsDigit(s[c])
  {
    if c < a + n {
      assert s[c] == s[a..a + n][c - a];
    }
  }

  /** Where the digits of a match begin: after its sign, if it has one. */
  function MatchStart(s: string, i: nat): nat
    requires i <= |s|
  {
    if i + 1 < |s| && IsSign(s[i]) && IsDigit(s[i + 1]) then i + 1 else i
  }

  /** The body of a literal at `i` (what follows the sign) is the text from `MatchStart`. */
  lemma LiteralBody(s: string, i: nat, m: nat)
    requires 0 < m && i + m <= |s| && MatchLength(s, i) > 0
    ensures var t := s[i..i + m];
      (if |t| > 0 && IsSign(t[0]) then t[1..] else t) == s[MatchStart(s, i)..i + m]
  {
    var t := s[i..i + m];
    assert t[0] == s[i];
    if IsSign(s[i]) {
      assert !IsDigit(s[i]);
      assert MatchStart(s, i) == i + 1;
      assert t[1..] == s[i + 1..i + m];
    }
  }

  /** Where a match ends: after the digits, and after the fraction when a digit follows the point. */
  lemma MatchEnd(s: string, i: nat)
    requires i <= |s| && MatchLength(s, i) > 0
    ensures var e := MatchStart(s, i) + DigitRun(s, MatchStart(s, i));
      DigitRun(s, MatchStart(s, i)) > 0 &&
      i + MatchLength(s, i) ==
        if e + 1 < |s| && s[e] == '.' && IsDigit(s[e + 1]) then e + 1 + DigitRun(s, e + 1) else e
  {
  }

  /** Digits from `a` to `c` form an unsigned literal. */
  lemma DigitsAreLiteral(s: string, a: nat, c: nat)
    requires a < c <= |s| && AllDigits(s[a..c])
    ensures IsUnsignedLiteral(s[a..c])
  {
  }

  /** Digits, a point at `p` and more digits up to `c` form an unsigned literal. */
  lemma FractionIsLiteral(s: string, a: nat, p: nat, c: nat)
    requires a < p && p + 1 < c <= |s| && s[p] == '.'
    requires AllDigits(s[a..p]) && AllDigits(s[p + 1..c])
    ensures IsUnsignedLiteral(s[a..c])
  {
    var u := s[a..c];
    assert u[..p - a] == s[a..p];
    assert u[p - a + 1..] == s[p + 1..c];
    assert SplitsAtPoint(u, p - a);
  }

  /** The greedy digits from `start`, a point, and the greedy digits after it form an unsigned literal. */
  lemma RunsAreLiteral(s: string, start: nat, e: nat, c: nat)
    requires start <= e && e + 1 < |s| && s[e] == '.' && IsDigit(s[e + 1])
    requires e == start + DigitRun(s, start) && start < e
    requires c == e + 1 + DigitRun(s, e + 1)
    ensures IsUnsignedLiteral(s[start..c])
  {
    DigitRunIsMaximal(s, start);
    DigitRunIsMaximal(s, e + 1);
    FractionIsLiteral(s, start, e, c);
  }

  /** What follows the sign of a match is `\d+(\.\d+)?` as a whole. */
  lemma MatchBodyIsLiteral(s: string, i: nat)
    requires i <= |s| && MatchLength(s, i) > 0
    ensures IsUnsignedLiteral(s[MatchStart(s, i)..i + MatchLength(s, i)])
  {
    var start := MatchStart(s, i);
    var e := start + DigitRun(s, start);
    var c := i + MatchLength(s, i);
    MatchEnd(s, i);
    if e + 1 < |s| && s[e] == '.' && IsDigit(s[e + 1]) {
      RunsAreLiteral(s, start, e, c);
    } else {
      DigitRunIsMaximal(s, start);
      DigitsAreLiteral(s, start, c);
    }
  }

  /** Every match is a literal of the pattern as a whole. */
  lemma MatchIsLiteral(s: string, i: nat)
    requires i <= |s| && MatchLength(s, i) > 0
    ensures IsLiteral(s[i..i + MatchLength(s, i)])
  {
    var n := MatchLength(s, i);
    MatchBodyIsLiteral(s, i);
    LiteralBody(s, i, n);
  }

  /** An unsigned literal from `a` to `c` is all digits, or digits, a point at some `p`, and digits. */
  lemma UnsignedLiteralParts(s: string, a: nat, c: nat) returns (p: nat)
    requires a <= c <= |s| && IsUnsignedLiteral(s[a..c])
    ensures a < c
    ensures AllDigits(s[a..c]) ||
      (a < p && p + 1 < c && s[p] == '.' && AllDigits(s[a..p]) && AllDigits(s[p + 1..c]))
  {
    var u := s[a..c];
    p := a;
    if !IsDigits(u) {
      var e :| 0 < e < |u| - 1 && SplitsAtPoint(u, e);
      p := a + e;
      assert u[..e] == s[a..p];
      assert u[e + 1..] == s[p + 1..c];
    }
  }

  /** Digits all the way to `i + m` make the match reach at least that far. */
  lemma WholeBound(s: string, i: nat, m: nat)
    requires i <= |s| && MatchLength(s, i) > 0 && MatchStart(s, i) <= i + m <= |s|
    requires AllDigits(s[MatchStart(s, i)..i + m])
    ensures MatchLength(s, i) >= m
  {
    MatchEnd(s, i);
    DigitsReach(s, MatchStart(s, i), i + m);
  }

  /** Digits, a point at `p` and digits to `i + m` make the match reach at least that far. */
  lemma FractionBound(s: string, i: nat, m: nat, p: nat)
    requires i <= |s| && MatchLength(s, i) > 0 && MatchStart(s, i) <= p && p + 1 < i + m <= |s|
    requires AllDigits(s[MatchStart(s, i)..p]) && s[p] == '.'
    requires AllDigits(s[p + 1..i + m])
    ensures MatchLength(s, i) >= m
  {
    MatchEnd(s, i);
    DigitRunStops(s, MatchStart(s, i), p);
    DigitsShift(s, p + 1, i + m);
    DigitsReach(s, p + 1, i + m);
  }

  /** Matches are greedy: no longer text from the same start is a literal. */
  lemma MatchIsGreedy(s: string, i: nat, m: nat)
    requires i <= |s| && 0 < MatchLength(s, i) < m && i + m <= |s|
    ensures !IsLiteral(s[i..i + m])
  {
    var start := MatchStart(s, i);
    LiteralBody(s, i, m);
    if IsUnsignedLiteral(s[start..i + m]) {
      var p := UnsignedLiteralParts(s, start, i + m);
      if AllDigits(s[start..i + m]) {
        WholeBound(s, i, m);
      } else {
        FractionBound(s, i, m, p);
      }
    }
  }

  /** All matches from index `i` on: leftmost first, then resuming after each match. */
  function Tokens(s: string, i: nat): seq<string>
    requires i <= |s|
    decreases |s| - i
  {
    if i == |s| then []
    else
      var n := MatchLength(s, i);
      if n > 0 then [s[i..i + n]] + Tokens(s, i + n) else Tokens(s, i + 1)
  }

  /** Unfolds `Tokens` where a match begins. */
  lemma TokensMatchAt(s: string, i: nat)
    requires i < |s| && MatchLength(s, i) > 0
    ensures Tokens(s, i) == [s[i..i + MatchLength(s, i)]] + Tokens(s, i + MatchLength(s, i))
  {
  }

  /** Unfolds `Tokens` where no match begins. */
  lemma TokensNoMatchAt(s: string, i: nat)
    requires i < |s| && !StartsToken(s, i)
    ensures Tokens(s, i) == Tokens(s, i + 1)
  {
    MatchLengthStarts(s, i);
  }

  predicate AllStartToken(tokens: seq<string>)
  {
    forall k :: 0 <= k < |tokens| ==> StartsToken(tokens[k], 0)
  }

  lemma AllStartTokenCons(t: string, rest: seq<string>)
    requires StartsToken(t, 0) && AllStartToken(rest)
    ensures AllStartToken([t] + rest)
  {
    var tokens := [t] + rest;
    forall k | 0 <= k < |tokens| ensures StartsToken(tokens[k], 0) {
      if k > 0 { assert tokens[k] == rest[k - 1]; }
    }
  }

  /** Every match starts with a digit or with a sign and a digit. */
  lemma {:induction false} TokensStartWellFormed(s: string, i: nat)
    requires i <= |s|
    ensures AllStartToken(Tokens(s, i))
    decreases |s| - i
  {
    if i < |s| {
      var n := MatchLength(s, i);
      if n > 0 {
        TokensStartWellFormed(s, i + n);
        TokensMatchAt(s, i);
        MatchIsToken(s, i);
        AllStartTokenCons(s[i..i + n], Tokens(s, i + n));
      } else {
        TokensStartWellFormed(s, i + 1);
        TokensNoMatchAt(s, i);
      }
    }
  }

  predicate AllLiterals(tokens: seq<string>)
  {
    forall k :: 0 <= k < |tokens| ==> IsLiteral(tokens[k])
  }

  lemma AllLiteralsCons(t: string, rest: seq<string>)
    requires IsLiteral(t) && AllLiterals(rest)
    ensures AllLiterals([t] + rest)
  {
    var tokens := [t] + rest;
    forall k | 0 <= k < |tokens| ensures IsLiteral(tokens[k]) {
      if k > 0 { assert tokens[k] == rest[k - 1]; }
    }
  }

  /** Every token of the global match is a whole literal of the pattern. */
  lemma {:induction false} TokensAreLiterals(s: string, i: nat)
    requires i <= |s|
    ensures AllLiterals(Tokens(s, i))
    decreases |s| - i
  {
    if i < |s| {
      var n := MatchLength(s, i);
      if n > 0 {
        TokensAreLiterals(s, i + n);
        LiteralsMatchStep(s, i, n);
      } else {
        TokensAreLiterals(s, i + 1);
        LiteralsSkipStep(s, i);
      }
    }
  }

  lemma LiteralsMatchStep(s: string, i: nat, n: nat)
    requires i < |s| && n == MatchLength(s, i) && n > 0
    requires AllLiterals(Tokens(s, i + n))
    ensures AllLiterals(Tokens(s, i))
  {
    TokensMatchAt(s, i);
    MatchIsLiteral(s, i);
    AllLiteralsCons(s[i..i + n], Tokens(s, i + n));
  }

  lemma LiteralsSkipStep(s: string, i: nat)
    requires i < |s| && MatchLength(s, i) == 0
    requires AllLiterals(Tokens(s, i + 1))
    ensures AllLiterals(Tokens(s, i))
  {
    MatchLengthStarts(s, i);
    TokensNoMatchAt(s, i);
  }


  /** The number of ASCII digits in `u`. */
  function DigitCount(u: string): nat
  {
    if |u| == 0 then 0 else (if IsDigit(u[0]) then 1 else 0) + DigitCount(u[1..])
  }

  lemma {:induction false} DigitCountAppend(x: string, y: string)
    ensures DigitCount(x + y) == DigitCount(x) + DigitCount(y)
    decreases |x|
  {
    if |x| > 0 {
      assert (x + y)[0] == x[0];
      assert (x + y)[1..] == x[1..] + y;
      DigitCountAppend(x[1..], y);
    } else {
      assert x + y == y;
    }
  }

  /** The tokens written one after another. */
  function Flatten(tokens: seq<string>): string
  {
    if |tokens| == 0 then "" else tokens[0] + Flatten(tokens[1..])
  }

  lemma FlattenConsCount(t: string, rest: seq<string>)
    ensures DigitCount(Flatten([t] + rest)) == DigitCount(t) + DigitCount(Flatten(rest))
  {
    assert ([t] + rest)[1..] == rest;
    DigitCountAppend(t, Flatten(rest));
  }

  lemma DigitCountSplit(s: string, i: nat, j: nat)
    requires i <= j <= |s|
    ensures DigitCount(s[i..]) == DigitCount(s[i..j]) + DigitCount(s[j..])
  {
    assert s[i..] == s[i..j] + s[j..];
    DigitCountAppend(s[i..j], s[j..]);
  }

  lemma DigitCountSkip(s: string, i: nat)
    requires i < |s| && !IsDigit(s[i])
    ensures DigitCount(s[i..]) == DigitCount(s[i + 1..])
  {
    assert s[i..][0] == s[i] && s[i..][1..] == s[i + 1..];
  }

  /**
   * Every digit from `i` on lies in exactly one token: a scan that dropped a
   * match would lose digits, and one that let matches overlap would count
   * some twice.
   */
  lemma {:induction false} TokensCoverDigits(s: string, i: nat)
    requires i <= |s|
    ensures DigitCount(Flatten(Tokens(s, i))) == DigitCount(s[i..])
    decreases |s| - i
  {
    if i < |s| {
      var n := MatchLength(s, i);
      if n > 0 {
        TokensCoverDigits(s, i + n);
        CoverMatchStep(s, i, n);
      } else {
        TokensCoverDigits(s, i + 1);
        CoverSkipStep(s, i);
      }
    }
  }

  lemma CoverMatchStep(s: string, i: nat, n: nat)
    requires i < |s| && n == MatchLength(s, i) && n > 0
    requires DigitCount(Flatten(Tokens(s, i + n))) == DigitCount(s[i + n..])
    ensures DigitCount(Flatten(Tokens(s, i))) == DigitCount(s[i..])
  {
    TokensMatchAt(s, i);
    FlattenConsCount(s[i..i + n], Tokens(s, i + n));
    DigitCountSplit(s, i, i + n);
  }

  lemma CoverSkipStep(s: string, i: nat)
    requires i < |s| && MatchLength(s, i) == 0
    requires DigitCount(Flatten(Tokens(s, i + 1))) == DigitCount(s[i + 1..])
    ensures DigitCount(Flatten(Tokens(s, i))) == DigitCount(s[i..])
  {
    MatchLengthStarts(s, i);
    TokensNoMatchAt(s, i);
    DigitCountSkip(s, i);
  }


  /** The regex matches somewhere from `i` on exactly when a digit occurs there. */
  lemma {:induction false} TokensIffDigit(s: string, i: nat)
    requires i <= |s|
    ensures |Tokens(s, i)| > 0 <==> exists k :: i <= k < |s| && IsDigit(s[k])
    decreases |s| - i
  {
    if i < |s| {
      var n := MatchLength(s, i);
      MatchLengthStarts(s, i);
      if n > 0 {
        if !IsDigit(s[i]) { assert IsDigit(s[i + 1]); }
      } else {
        TokensIffDigit(s, i + 1);
        if exists k :: i <= k < |s| && IsDigit(s[k]) {
          var k :| i <= k < |s| && IsDigit(s[k]);
          assert k != i;
        }
      }
    }
  }

  // ---------------------------------------------------------------------
  // Converting and reducing
  // ---------------------------------------------------------------------

  function Pow10(n: nat): (p: nat)
    ensures p >= 1
  {
    if n == 0 then 1 else 10 * Pow10(n - 1)
  }

  /** The value of a decimal digit string. */
  function DigitsValue(ds: string): nat
    requires AllDigits(ds)
  {
    if |ds| == 0 then 0
    else 10 * DigitsValue(ds[..|ds| - 1]) + ((ds[|ds| - 1] as int) - ('0' as int))
  }

  /**
   * `parseFloat` on text that starts with `[+-]?\d+`: the value of the longest
   * prefix of the form `[+-]?\d+(\.\d+)?`. `None` stands for NaN, which is what
   * `parseFloat` gives for text that does not start with a number.
   */
  function ParseFloat(t: string): (r: Option<real>)
    ensures r.Some? <==> StartsToken(t, 0)
  {
    var b := if |t| > 0 && IsSign(t[0]) then 1 else 0;
    var whole := DigitRun(t, b);
    if whole == 0 then None
    else
      var e := b + whole;
      var fracLen := if e + 1 < |t| && t[e] == '.' then DigitRun(t, e + 1) else 0;
      var fraction := if fracLen > 0
        then DigitRunIsMaximal(t, e + 1); (DigitsValue(t[e + 1..e + 1 + fracLen]) as real) / (Pow10(fracLen) as real)
        else 0.0;
      DigitRunIsMaximal(t, b);
      var magnitude := (DigitsValue(t[b..e]) as real) + fraction;
      Some(if b == 1 && t[0] == '-' then -magnitude else magnitude)
  }

  lemma QuotientNonNegative(x: real, y: real)
    requires x >= 0.0 && y > 0.0
    ensures x / y >= 0.0
  {
    assert (x / y) * y == x;
  }

  /** The value's sign is the literal's: negative only with a leading `-`. */
  lemma ParseFloatSign(t: string)
    requires ParseFloat(t).Some?
    ensures t[0] == '-' ==> ParseFloat(t).value <= 0.0
    ensures t[0] != '-' ==> ParseFloat(t).value >= 0.0
  {
    var b := if IsSign(t[0]) then 1 else 0;
    var e := b + DigitRun(t, b);
    var fracLen := if e + 1 < |t| && t[e] == '.' then DigitRun(t, e + 1) else 0;
    if fracLen > 0 {
      DigitRunIsMaximal(t, e + 1);
      QuotientNonNegative(DigitsValue(t[e + 1..e + 1 + fracLen]) as real, Pow10(fracLen) as real);
    }
  }

  /** JavaScript `a > b` on numbers, where NaN compares false with everything. */
  predicate Greater(a: Option<real>, b: Option<real>)
  {
    a.Some? && b.Some? && a.value > b.value
  }

  /**
   * The running maximum from `acc`: a value replaces the accumulator only when
   * it compares greater, so a value that is not a number never replaces it.
   */
  function ReduceMax(values: seq<Option<real>>, acc: Option<real>): (r: Option<real>)
    ensures acc.Some? ==> r.Some? && r.value >= acc.value
  {
    if |values| == 0 then acc
    else ReduceMax(values[1..], if Greater(values[0], acc) then values[0] else acc)
  }

  /**
   * Reducing from a number never gives NaN, and gives the largest of the
   * starting value and the numeric values: at least each of them and equal to one.
   */
  lemma {:induction false} ReduceMaxIsMaximum(values: seq<Option<real>>, acc: Option<real>)
    requires acc.Some?
    ensures ReduceMax(values, acc).Some?
    ensures ReduceMax(values, acc).value >= acc.value
    ensures forall k :: 0 <= k < |values| && values[k].Some? ==> values[k].value <= ReduceMax(values, acc).value
    ensures ReduceMax(values, acc) == acc || exists k :: 0 <= k < |values| && values[k] == ReduceMax(values, acc)
  {
    if |values| > 0 {
      var next := if Greater(values[0], acc) then values[0] else acc;
      ReduceMaxIsMaximum(values[1..], next);
      var r := ReduceMax(values, acc);
      assert r == ReduceMax(values[1..], next);
      forall k | 0 <= k < |values| && values[k].Some? ensures values[k].value <= r.value {
        if k > 0 { assert values[k] == values[1..][k - 1]; }
      }
      if r != acc && r != next {
        var k :| 0 <= k < |values[1..]| && values[1..][k] == r;
        assert values[k + 1] == r;
      }
    }
  }

  function TokenValues(tokens: seq<string>): (vs: seq<Option<real>>)
    ensures |vs| == |tokens|
  {
    seq(|tokens|, k requires 0 <= k < |tokens| => ParseFloat(tokens[k]))
  }

  /**
   * The weight a line reports, or `None` when the line raises no callback:
   * no match at all, or (never, as it turns out) a NaN result.
   */
  function ParseScaleString(line: string): (r: Option<real>)
    ensures r.Some? <==> |Tokens(line, 0)| > 0
    ensures r.Some? ==> r.value >= 0.0
  {
    var matched := Tokens(line, 0);
    if |matched| == 0 then None
    else
      var weight := ReduceMax(TokenValues(matched), Some(0.0));
      if weight.None? then None else weight
  }

  /** A well-formed match always converts to a number. */
  lemma TokenParses(t: string)
    requires StartsToken(t, 0)
    ensures ParseFloat(t).Some?
  {
    var b := if |t| > 0 && IsSign(t[0]) then 1 else 0;
    assert DigitRun(t, b) > 0;
  }

  /**
   * The extraction rule: a line raises a callback exactly when it holds a
   * digit; every match converts to a number; and the value reported is the
   * maximum of 0 and the values of the matches.
   */
  lemma ParseScaleStringSpec(line: string)
    ensures ParseScaleString(line).Some? <==> HasDigit(line)
    ensures forall k :: 0 <= k < |Tokens(line, 0)| ==> ParseFloat(Tokens(line, 0)[k]).Some?
    ensures ParseScaleString(line).Some? ==>
      var w := ParseScaleString(line).value;
      var tokens := Tokens(line, 0);
      w >= 0.0 &&
      (forall k :: 0 <= k < |tokens| ==> ParseFloat(tokens[k]).value <= w) &&
      (w == 0.0 || exists k :: 0 <= k < |tokens| && ParseFloat(tokens[k]) == Some(w))
  {
    var tokens := Tokens(line, 0);
    TokensIffDigit(line, 0);
    TokensStartWellFormed(line, 0);
    assert AllStartToken(tokens);
    forall k | 0 <= k < |tokens| ensures ParseFloat(tokens[k]).Some? {
      TokenParses(tokens[k]);
    }
    if |tokens| > 0 {
      var values := TokenValues(tokens);
      ReduceMaxIsMaximum(values, Some(0.0));
      var w := ReduceMax(values, Some(0.0));
      assert ParseScaleString(line) == w;
      forall k | 0 <= k < |tokens| ensures ParseFloat(tokens[k]).value <= w.value {
        assert values[k] == ParseFloat(tokens[k]);
      }
      if w != Some(0.0) {
        var k :| 0 <= k < |values| && values[k] == w;
        assert ParseFloat(tokens[k]) == w;
      }
    }
  }

  /** Positions where no match can begin contribute no token. */
  lemma {:induction false} TokensSkip(s: string, i: nat, j: nat)
    requires i <= j <= |s|
    requires forall k :: i <= k < j ==> !StartsToken(s, k)
    ensures Tokens(s, i) == Tokens(s, j)
    decreases j - i
  {
    if i < j {
      TokensNoMatchAt(s, i);
      TokensSkip(s, i + 1, j);
    }
  }

  /** The sample line of a scale that prints a status code, a sign and padding before the weight. */
  const SampleLine: string := "ST,GS,+  20340 kg"

  lemma SampleLineSkipsHeader()
    ensures Tokens(SampleLine, 0) == Tokens(SampleLine, 9)
  {
    forall k | 0 <= k < 9 ensures !StartsToken(SampleLine, k) {
      assert k == 0 || k == 1 || k == 2 || k == 3 || k == 4 || k == 5 || k == 6 || k == 7 || k == 8;
    }
    TokensSkip(SampleLine, 0, 9);
  }

  lemma SampleLineWeightMatch()
    ensures MatchLength(SampleLine, 9) == 5
  {
    var s := SampleLine;
    assert DigitRun(s, 14) == 0;
    assert DigitRun(s, 13) == 1 + DigitRun(s, 14);
    assert DigitRun(s, 12) == 1 + DigitRun(s, 13);
    assert DigitRun(s, 11) == 1 + DigitRun(s, 12);
    assert DigitRun(s, 10) == 1 + DigitRun(s, 11);
    assert DigitRun(s, 9) == 1 + DigitRun(s, 10);
  }

  lemma SampleLineSkipsUnit()
    ensures Tokens(SampleLine, 14) == []
  {
    forall k | 14 <= k < 17 ensures !StartsToken(SampleLine, k) {
      assert k == 14 || k == 15 || k == 16;
    }
    TokensSkip(SampleLine, 14, 17);
  }

  lemma SampleLineTokens()
    ensures Tokens(SampleLine, 0) == ["20340"]
  {
    assert SampleLine[9..14] == "20340";
    SampleLineSkipsHeader();
    SampleLineWeightMatch();
    SampleLineSkipsUnit();
  }

  lemma SampleTokenValue()
    ensures ParseFloat("20340") == Some(20340.0)
  {
    var t := "20340";
    assert DigitRun(t, 0) == 5 by {
      assert DigitRun(t, 4) == 1 + DigitRun(t, 5);
      assert DigitRun(t, 3) == 1 + DigitRun(t, 4);
      assert DigitRun(t, 2) == 1 + DigitRun(t, 3);
      assert DigitRun(t, 1) == 1 + DigitRun(t, 2);
    }
    assert t[0..5] == t;
    assert DigitsValue(t) == 20340 by {
      assert "2"[..0] == "" && DigitsValue("2") == 2;
      assert "20"[..1] == "2" && DigitsValue("20") == 20;
      assert "203"[..2] == "20" && DigitsValue("203") == 203;
      assert "2034"[..3] == "203" && DigitsValue("2034") == 2034;
      assert t[..4] == "2034";
    }
  }

  /** The sample line of a typical scale: the `+` not followed by a digit is skipped. */
  lemma ParseSampleLine()
    ensures ParseScaleString(SampleLine) == Some(20340.0)
  {
    SampleLineTokens();
    SampleTokenValue();
    var values := TokenValues(Tokens(SampleLine, 0));
    assert values == [Some(20340.0)];
    assert ReduceMax(values, Some(0.0)) == ReduceMax([], Some(20340.0));
  }

  lemma NegativeLineTokens()
    ensures Tokens("-150 kg", 0) == ["-150"]
  {
    var s := "-150 kg";
    assert MatchLength(s, 0) == 4 by {
      assert DigitRun(s, 4) == 0;
      assert DigitRun(s, 3) == 1 + DigitRun(s, 4);
      assert DigitRun(s, 2) == 1 + DigitRun(s, 3);
      assert DigitRun(s, 1) == 1 + DigitRun(s, 2);
    }
    assert Tokens(s, 4) == [] by {
      forall k | 4 <= k < 7 ensures !StartsToken(s, k) {
        assert k == 4 || k == 5 || k == 6;
      }
      TokensSkip(s, 4, 7);
    }
    assert s[0..4] == "-150";
  }

  lemma NegativeTokenValue()
    ensures ParseFloat("-150") == Some(-150.0)
  {
    var t := "-150";
    assert DigitRun(t, 1) == 3 by {
      assert DigitRun(t, 3) == 1 + DigitRun(t, 4);
      assert DigitRun(t, 2) == 1 + DigitRun(t, 3);
    }
    assert t[1..4] == "150";
    assert DigitsValue("150") == 150 by {
      assert "150"[..2] == "15" && "15"[..1] == "1" && "1"[..0] == "";
    }
  }

  /** Only negative matches: the reduction starts at 0, so 0 is reported. */
  lemma ParseNegativeLine()
    ensures ParseScaleString("-150 kg") == Some(0.0)
  {
    NegativeLineTokens();
    NegativeTokenValue();
    assert TokenValues(["-150"]) == [Some(-150.0)];
  }

  /** A decimal reading: the fraction is the digits after the point over a power of ten. */
  lemma FractionTokenValue()
    ensures ParseFloat("12.5") == Some(12.5)
  {
    var t := "12.5";
    assert DigitRun(t, 0) == 2 by {
      assert DigitRun(t, 2) == 0;
      assert DigitRun(t, 1) == 1 + DigitRun(t, 2);
    }
    assert DigitRun(t, 3) == 1 by {
      assert DigitRun(t, 4) == 0;
    }
    assert t[0..2] == "12" && t[3..4] == "5";
    assert DigitsValue("12") == 12 by {
      assert "12"[..1] == "1" && "1"[..0] == "";
    }
    assert DigitsValue("5") == 5 by {
      assert "5"[..0] == "";
    }
  }

  /** A second point starts no fraction: `1.2.3` is the match `1.2` followed by the match `3`. */
  lemma SecondPointSplits()
    ensures Tokens("1.2.3", 0) == ["1.2", "3"]
  {
    var s := "1.2.3";
    assert MatchLength(s, 0) == 3 by {
      assert DigitRun(s, 1) == 0;
      assert DigitRun(s, 0) == 1;
      assert DigitRun(s, 3) == 0;
      assert DigitRun(s, 2) == 1;
    }
    assert MatchLength(s, 3) == 0;
    assert MatchLength(s, 4) == 1 by {
      assert DigitRun(s, 5) == 0;
      assert DigitRun(s, 4) == 1;
    }
    TokensMatchAt(s, 0);
    TokensNoMatchAt(s, 3);
    TokensMatchAt(s, 4);
    assert s[0..3] == "1.2" && s[4..5] == "3";
  }
}
