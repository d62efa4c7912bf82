/** `format_delta` from influence_simulator/utils.py, taken from the point
    where the duration has already been rendered as a string (such as
    "0:00:01.234567"): the fractional seconds are cut to `digits` places. */
module Utils {
  import opened Strings

  /** Python's `s[:n]` for `n >= 0`. */
  function Take(s: string, n: nat): (t: string)
    ensures |t| <= n && |t| <= |s|
    ensures t <= s
    ensures |s| <= n ==> t == s
    ensures |s| > n ==> |t| == n
  {
    if |s| <= n then s else s[..n]
  }

  /** The rendered duration with its fractional part cut to `digits` places:
      unchanged for a negative `digits` or when there is no '.', the text before
      the first '.' for `digits == 0`, and otherwise the second '.'-separated
      piece shortened to at most `digits` characters. */
  function FormatDelta(delta: string, digits: int): (r: string)
    ensures '.' !in delta ==> r == delta
    ensures digits < 0 ==> r == delta
    ensures |r| <= |delta|
  {
    if '.' in delta then
      if digits == 0 then
        // `delta.split(".", 1)[0]` is the first piece of the full split
        Split(delta, '.')[0]
      else if digits > 0 then
        var parts := Split(delta, '.');
        TruncatedJoinShorter(parts, digits);
        Join(parts[1 := Take(parts[1], digits)], '.')
      else delta
    else delta
  }

  /** Shortening the second piece never lengthens the joined string. */
  lemma {:induction false} TruncatedJoinShorter(parts: seq<string>, digits: nat)
    requires |parts| >= 2
    ensures |Join(parts[1 := Take(parts[1], digits)], '.')| <= |Join(parts, '.')|
  {
    var cut := parts[1 := Take(parts[1], digits)];
    assert cut[1..] == [Take(parts[1], digits)] + parts[2..];
    assert parts[1..] == [parts[1]] + parts[2..];
    if |parts| == 2 {
    } else {
      assert cut[1..][1..] == parts[1..][1..];
    }
  }

  /** With `digits == 0` the result is the text before the first '.': a prefix
      of the input that the input follows with a '.', and that has no '.'. */
  lemma ZeroDigitsKeepsWholeSeconds(delta: string)
    requires '.' in delta
    ensures var r := FormatDelta(delta, 0);
      '.' !in r && |r| < |delta| && r == delta[..|r|] && delta[|r|] == '.'
  {
    SplitHead(delta, '.');
  }

  /** With `digits > 0` the text before the first '.' and that '.' are kept,
      and what follows up to the next '.' keeps its first `digits` characters
      (all of them when it is shorter);
      the rest of the input is kept as it was. */
  lemma {:induction false} PositiveDigitsTruncatesFraction(delta: string, digits: int)
    requires '.' in delta && digits > 0
    ensures var r := FormatDelta(delta, digits);
      var head := delta[..IndexOf(delta, '.')];
      var parts := Split(delta, '.');
      r == head + "." + Take(parts[1], digits) + (if |parts| == 2 then "" else "." + Join(parts[2..], '.'))
  {
    var parts := Split(delta, '.');
    SplitHead(delta, '.');
    assert FormatDelta(delta, digits) == Join(parts[1 := Take(parts[1], digits)], '.');
    JoinSecondReplaced(parts, Take(parts[1], digits));
  }

  /** Joining after replacing the second piece: the first piece, the
      separator, the new piece, then the remaining pieces with their
      separators. */
  lemma {:induction false} JoinSecondReplaced(parts: seq<string>, t: string)
    requires |parts| >= 2
    ensures Join(parts[1 := t], '.') ==
      parts[0] + "." + t + (if |parts| == 2 then "" else "." + Join(parts[2..], '.'))
  {
    var cut := parts[1 := t];
    assert cut[1..] == [t] + parts[2..];
    assert Join(cut, '.') == parts[0] + "." + Join(cut[1..], '.');
    if |parts| == 2 {
      assert Join(cut[1..], '.') == t;
    } else {
      assert cut[1..][1..] == parts[2..];
      assert Join(cut[1..], '.') == t + "." + Join(parts[2..], '.');
    }
  }

  /** For a rendering with a single '.' (which is what a duration looks like),
      the result is the input cut just after `digits` fractional characters:
      a prefix of the input. */
  lemma {:induction false} SingleDotIsPrefix(whole: string, fraction: string, digits: int)
    requires '.' !in whole && '.' !in fraction && digits > 0
    ensures var r := FormatDelta(whole + "." + fraction, digits);
      r == whole + "." + Take(fraction, digits) && r <= whole + "." + fraction
  {
    var delta := whole + "." + fraction;
    assert Join([whole, fraction], '.') == delta;
    SplitJoin([whole, fraction], '.');
    var t := Take(fraction, digits);
    assert Join([whole, fraction][1 := t], '.') == whole + "." + t;
    assert (whole + "." + fraction)[..|whole| + 1 + |t|] == whole + "." + t;
  }

  /** Formatting an already formatted string with the same `digits` changes
      nothing more. */
  lemma {:induction false} FormatDeltaIdempotent(delta: string, digits: int)
    ensures FormatDelta(FormatDelta(delta, digits), digits) == FormatDelta(delta, digits)
  {
    if '.' in delta && digits > 0 {
      var parts := Split(delta, '.');
      var cut := parts[1 := Take(parts[1], digits)];
      assert forall k :: 0 <= k < |cut| ==> '.' !in cut[k];
      SplitJoin(cut, '.');
      var r := Join(cut, '.');
      assert Split(r, '.') == cut;
      assert '.' in r;
      assert Take(cut[1], digits) == cut[1];
      assert cut[1 := Take(cut[1], digits)] == cut;
    }
  }
}
