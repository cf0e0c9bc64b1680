/**
 * The string functions the control program applies to an input line:
 * strings.TrimRight with a cutset, strings.Split on a one-character
 * separator, and strings.Join as Split's inverse; decimal digit strings.
 */
module Text {

  /** strings.TrimRight(s, cutset): drop trailing characters that are in the cutset. */
  function TrimRight(s: string, cutset: set<char>): (r: string)
    ensures |r| <= |s| && r == s[..|r|]
    ensures forall i :: |r| <= i < |s| ==> s[i] in cutset
    ensures |r| == 0 || r[|r| - 1] !in cutset
    decreases |s|
  {
    if |s| > 0 && s[|s| - 1] in cutset then TrimRight(s[..|s| - 1], cutset) else s
  }

  /** Only trailing characters go: everything up to the last character outside the cutset stays. */
  lemma TrimRightKeepsLeading(s: string, cutset: set<char>, j: int)
    requires 0 <= j < |s| && s[j] !in cutset
    ensures |TrimRight(s, cutset)| > j
    ensures TrimRight(s, cutset)[..j + 1] == s[..j + 1]
  {
  }

  /** Trimming a trimmed string changes nothing. */
  lemma TrimRightIdempotent(s: string, cutset: set<char>)
    ensures TrimRight(TrimRight(s, cutset), cutset) == TrimRight(s, cutset)
  {
  }

  /**
   * strings.Split(s, [sep]): the pieces between separators, in order; n
   * separators give n + 1 pieces, and the empty string gives one empty piece.
   */
  function Split(s: string, sep: char): (parts: seq<string>)
    ensures |parts| >= 1
    ensures forall i :: 0 <= i < |parts| ==> sep !in parts[i]
    decreases |s|
  {
    if |s| == 0 then [""]
    else
      var rest := Split(s[1..], sep);
      if s[0] == sep then [""] + rest
      else [[s[0]] + rest[0]] + rest[1..]
  }

  /** strings.Join(parts, [sep]). */
  function Join(parts: seq<string>, sep: char): string
    decreases |parts|
  {
    if |parts| == 0 then ""
    else if |parts| == 1 then parts[0]
    else parts[0] + [sep] + Join(parts[1..], sep)
  }

  /** Four pieces joined. */
  lemma JoinFour(w: string, x: string, y: string, z: string, sep: char)
    ensures Join([w, x, y, z], sep) == w + [sep] + x + [sep] + y + [sep] + z
  {
    assert [y, z][1..] == [z];
    assert Join([y, z], sep) == y + [sep] + z;
    assert [x, y, z][1..] == [y, z];
    assert Join([x, y, z], sep) == x + [sep] + (y + [sep] + z);
    assert [w, x, y, z][1..] == [x, y, z];
    assert Join([w, x, y, z], sep) == w + [sep] + (x + [sep] + (y + [sep] + z));
  }

  /** Joining the pieces with the separator gives back the string. */
  lemma {:induction false} JoinSplit(s: string, sep: char)
    ensures Join(Split(s, sep), sep) == s
    decreases |s|
  {
    if |s| > 0 {
      var rest := Split(s[1..], sep);
      JoinSplit(s[1..], sep);
      if s[0] == sep {
        assert Split(s, sep) == [""] + rest;
        assert ([""] + rest)[1..] == rest;
        assert s == [sep] + s[1..];
      } else {
        var parts := [[s[0]] + rest[0]] + rest[1..];
        if |rest| == 1 {
          assert s == [s[0]] + s[1..];
        } else {
          assert parts[1..] == rest[1..];
          assert Join(rest, sep) == rest[0] + [sep] + Join(rest[1..], sep);
          assert s == [s[0]] + s[1..];
        }
      }
    }
  }

  /** A string without the separator is one piece. */
  lemma {:induction false} SplitWithoutSeparator(w: string, sep: char)
    requires sep !in w
    ensures Split(w, sep) == [w]
    decreases |w|
  {
    if |w| > 0 {
      assert sep !in w[1..] by {
        forall i | 0 <= i < |w[1..]| ensures w[1..][i] != sep { assert w[1..][i] == w[i + 1]; }
      }
      SplitWithoutSeparator(w[1..], sep);
      assert [w[0]] + w[1..] == w;
    }
  }

  /** A piece followed by the separator splits off as the first piece. */
  lemma {:induction false} SplitAfterPiece(w: string, sep: char, rest: string)
    requires sep !in w
    ensures Split(w + [sep] + rest, sep) == [w] + Split(rest, sep)
    decreases |w|
  {
    if |w| == 0 {
      assert w + [sep] + rest == [sep] + rest;
      assert ([sep] + rest)[1..] == rest;
    } else {
      var s := w + [sep] + rest;
      assert s[0] == w[0];
      assert s[1..] == w[1..] + [sep] + rest;
      assert sep !in w[1..] by {
        forall i | 0 <= i < |w[1..]| ensures w[1..][i] != sep { assert w[1..][i] == w[i + 1]; }
      }
      SplitAfterPiece(w[1..], sep, rest);
      assert [w[0]] + w[1..] == w;
    }
  }

  /** Splitting joined pieces that hold no separator gives back the pieces. */
  lemma {:induction false} SplitJoin(parts: seq<string>, sep: char)
    requires |parts| >= 1
    requires forall i :: 0 <= i < |parts| ==> sep !in parts[i]
    ensures Split(Join(parts, sep), sep) == parts
    decreases |parts|
  {
    if |parts| == 1 {
      SplitWithoutSeparator(parts[0], sep);
    } else {
      SplitJoin(parts[1..], sep);
      SplitAfterPiece(parts[0], sep, Join(parts[1..], sep));
      assert [parts[0]] + parts[1..] == parts;
    }
  }

  // ---------------------------------------------------------------------
  // Decimal numbers
  // ---------------------------------------------------------------------

  predicate IsDigit(c: char)
  {
    '0' <= c <= '9'
  }

  predicate AllDigits(s: string)
  {
    forall i :: 0 <= i < |s| ==> IsDigit(s[i])
  }

  /** The value of a string of decimal digits, most significant first. */
  function DecimalValue(s: string): nat
    requires AllDigits(s)
    decreases |s|
  {
    if |s| == 0 then 0
    else DecimalValue(s[..|s| - 1]) * 10 + ((s[|s| - 1] as int) - ('0' as int))
  }

  /** The shortest decimal spelling of n. */
  function DecimalString(n: nat): (s: string)
    decreases n
  {
    if n < 10 then [(('0' as int) + n) as char]
    else DecimalString(n / 10) + [(('0' as int) + n % 10) as char]
  }

  /** DecimalString spells n in digits without a leading zero, and DecimalValue reads it back. */
  lemma {:induction false} DecimalRoundTrip(n: nat)
    ensures AllDigits(DecimalString(n)) && |DecimalString(n)| >= 1
    ensures |DecimalString(n)| > 1 ==> DecimalString(n)[0] != '0'
    ensures DecimalValue(DecimalString(n)) == n
    decreases n
  {
    if n >= 10 {
      DecimalRoundTrip(n / 10);
      var s := DecimalString(n);
      assert s[..|s| - 1] == DecimalString(n / 10);
    }
  }

  /** Numbers below 10, 100 and 1000 take at most one, two and three digits. */
  lemma {:induction false} DecimalStringLength(n: nat)
    ensures n < 10 ==> |DecimalString(n)| == 1
    ensures n < 100 ==> |DecimalString(n)| <= 2
    ensures n < 1000 ==> |DecimalString(n)| <= 3
    decreases n
  {
    if n >= 10 {
      DecimalStringLength(n / 10);
    }
  }
}
