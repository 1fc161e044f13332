/**
 * The string operations the service relies on: Kotlin's `split` on a single
 * delimiter, `joinToString`, `startsWith`, `List.find`, `Long.toString` and
 * `String.toLongOrNull`.
 */
module Text {
  import opened Wrappers

  /** Kotlin's 64-bit `Long`. */
  type Long = x: int | -0x8000_0000_0000_0000 <= x < 0x8000_0000_0000_0000

  /**
   * `s.split(d)`: the pieces between occurrences of `d`, in order. Empty
   * pieces are kept, also at either end, so there is always at least one.
   */
  function Split(s: string, d: char): (parts: seq<string>)
    ensures |parts| >= 1
    ensures forall i :: 0 <= i < |parts| ==> d !in parts[i]
  {
    if |s| == 0 then [""]
    else
      var rest := Split(s[1..], d);
      if s[0] == d then [""] + rest
      else [[s[0]] + rest[0]] + rest[1..]
  }

  /** `parts.joinToString(sep)`. */
  function JoinWith(parts: seq<string>, sep: string): string
  {
    if |parts| == 0 then ""
    else if |parts| == 1 then parts[0]
    else parts[0] + sep + JoinWith(parts[1..], sep)
  }

  /** Joining the pieces of a split with the same delimiter gives back the string. */
  lemma {:induction false} JoinSplit(s: string, d: char)
    ensures JoinWith(Split(s, d), [d]) == s
  {
    if |s| > 0 {
      var rest := Split(s[1..], d);
      JoinSplit(s[1..], d);
      if s[0] == d {
        assert ([""] + rest)[1..] == rest;
      } else if |rest| > 1 {
        assert JoinWith(rest, [d]) == rest[0] + [d] + JoinWith(rest[1..], [d]);
        assert ([[s[0]] + rest[0]] + rest[1..])[1..] == rest[1..];
      }
    }
  }

  /** A string free of the delimiter splits into itself alone. */
  lemma {:induction false} SplitWithoutDelimiter(a: string, d: char)
    requires d !in a
    ensures Split(a, d) == [a]
  {
    if |a| > 0 {
      SplitWithoutDelimiter(a[1..], d);
      assert [a[0]] + a[1..] == a;
    }
  }

  /** Splitting at the first delimiter: the part before it is the first piece. */
  lemma {:induction false} SplitAtFirst(a: string, b: string, d: char)
    requires d !in a
    ensures Split(a + [d] + b, d) == [a] + Split(b, d)
  {
    var s := a + [d] + b;
    if |a| == 0 {
      assert s[1..] == b;
    } else {
      assert s[1..] == a[1..] + [d] + b;
      SplitAtFirst(a[1..], b, d);
      assert [a[0]] + a[1..] == a;
    }
  }

  /** A string holding the delimiter splits into at least two pieces. */
  lemma {:induction false} SplitAtDelimiter(s: string, d: char, i: nat)
    requires i < |s| && s[i] == d
    ensures |Split(s, d)| >= 2
  {
    if i > 0 {
      SplitAtDelimiter(s[1..], d, i - 1);
    }
  }

  /** Splitting a join gives back the parts, provided no part holds the delimiter. */
  lemma {:induction false} SplitJoin(parts: seq<string>, d: char)
    requires |parts| >= 1
    requires forall i :: 0 <= i < |parts| ==> d !in parts[i]
    ensures Split(JoinWith(parts, [d]), d) == parts
  {
    if |parts| == 1 {
      SplitWithoutDelimiter(parts[0], d);
    } else {
      SplitJoin(parts[1..], d);
      SplitAtFirst(parts[0], JoinWith(parts[1..], [d]), d);
      assert [parts[0]] + parts[1..] == parts;
    }
  }

  predicate StartsWith(s: string, prefix: string)
  {
    |prefix| <= |s| && s[..|prefix|] == prefix
  }

  /** A string whose first character differs from the prefix's does not start with it. */
  lemma FirstCharRules(s: string, prefix: string)
    requires |s| > 0 && |prefix| > 0 && s[0] != prefix[0]
    ensures !StartsWith(s, prefix)
  {
    if |prefix| <= |s| {
      assert s[..|prefix|][0] == s[0];
    }
  }

  /** `parts.find { it.startsWith(prefix) }`: the first part with that prefix. */
  function FindPrefixed(parts: seq<string>, prefix: string): (r: Option<string>)
    ensures r.Some? ==> StartsWith(r.value, prefix) && r.value in parts
    ensures r.None? ==> forall i :: 0 <= i < |parts| ==> !StartsWith(parts[i], prefix)
    ensures r.Some? ==> exists i :: 0 <= i < |parts| && parts[i] == r.value &&
                                    forall j :: 0 <= j < i ==> !StartsWith(parts[j], prefix)
  {
    if |parts| == 0 then None
    else if StartsWith(parts[0], prefix) then Some(parts[0])
    else
      var r := FindPrefixed(parts[1..], prefix);
      assert r.Some? ==> exists i :: 0 <= i < |parts[1..]| && parts[1..][i] == r.value &&
                                     forall j :: 0 <= j < i ==> !StartsWith(parts[1..][j], prefix);
      assert r.Some? ==> exists i :: 1 <= i < |parts| && parts[i] == r.value &&
                                     forall j :: 1 <= j < i ==> !StartsWith(parts[j], prefix);
      r
  }

  // ---- decimal digits ----

  predicate IsDigit(c: char) { '0' <= c <= '9' }

  predicate AllDigits(s: string) { forall i :: 0 <= i < |s| ==> IsDigit(s[i]) }

  function DigitChar(n: nat): (c: char)
    requires n < 10
    ensures IsDigit(c)
  {
    "0123456789"[n]
  }

  /** The number a string of decimal digits denotes. */
  function DigitsValue(s: string): nat
    requires AllDigits(s)
  {
    if |s| == 0 then 0
    else 10 * DigitsValue(s[..|s| - 1]) + ((s[|s| - 1] as int) - ('0' as int))
  }

  /** `n.toString()` for a non-negative number: its shortest decimal digits. */
  function NatToString(n: nat): (s: string)
    ensures |s| >= 1
  {
    if n < 10 then [DigitChar(n)] else NatToString(n / 10) + [DigitChar(n % 10)]
  }

  lemma {:induction false} NatToStringDigits(n: nat)
    ensures AllDigits(NatToString(n))
  {
    if n >= 10 {
      NatToStringDigits(n / 10);
    }
  }

  /** `Long.toString()`: a `-` sign for negative numbers, then the decimal digits. */
  function FormatLong(n: int): (s: string)
    ensures |s| >= 1
  {
    if n < 0 then "-" + NatToString(-n) else NatToString(n)
  }

  /** The decimal form holds only digits and the sign. */
  lemma FormatLongChars(n: int)
    ensures forall i :: 0 <= i < |FormatLong(n)| ==> IsDigit(FormatLong(n)[i]) || FormatLong(n)[i] == '-'
  {
    if n < 0 {
      NatToStringDigits(-n);
    } else {
      NatToStringDigits(n);
    }
  }

  /**
   * `String.toLongOrNull()`: an optional `+` or `-` sign followed by at least
   * one decimal digit, whose value fits a `Long`; anything else is `None`.
   */
  function ParseLong(s: string): Option<Long>
  {
    if |s| == 0 then None
    else
      var digits := if s[0] == '-' || s[0] == '+' then s[1..] else s;
      if |digits| == 0 || !AllDigits(digits) then None
      else
        var magnitude: int := DigitsValue(digits);
        var v := if s[0] == '-' then -magnitude else magnitude;
        if -0x8000_0000_0000_0000 <= v < 0x8000_0000_0000_0000 then Some(v) else None
  }

  lemma {:induction false} NatToStringValue(n: nat)
    ensures AllDigits(NatToString(n)) && DigitsValue(NatToString(n)) == n
  {
    NatToStringDigits(n);
    if n >= 10 {
      var s := NatToString(n);
      assert s[..|s| - 1] == NatToString(n / 10);
      NatToStringValue(n / 10);
    }
  }

  /** Parsing the decimal form of a `Long` gives the number back. */
  lemma ParseFormatLong(n: Long)
    ensures ParseLong(FormatLong(n)) == Some(n)
  {
    if n < 0 {
      var m: nat := -(n as int);
      NatToStringValue(m);
      assert ("-" + NatToString(m))[1..] == NatToString(m);
    } else {
      NatToStringValue(n);
    }
  }

  /**
   * What `toLongOrNull` accepts: non-empty text whose part after an optional
   * leading sign is one or more decimal digits.
   */
  lemma ParseLongAccepts(s: string)
    ensures ParseLong(s).Some? ==>
              && |s| > 0
              && var digits := if s[0] == '-' || s[0] == '+' then s[1..] else s;
                 |digits| > 0 && AllDigits(digits)
  {
  }

  /**
   * And conversely: an optional sign followed by one or more decimal digits
   * parses to exactly its signed value whenever that value fits in a Long,
   * and to nothing when it overflows.
   */
  lemma ParseLongOfDigits(sign: string, digits: string)
    requires sign == "" || sign == "-" || sign == "+"
    requires |digits| > 0 && AllDigits(digits)
    ensures var magnitude: int := DigitsValue(digits);
            var v := if sign == "-" then -magnitude else magnitude;
            ParseLong(sign + digits) == if -0x8000_0000_0000_0000 <= v < 0x8000_0000_0000_0000 then Some(v) else None
  {
    var s := sign + digits;
    if sign == "" {
      assert s == digits;
      assert IsDigit(digits[0]);
    } else {
      assert s[0] == sign[0] && s[1..] == digits;
    }
  }

  /** What `toLongOrNull` refuses: text that is not a signed decimal number. */
  lemma ParseLongRejects()
    ensures ParseLong("") == None && ParseLong("-") == None && ParseLong("12a") == None
    ensures ParseLong("+7") == Some(7) && ParseLong("-0") == Some(0)
  {
    assert !IsDigit("12a"[2]);
    assert DigitsValue("7") == 7;
    assert DigitsValue("0") == 0;
  }
}
