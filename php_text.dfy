/**
 * The PHP string built-ins the importer leans on: trim(), explode(), PHP's
 * truthiness of strings, is_numeric() on integer literals and the
 * FILTER_VALIDATE_INT filter that Laravel's `integer` rule applies.
 * A PHP string is modelled as a sequence of Unicode code points, so `|s|`
 * is what mb_strlen() returns.
 */
module PhpText {
  import opened Wrappers

  /** The characters trim() strips by default: " \t\n\r\0\x0B". */
  const TrimChars: set<char> := {' ', '\t', '\n', '\r', '\0', '\U{0B}'}

  /** The white space is_numeric() tolerates around a number: " \t\n\r\v\f". */
  const NumericSpace: set<char> := {' ', '\t', '\n', '\r', '\U{0B}', '\U{0C}'}

  /** The white space FILTER_VALIDATE_INT trims: " \t\r\v\n". */
  const FilterSpace: set<char> := {' ', '\t', '\r', '\U{0B}', '\n'}

  /** PHP_INT_MAX on a 64-bit build. */
  const IntMax: int := 0x7fff_ffff_ffff_ffff

  /** Strips the characters of `cs` from the front of `s`. */
  function TrimLeft(s: string, cs: set<char>): (r: string)
    ensures |r| <= |s| && r == s[|s| - |r|..]
    ensures r == [] || r[0] !in cs
    decreases |s|
  {
    if |s| > 0 && s[0] in cs then TrimLeft(s[1..], cs) else s
  }

  /** Strips the characters of `cs` from the back of `s`. */
  function TrimRight(s: string, cs: set<char>): (r: string)
    ensures |r| <= |s| && r == s[..|r|]
    ensures r == [] || r[|r| - 1] !in cs
    decreases |s|
  {
    if |s| > 0 && s[|s| - 1] in cs then TrimRight(s[..|s| - 1], cs) else s
  }

  /** The front strip cuts only characters of `cs`. */
  lemma {:induction false} TrimLeftCut(s: string, cs: set<char>)
    ensures forall k :: 0 <= k < |s| - |TrimLeft(s, cs)| ==> s[k] in cs
    decreases |s|
  {
    if |s| > 0 && s[0] in cs {
      TrimLeftCut(s[1..], cs);
      assert forall k :: 1 <= k < |s| ==> s[k] == s[1..][k - 1];
    }
  }

  /** The back strip cuts only characters of `cs`. */
  lemma {:induction false} TrimRightCut(s: string, cs: set<char>)
    ensures forall k :: |TrimRight(s, cs)| <= k < |s| ==> s[k] in cs
    decreases |s|
  {
    if |s| > 0 && s[|s| - 1] in cs {
      TrimRightCut(s[..|s| - 1], cs);
      assert forall k :: 0 <= k < |s| - 1 ==> s[k] == s[..|s| - 1][k];
    }
  }

  /** The front strip empties `s` exactly when every character is stripped. */
  lemma {:induction false} TrimLeftEmpty(s: string, cs: set<char>)
    ensures TrimLeft(s, cs) == [] <==> forall k :: 0 <= k < |s| ==> s[k] in cs
    decreases |s|
  {
    if |s| > 0 && s[0] in cs {
      TrimLeftEmpty(s[1..], cs);
      assert forall k :: 1 <= k < |s| ==> s[k] == s[1..][k - 1];
    }
  }

  /** The back strip empties `s` exactly when every character is stripped. */
  lemma {:induction false} TrimRightEmpty(s: string, cs: set<char>)
    ensures TrimRight(s, cs) == [] <==> forall k :: 0 <= k < |s| ==> s[k] in cs
    decreases |s|
  {
    if |s| > 0 && s[|s| - 1] in cs {
      TrimRightEmpty(s[..|s| - 1], cs);
      assert forall k :: 0 <= k < |s| - 1 ==> s[k] == s[..|s| - 1][k];
    }
  }

  /** Strips the characters of `cs` from both ends of `s`. */
  function TrimWith(s: string, cs: set<char>): (r: string)
    ensures r == [] || (r[0] !in cs && r[|r| - 1] !in cs)
  {
    TrimRight(TrimLeft(s, cs), cs)
  }

  /** Trimming leaves nothing exactly when every character is one of `cs`. */
  lemma TrimWithEmpty(s: string, cs: set<char>)
    ensures TrimWith(s, cs) == [] <==> forall k :: 0 <= k < |s| ==> s[k] in cs
  {
    var l := TrimLeft(s, cs);
    TrimLeftEmpty(s, cs);
    TrimRightEmpty(l, cs);
    if l != [] {
      assert l[0] !in cs;
      assert l[0] == s[|s| - |l|];
    }
  }

  /** Trimming keeps only characters of the original string. */
  /** Trimming adds no character: one that `s` lacks, the result lacks. */
  lemma TrimWithout(s: string, c: char)
    requires c !in s
    ensures c !in Trim(s)
  {
    TrimWithWithin(s, TrimChars);
  }

  lemma TrimWithWithin(s: string, cs: set<char>)
    ensures forall c :: c in TrimWith(s, cs) ==> c in s
  {
    var l := TrimLeft(s, cs);
    var r := TrimRight(l, cs);
    assert r <= l;
    assert forall c :: c in r ==> c in l;
    assert l == s[|s| - |l|..];
  }

  /**
   * `r` is `s` with a prefix of length `i` and some suffix cut off, both
   * made only of characters of `cs`.
   */
  predicate CutAt(s: string, r: string, i: int, cs: set<char>)
  {
    && 0 <= i <= |s| - |r|
    && r == s[i..i + |r|]
    && (forall k :: 0 <= k < i ==> s[k] in cs)
    && (forall k :: i + |r| <= k < |s| ==> s[k] in cs)
  }

  /** Trimming cuts a prefix and a suffix made only of characters of `cs`. */
  lemma TrimWithCut(s: string, cs: set<char>)
    ensures CutAt(s, TrimWith(s, cs), |s| - |TrimLeft(s, cs)|, cs)
  {
    var l := TrimLeft(s, cs);
    var r := TrimRight(l, cs);
    var i := |s| - |l|;
    assert r == TrimWith(s, cs);
    assert r == s[i..i + |r|] by {
      assert l == s[i..] && r == l[..|r|];
    }
    assert forall k :: 0 <= k < i ==> s[k] in cs by {
      TrimLeftCut(s, cs);
    }
    assert forall k :: i + |r| <= k < |s| ==> s[k] in cs by {
      TrimRightCut(l, cs);
      forall k | i + |r| <= k < |s| ensures s[k] in cs {
        assert s[k] == l[k - i];
      }
    }
    assert CutAt(s, r, i, cs);
  }

  /**
   * PHP's trim() with its default character list: what is left has no
   * strippable character at either end.
   */
  function Trim(s: string): (r: string)
    ensures r == [] || (r[0] !in TrimChars && r[|r| - 1] !in TrimChars)
  {
    TrimWith(s, TrimChars)
  }

  /**
   * trim() cuts from either end of `s` only characters of its strip list:
   * at the front exactly what the front strip removes.
   */
  lemma TrimCut(s: string)
    ensures CutAt(s, Trim(s), |s| - |TrimLeft(s, TrimChars)|, TrimChars)
  {
    assert Trim(s) == TrimWith(s, TrimChars);
    TrimWithCut(s, TrimChars);
  }

  /** The inverse of explode(): the pieces glued back together with `sep`. */
  function Implode(sep: char, parts: seq<string>): string
    requires |parts| >= 1
    decreases |parts|
  {
    if |parts| == 1 then parts[0]
    else Implode(sep, parts[..|parts| - 1]) + [sep] + parts[|parts| - 1]
  }

  /**
   * PHP's explode(): the maximal pieces of `s` between occurrences of `sep`.
   * The empty string explodes into one empty piece.
   */
  function Explode(sep: char, s: string): (r: seq<string>)
    ensures |r| >= 1
    ensures forall k :: 0 <= k < |r| ==> sep !in r[k]
    ensures Implode(sep, r) == s
    decreases |s|
  {
    if |s| == 0 then [""]
    else
      var p := Explode(sep, s[..|s| - 1]);
      var c := s[|s| - 1];
      assert s == s[..|s| - 1] + [c];
      if c == sep then
        assert (p + [""])[..|p|] == p;
        p + [""]
      else
        var q := p[..|p| - 1] + [p[|p| - 1] + [c]];
        assert q[..|q| - 1] == p[..|p| - 1];
        q
  }

  /** PHP's truthiness of a string: only "" and "0" are false, so "00", " 0" and "0.0" are true. */
  function Falsy(s: string): (r: bool)
    ensures r <==> |s| <= 1 && (|s| == 1 ==> s[0] == '0')
  {
    s == "" || s == "0"
  }

  predicate IsDigit(c: char)
  {
    '0' <= c <= '9'
  }

  /** A non-empty run of decimal digits. */
  predicate IsDigits(s: string)
  {
    |s| > 0 && forall k :: 0 <= k < |s| ==> IsDigit(s[k])
  }

  function DigitsValue(s: string): nat
    requires forall k :: 0 <= k < |s| ==> IsDigit(s[k])
    decreases |s|
  {
    if |s| == 0 then 0
    else
      var d := s[|s| - 1];
      assert IsDigit(d);
      DigitsValue(s[..|s| - 1]) * 10 + (d as int - '0' as int)
  }

  /** The decimal spelling of `n`, without sign or leading zeros. */
  function DecimalText(n: nat): (r: string)
    ensures IsDigits(r)
    ensures r[0] != '0' || n == 0
    decreases n
  {
    var d := ['0' + (n % 10) as char];
    if n < 10 then d else DecimalText(n / 10) + d
  }

  /** The canonical decimal spelling of `n`, as PHP prints an integer: a minus sign only for negatives, no leading zeros. */
  function IntText(n: int): (r: string)
    ensures |r| > 0 && (r[0] == '-' <==> n < 0)
  {
    if n < 0 then "-" + DecimalText(-n) else DecimalText(n)
  }

  /**
   * is_numeric() restricted to integer literals: optional surrounding
   * white space, an optional sign and a run of digits, leading zeros
   * allowed. The value is the number such a string stands for.
   */
  function NumericId(t: string): (r: Option<int>)
    ensures r.Some? ==> exists k :: 0 <= k < |t| && IsDigit(t[k])
  {
    var u := TrimWith(t, NumericSpace);
    TrimWithWithin(t, NumericSpace);
    if IsDigits(u) then
      assert u[0] in t;
      Some(DigitsValue(u))
    else if |u| >= 2 && u[0] == '+' && IsDigits(u[1..]) then
      assert u[1..][0] in t;
      Some(DigitsValue(u[1..]))
    else if |u| >= 2 && u[0] == '-' && IsDigits(u[1..]) then
      assert u[1..][0] in t;
      Some(-(DigitsValue(u[1..]) as int))
    else None
  }

  /**
   * A string array key PHP stores as an integer: the canonical spelling of
   * a 64-bit integer. "7" and "-3" become integer keys; "007", "+7", " 7"
   * and "-0" stay strings.
   */
  predicate IntegerKey(s: string)
  {
    NumericId(s).Some? && -IntMax - 1 <= NumericId(s).value <= IntMax && IntText(NumericId(s).value) == s
  }

  /**
   * filter_var($v, FILTER_VALIDATE_INT): surrounding white space, an
   * optional sign, digits without a leading zero, and a value that fits
   * a 64-bit integer.
   */
  function FilterInt(v: string): (r: Option<int>)
    ensures r.Some? ==> -IntMax - 1 <= r.value <= IntMax
  {
    var u := TrimWith(v, FilterSpace);
    var signed := |u| > 0 && (u[0] == '+' || u[0] == '-');
    var digits := if signed then u[1..] else u;
    if !IsDigits(digits) || (|digits| > 1 && digits[0] == '0') then None
    else
      var n := if signed && u[0] == '-' then -(DigitsValue(digits) as int) else DigitsValue(digits);
      if -IntMax - 1 <= n <= IntMax then Some(n) else None
  }

  /** FILTER_VALIDATE_INT accepts only strings that hold a digit. */
  lemma FilterIntNeedsDigit(v: string)
    requires FilterInt(v).Some?
    ensures exists k :: 0 <= k < |v| && IsDigit(v[k])
  {
    TrimWithWithin(v, FilterSpace);
    var u := TrimWith(v, FilterSpace);
    var signed := |u| > 0 && (u[0] == '+' || u[0] == '-');
    var digits := if signed then u[1..] else u;
    assert digits[0] in u;
  }

  /** The decimal spelling of a number reads back as that number. */
  lemma {:induction false} DecimalTextValue(n: nat)
    ensures DigitsValue(DecimalText(n)) == n
    decreases n
  {
    if n >= 10 {
      DecimalTextValue(n / 10);
      var t := DecimalText(n);
      assert t[..|t| - 1] == DecimalText(n / 10);
    }
  }

  /** A string whose ends are not stripped comes out of the trim whole. */
  lemma TrimWithKeeps(s: string, cs: set<char>)
    requires |s| > 0 && s[0] !in cs && s[|s| - 1] !in cs
    ensures TrimWith(s, cs) == s
  {
    assert TrimLeft(s, cs) == s;
  }

  lemma DigitIsNotSpace(c: char)
    requires IsDigit(c)
    ensures c !in NumericSpace
  {
  }

  /** The canonical spelling of a 64-bit integer is numeric, stands for that integer and is an integer array key. */
  lemma IntTextIsIntegerKey(n: int)
    requires -IntMax - 1 <= n <= IntMax
    ensures NumericId(IntText(n)) == Some(n)
    ensures IntegerKey(IntText(n))
  {
    var m := if n < 0 then -n else n;
    var d := DecimalText(m);
    var t := IntText(n);
    DigitIsNotSpace(d[|d| - 1]);
    assert t[|t| - 1] == d[|d| - 1];
    if n >= 0 {
      DigitIsNotSpace(d[0]);
    }
    TrimWithKeeps(t, NumericSpace);
    DecimalTextValue(m);
    if n < 0 {
      assert t[1..] == d;
      assert !IsDigit(t[0]);
    }
  }

  /** A leading zero does not change the value of a run of digits. */
  lemma {:induction false} LeadingZero(d: string)
    requires forall k :: 0 <= k < |d| ==> IsDigit(d[k])
    ensures DigitsValue("0" + d) == DigitsValue(d)
    decreases |d|
  {
    if |d| > 0 {
      var n := |d| - 1;
      assert ("0" + d)[..|d|] == "0" + d[..n];
      LeadingZero(d[..n]);
    }
  }

  /**
   * A natural number written with a leading zero ("007") is numeric and
   * stands for the same number, but it is not the canonical spelling, so
   * it stays a string array key.
   */
  lemma PaddedId(n: nat)
    requires n <= IntMax
    ensures NumericId("0" + IntText(n)) == Some(n)
    ensures !IntegerKey("0" + IntText(n))
  {
    var d := DecimalText(n);
    var t := "0" + d;
    assert t[|t| - 1] == d[|d| - 1];
    DigitIsNotSpace(d[|d| - 1]);
    TrimWithKeeps(t, NumericSpace);
    assert IsDigits(t);
    LeadingZero(d);
    DecimalTextValue(n);
    assert |IntText(n)| < |t|;
  }

  /** Digits that do not start with a zero stand for at least 1. */
  lemma {:induction false} DigitsPositive(d: string)
    requires IsDigits(d) && d[0] != '0'
    ensures DigitsValue(d) >= 1
    decreases |d|
  {
    if |d| > 1 {
      var p := d[..|d| - 1];
      assert p[0] == d[0];
      DigitsPositive(p);
    }
  }

  /** Digits without a leading zero are the decimal spelling of their value. */
  lemma {:induction false} DigitsAreDecimalText(d: string)
    requires IsDigits(d) && (|d| == 1 || d[0] != '0')
    ensures DecimalText(DigitsValue(d)) == d
    decreases |d|
  {
    var n := |d| - 1;
    var p := d[..n];
    if n > 0 {
      assert p[0] == d[0];
      DigitsPositive(p);
      DigitsAreDecimalText(p);
      assert d == p + [d[n]];
    }
  }

  /** FILTER_VALIDATE_INT accepts the canonical spelling of every 64-bit integer, as that integer. */
  lemma FilterIntAcceptsIntText(n: int)
    requires -IntMax - 1 <= n <= IntMax
    ensures FilterInt(IntText(n)) == Some(n)
  {
    var m := if n < 0 then -n else n;
    var d := DecimalText(m);
    var t := IntText(n);
    assert t[|t| - 1] == d[|d| - 1];
    assert !IsDigit(t[0]) ==> t[0] == '-';
    TrimWithKeeps(t, FilterSpace);
    DecimalTextValue(m);
    if n < 0 {
      assert t[1..] == d;
    }
  }

  /**
   * What FILTER_VALIDATE_INT accepts, once trimmed, is the canonical
   * spelling of its value, that spelling behind a '+', or "-0".
   */
  lemma FilterIntSpelling(v: string)
    requires FilterInt(v).Some?
    ensures var u := TrimWith(v, FilterSpace); var n := FilterInt(v).value;
      u == IntText(n) || (n >= 0 && u == "+" + IntText(n)) || (n == 0 && u == "-0")
  {
    var u := TrimWith(v, FilterSpace);
    var signed := |u| > 0 && (u[0] == '+' || u[0] == '-');
    var digits := if signed then u[1..] else u;
    SignedSpelling(u, signed, digits);
  }

  /** The sign and digits FILTER_VALIDATE_INT accepts spell their value canonically, up to a sign. */
  lemma SignedSpelling(u: string, signed: bool, digits: string)
    requires signed <==> |u| > 0 && (u[0] == '+' || u[0] == '-')
    requires digits == if signed then u[1..] else u
    requires IsDigits(digits) && (|digits| == 1 || digits[0] != '0')
    ensures var n := if signed && u[0] == '-' then -(DigitsValue(digits) as int) else DigitsValue(digits);
      u == IntText(n) || (n >= 0 && u == "+" + IntText(n)) || (n == 0 && u == "-0")
  {
    DigitsAreDecimalText(digits);
    if signed {
      assert u == [u[0]] + digits;
      if u[0] == '-' {
        NegativeSpelling(digits);
      }
    }
  }

  /** A minus sign before canonical digits spells their negation, or is "-0". */
  lemma NegativeSpelling(digits: string)
    requires IsDigits(digits) && DecimalText(DigitsValue(digits)) == digits
    ensures var n := -(DigitsValue(digits) as int);
      "-" + digits == IntText(n) || (n == 0 && "-" + digits == "-0")
  {
    var m := DigitsValue(digits);
    if m == 0 {
      assert digits == "0";
    } else {
      assert IntText(-(m as int)) == "-" + DecimalText(m);
    }
  }

  /**
   * The spellings is_numeric() accepts as integers: once the surrounding
   * white space is trimmed, digits, or a sign followed by digits, leading
   * zeros allowed; the value is that of the digits, negated after a '-'.
   */
  lemma NumericIdSpelling(t: string)
    ensures var u := TrimWith(t, NumericSpace);
      NumericId(t).Some? <==> IsDigits(u) || (|u| >= 2 && (u[0] == '+' || u[0] == '-') && IsDigits(u[1..]))
    ensures var u := TrimWith(t, NumericSpace);
      IsDigits(u) ==> NumericId(t) == Some(DigitsValue(u))
    ensures var u := TrimWith(t, NumericSpace);
      |u| >= 2 && u[0] == '+' && IsDigits(u[1..]) ==> NumericId(t) == Some(DigitsValue(u[1..]))
    ensures var u := TrimWith(t, NumericSpace);
      |u| >= 2 && u[0] == '-' && IsDigits(u[1..]) ==> NumericId(t) == Some(-(DigitsValue(u[1..]) as int))
  {
  }
}
