/**
 * The few JavaScript string built-ins the page-range parser relies on:
 * `String.prototype.split` with a one-character separator, `trim`,
 * `parseInt` without a radix, and the decimal rendering of a number used
 * in template strings; and `undefined`, with the list of the values of a
 * list of results that are not `undefined`.
 */
module JsText {

  /** A value that may be `undefined`. */
  datatype Option<T> = None | Some(value: T)

  /** The present values of a list of optional values, in order. */
  function Somes<T>(opts: seq<Option<T>>): (vs: seq<T>)
    ensures |vs| <= |opts|
  {
    if |opts| == 0 then []
    else Somes(opts[..|opts| - 1]) + match opts[|opts| - 1] case Some(v) => [v] case None => []
  }

  /** The position of the option a kept value comes from. */
  lemma {:induction false} SomesSource<T>(opts: seq<Option<T>>, j: nat) returns (k: nat)
    requires j < |Somes(opts)|
    ensures k < |opts| && opts[k] == Some(Somes(opts)[j])
  {
    var init := opts[..|opts| - 1];
    var last := opts[|opts| - 1];
    var vs := Somes(opts);
    assert vs == Somes(init) + if last.Some? then [last.value] else [];
    if j < |Somes(init)| {
      k := SomesSource(init, j);
      assert vs[j] == Somes(init)[j];
      assert opts[k] == init[k];
    } else {
      k := |opts| - 1;
    }
  }

  lemma {:induction false} SomesAppend<T>(xs: seq<Option<T>>, ys: seq<Option<T>>)
    ensures Somes(xs + ys) == Somes(xs) + Somes(ys)
  {
    if |ys| == 0 {
      assert xs + ys == xs;
    } else {
      assert (xs + ys)[..|xs + ys| - 1] == xs + ys[..|ys| - 1];
      SomesAppend(xs, ys[..|ys| - 1]);
    }
  }

  /** Keeping the present values of a list extended by one is keeping those of the list, then that one if present. */
  lemma SomesSnoc<T>(opts: seq<Option<T>>, o: Option<T>)
    ensures Somes(opts + [o]) == Somes(opts) + if o.Some? then [o.value] else []
  {
    assert (opts + [o])[..|opts|] == opts;
  }

  /** One more step of keeping the present values. */
  lemma SomesStep<T>(opts: seq<Option<T>>, i: nat, acc: seq<T>)
    requires i < |opts| && acc == Somes(opts[..i])
    ensures Somes(opts[..i + 1]) == acc + if opts[i].Some? then [opts[i].value] else []
  {
    assert opts[..i + 1][..i] == opts[..i];
  }

  /** Taking the whole of a list. */
  lemma TakeAll<T>(s: seq<T>)
    ensures s[..|s|] == s
  {
  }

  /** What `parseInt` can return here: NaN, or a (mathematical) integer. */
  datatype Parsed = NaN | Num(value: int)

  /** JavaScript truthiness of a parsed number: NaN and 0 are falsy. */
  predicate Truthy(p: Parsed) {
    p.Num? && p.value != 0
  }

  /** The WhiteSpace and LineTerminator code points that `trim` and `parseInt` skip. */
  predicate IsWhitespace(c: char) {
    c == '\t' || c == '\n' || c == '\U{000B}' || c == '\U{000C}' || c == '\r' ||
    c == ' ' || c == '\U{00A0}' || c == '\U{1680}' ||
    ('\U{2000}' <= c <= '\U{200A}') ||
    c == '\U{2028}' || c == '\U{2029}' || c == '\U{202F}' || c == '\U{205F}' ||
    c == '\U{3000}' || c == '\U{FEFF}'
  }

  /** Text made only of whitespace. */
  predicate Blank(t: string) {
    forall k :: 0 <= k < |t| ==> IsWhitespace(t[k])
  }

  /** `s` without its leading whitespace. */
  function TrimStart(s: string): (r: string)
    ensures |r| <= |s| && r == s[|s| - |r|..]
    ensures Blank(s[..|s| - |r|])
    ensures r == [] || !IsWhitespace(r[0])
  {
    if |s| > 0 && IsWhitespace(s[0]) then TrimStart(s[1..]) else s
  }

  /** `s` without its trailing whitespace. */
  function TrimEnd(s: string): (r: string)
    ensures |r| <= |s| && r == s[..|r|]
    ensures Blank(s[|r|..])
    ensures r == [] || !IsWhitespace(r[|r| - 1])
  {
    if |s| > 0 && IsWhitespace(s[|s| - 1]) then
      var r := TrimEnd(s[..|s| - 1]);
      assert s[|r|..] == s[..|s| - 1][|r|..] + [s[|s| - 1]];
      r
    else s
  }

  /**
   * `String.prototype.trim`: the text between the leading and the trailing
   * whitespace, which neither starts nor ends with whitespace.
   */
  function Trim(s: string): (r: string)
    ensures r == [] || (!IsWhitespace(r[0]) && !IsWhitespace(r[|r| - 1]))
    ensures exists a :: 0 <= a <= |s| - |r| && s[a..a + |r|] == r && Blank(s[..a]) && Blank(s[a + |r|..])
  {
    var t := TrimStart(s);
    var r := TrimEnd(t);
    var a := |s| - |t|;
    assert s[a..a + |r|] == r;
    assert s[a + |r|..] == t[|r|..];
    r
  }

  /** `s.split(sep)` for a one-character separator: the pieces between separators, "" giving [""]. */
  function SplitOn(s: string, sep: char): (pieces: seq<string>)
    ensures |pieces| >= 1
    ensures forall k :: 0 <= k < |pieces| ==> sep !in pieces[k]
  {
    if |s| == 0 then [""]
    else
      var rest := SplitOn(s[1..], sep);
      if s[0] == sep then [""] + rest else [[s[0]] + rest[0]] + rest[1..]
  }

  /** `pieces.join(sep)`, the inverse of SplitOn. */
  function JoinWith(pieces: seq<string>, sep: char): string
    requires |pieces| >= 1
  {
    if |pieces| == 1 then pieces[0] else pieces[0] + [sep] + JoinWith(pieces[1..], sep)
  }

  /** Splitting and joining back gives the original text. */
  lemma {:induction false} JoinSplit(s: string, sep: char)
    ensures JoinWith(SplitOn(s, sep), sep) == s
  {
    if |s| > 0 {
      var rest := SplitOn(s[1..], sep);
      JoinSplit(s[1..], sep);
      if s[0] == sep {
        assert SplitOn(s, sep)[1..] == rest;
      } else {
        var pieces := SplitOn(s, sep);
        if |rest| == 1 {
          assert pieces == [[s[0]] + rest[0]];
        } else {
          assert pieces[1..] == rest[1..];
          assert JoinWith(rest, sep) == rest[0] + [sep] + JoinWith(rest[1..], sep);
          assert JoinWith(pieces, sep) == [s[0]] + rest[0] + [sep] + JoinWith(rest[1..], sep);
        }
        assert [s[0]] + s[1..] == s;
      }
    }
  }

  /** A separator in the text yields at least two pieces. */
  lemma {:induction false} SplitOnSeparatorPresent(s: string, sep: char)
    requires sep in s
    ensures |SplitOn(s, sep)| >= 2
  {
    if s[0] != sep {
      SplitOnSeparatorPresent(s[1..], sep);
    }
  }

  /** Text up to the first separator is the first piece; the rest is split on its own. */
  lemma {:induction false} SplitOnFirst(a: string, sep: char, b: string)
    requires sep !in a
    ensures SplitOn(a + [sep] + b, sep) == [a] + SplitOn(b, sep)
  {
    if |a| > 0 {
      assert (a + [sep] + b)[1..] == a[1..] + [sep] + b;
      SplitOnFirst(a[1..], sep, b);
      assert [a[0]] + a[1..] == a;
    } else {
      assert (a + [sep] + b)[1..] == b;
    }
  }

  /** The value of a digit character in base 36 ('0'..'9', 'a'..'z', 'A'..'Z'), or -1. */
  function DigitOf(c: char): int {
    if '0' <= c <= '9' then c as int - '0' as int
    else if 'a' <= c <= 'z' then c as int - 'a' as int + 10
    else if 'A' <= c <= 'Z' then c as int - 'A' as int + 10
    else -1
  }

  predicate IsDigit(c: char, radix: nat) {
    0 <= DigitOf(c) < radix
  }

  /** The longest prefix of `s` made of digits of the radix. */
  function DigitPrefix(s: string, radix: nat): (ds: string)
    ensures |ds| <= |s| && ds == s[..|ds|]
    ensures forall k :: 0 <= k < |ds| ==> IsDigit(ds[k], radix)
    ensures |ds| < |s| ==> !IsDigit(s[|ds|], radix)
  {
    if |s| == 0 || !IsDigit(s[0], radix) then [] else [s[0]] + DigitPrefix(s[1..], radix)
  }

  /** The number a string of digits denotes, most significant digit first. */
  function DigitsValue(ds: string, radix: nat): nat
    requires forall k :: 0 <= k < |ds| ==> IsDigit(ds[k], radix)
  {
    if |ds| == 0 then 0
    else
      var init := ds[..|ds| - 1];
      assert forall k :: 0 <= k < |init| ==> IsDigit(init[k], radix) by {
        forall k | 0 <= k < |init|
          ensures IsDigit(init[k], radix)
        {
          assert init[k] == ds[k];
        }
      }
      assert IsDigit(ds[|ds| - 1], radix);
      var d: nat := DigitOf(ds[|ds| - 1]);
      var high: nat := DigitsValue(init, radix);
      NatProduct(high, radix);
      high * radix + d
  }

  lemma NatProduct(a: nat, b: nat)
    ensures a * b >= 0
  {
  }

  /**
   * `parseInt(s)` with no radix: leading whitespace is skipped, an optional
   * sign is read, a "0x"/"0X" prefix selects base 16, the longest run of
   * digits that follows is read and anything after it is ignored; NaN when
   * there is no digit.
   */
  function ParseInt(s: string): Parsed
  {
    ParseSigned(TrimStart(s))
  }

  /**
   * The text after the sign starts a number `parseInt` reads: a decimal
   * digit, and a hexadecimal digit after a "0x"/"0X" prefix.
   */
  predicate StartsNumber(u: string) {
    |u| > 0 && IsDigit(u[0], 10) &&
    !(|u| >= 2 && u[0] == '0' && (u[1] == 'x' || u[1] == 'X') && (|u| == 2 || !IsDigit(u[2], 16)))
  }

  /**
   * `parseInt` gives a number exactly when the text after the leading
   * whitespace and an optional sign starts a number; the number is not
   * positive after a minus sign and not negative otherwise.
   */
  lemma ParseIntNumeric(s: string)
    ensures var t := TrimStart(s);
      var signed := |t| > 0 && (t[0] == '-' || t[0] == '+');
      ParseInt(s).Num? <==> StartsNumber(if signed then t[1..] else t)
    ensures var t := TrimStart(s);
      ParseInt(s).Num? ==> if |t| > 0 && t[0] == '-' then ParseInt(s).value <= 0 else ParseInt(s).value >= 0
  {
    var t := TrimStart(s);
    if |t| > 0 && (t[0] == '-' || t[0] == '+') {
      MagnitudeNumeric(t[1..]);
    } else {
      MagnitudeNumeric(t);
    }
  }

  lemma MagnitudeNumeric(u: string)
    ensures ParseMagnitude(u).Num? <==> StartsNumber(u)
    ensures ParseMagnitude(u).Num? ==> ParseMagnitude(u).value >= 0
  {
    if |u| >= 2 && u[0] == '0' && (u[1] == 'x' || u[1] == 'X') {
      LeadingNumberNumeric(u[2..], 16);
    } else {
      LeadingNumberNumeric(u, 10);
    }
  }

  lemma LeadingNumberNumeric(v: string, radix: nat)
    ensures LeadingNumber(v, radix).Num? <==> |v| > 0 && IsDigit(v[0], radix)
    ensures LeadingNumber(v, radix).Num? ==> LeadingNumber(v, radix).value >= 0
  {
  }

  function ParseSigned(t: string): Parsed {
    if |t| > 0 && t[0] == '-' then Negate(ParseMagnitude(t[1..]))
    else if |t| > 0 && t[0] == '+' then ParseMagnitude(t[1..])
    else ParseMagnitude(t)
  }

  function Negate(p: Parsed): Parsed {
    if p.NaN? then NaN else Num(-p.value)
  }

  function ParseMagnitude(u: string): Parsed {
    if |u| >= 2 && u[0] == '0' && (u[1] == 'x' || u[1] == 'X') then LeadingNumber(u[2..], 16)
    else LeadingNumber(u, 10)
  }

  /** The number the leading digits of `v` denote, or NaN when `v` does not start with a digit. */
  function LeadingNumber(v: string, radix: nat): Parsed {
    var digits := DigitPrefix(v, radix);
    if |digits| == 0 then NaN else Num(DigitsValue(digits, radix))
  }

  function DigitChar(d: nat): (c: char)
    requires d < 10
    ensures IsDigit(c, 10) && DigitOf(c) == d
  {
    ('0' as int + d) as char
  }

  /** The decimal rendering of a non-negative integer, as `${n}` produces it. */
  function Decimal(n: nat): (s: string)
    ensures |s| >= 1
    ensures forall k :: 0 <= k < |s| ==> IsDigit(s[k], 10)
  {
    if n < 10 then [DigitChar(n)] else Decimal(n / 10) + [DigitChar(n % 10)]
  }

  /** A decimal digit is neither whitespace nor a sign. */
  lemma DecimalDigitIsPlain(c: char)
    requires IsDigit(c, 10)
    ensures !IsWhitespace(c) && c != '-' && c != '+'
  {
    assert '0' <= c <= '9';
  }

  /** Reading the digits of Decimal(n) back gives n. */
  lemma {:induction false} DecimalValue(n: nat)
    ensures DigitsValue(Decimal(n), 10) == n
  {
    var s := Decimal(n);
    if n >= 10 {
      DecimalValue(n / 10);
      assert s[..|s| - 1] == Decimal(n / 10);
    } else {
      assert s[..0] == [];
    }
  }

  /** A string made only of digits is its own longest digit prefix, also when followed by a non-digit. */
  lemma {:induction false} DigitPrefixOfDigits(ds: string, rest: string, radix: nat)
    requires forall k :: 0 <= k < |ds| ==> IsDigit(ds[k], radix)
    requires rest == [] || !IsDigit(rest[0], radix)
    ensures DigitPrefix(ds + rest, radix) == ds
  {
    if |ds| > 0 {
      assert (ds + rest)[1..] == ds[1..] + rest;
      DigitPrefixOfDigits(ds[1..], rest, radix);
      assert [ds[0]] + ds[1..] == ds;
    } else {
      assert ds + rest == rest;
    }
  }

  /**
   * parseInt reads back what Decimal renders, and ignores whatever follows
   * the digits when it does not start with another digit (nor with the `x`
   * that would turn a leading "0" into a hexadecimal prefix).
   */
  lemma ParseIntDecimal(n: nat, rest: string)
    requires rest == [] || (!IsDigit(rest[0], 10) && rest[0] != 'x' && rest[0] != 'X')
    ensures ParseInt(Decimal(n) + rest) == Num(n)
  {
    var d := Decimal(n);
    var s := d + rest;
    assert s[0] == d[0];
    assert !(|s| >= 2 && s[0] == '0' && (s[1] == 'x' || s[1] == 'X')) by {
      if |s| >= 2 && s[0] == '0' && n >= 10 {
        LeadingDigit(n);
      }
    }
    DigitPrefixOfDigits(d, rest, 10);
    DecimalValue(n);
    ParseIntOfDecimalText(s);
  }

  /** On text that starts with a decimal digit and no "0x", parseInt reads its leading digits in base 10. */
  lemma ParseIntOfDecimalText(s: string)
    requires |s| > 0 && IsDigit(s[0], 10)
    requires !(|s| >= 2 && s[0] == '0' && (s[1] == 'x' || s[1] == 'X'))
    ensures ParseInt(s) == Num(DigitsValue(DigitPrefix(s, 10), 10))
  {
    DecimalDigitIsPlain(s[0]);
    assert TrimStart(s) == s;
    assert ParseSigned(s) == ParseMagnitude(s);
  }

  /** Decimal(n) has no leading zero unless n is a single digit. */
  lemma {:induction false} LeadingDigit(n: nat)
    requires n >= 10
    ensures DigitOf(Decimal(n)[0]) != 0
  {
    if n / 10 >= 10 {
      LeadingDigit(n / 10);
    }
  }
}
