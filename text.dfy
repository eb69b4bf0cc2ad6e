/**
 * The Python string builtins the poll plugin relies on: str.strip(),
 * str.split("|"), "sep".join(...), int(str), str(int) and the code-point
 * order that list.sort() uses on strings.
 */
module Text {
  import opened Wrappers

  /** Characters for which Python's str.isspace() holds; str.strip() removes them. */
  predicate IsSpace(c: char) {
    c == ' ' || ('\t' <= c <= '\r') || ('\U{1C}' <= c <= '\U{1F}')
    || c == '\U{85}' || c == '\U{A0}' || c == '\U{1680}' || ('\U{2000}' <= c <= '\U{200A}')
    || c == '\U{2028}' || c == '\U{2029}' || c == '\U{202F}' || c == '\U{205F}' || c == '\U{3000}'
  }

  /** The number of whitespace characters at the start of s. */
  function LeadingSpace(s: string): (n: nat)
    ensures n <= |s|
    ensures forall k :: 0 <= k < n ==> IsSpace(s[k])
    ensures n < |s| ==> !IsSpace(s[n])
  {
    if s != [] && IsSpace(s[0]) then 1 + LeadingSpace(s[1..]) else 0
  }

  /** The number of whitespace characters at the end of s. */
  function TrailingSpace(s: string): (n: nat)
    ensures n <= |s|
    ensures forall k :: |s| - n <= k < |s| ==> IsSpace(s[k])
    ensures n < |s| ==> !IsSpace(s[|s| - 1 - n])
  {
    if s != [] && IsSpace(s[|s| - 1]) then 1 + TrailingSpace(s[..|s| - 1]) else 0
  }

  /** str.strip(): s without its leading and trailing whitespace. */
  function Strip(s: string): (r: string)
    ensures LeadingSpace(s) + |r| <= |s|
    ensures r == s[LeadingSpace(s)..LeadingSpace(s) + |r|]
    ensures forall k :: LeadingSpace(s) + |r| <= k < |s| ==> IsSpace(s[k])
    ensures r != [] ==> !IsSpace(r[0]) && !IsSpace(r[|r| - 1])
  {
    var t := s[LeadingSpace(s)..];
    t[..|t| - TrailingSpace(t)]
  }

  lemma StripKeeps(s: string)
    requires s != [] ==> !IsSpace(s[0]) && !IsSpace(s[|s| - 1])
    ensures Strip(s) == s
  {
    if s != [] {
      assert LeadingSpace(s) == 0;
      assert TrailingSpace(s) == 0;
    }
  }

  lemma {:induction false} StripIdempotent(s: string)
    ensures Strip(Strip(s)) == Strip(s)
  {
    StripKeeps(Strip(s));
  }

  /** "sep".join(parts). */
  function Join(parts: seq<string>, sep: string): string
  {
    if |parts| == 0 then ""
    else if |parts| == 1 then parts[0]
    else parts[0] + sep + Join(parts[1..], sep)
  }

  /** Joining one more part appends the separator and the part. */
  lemma {:induction false} JoinSnoc(parts: seq<string>, x: string, sep: string)
    requires parts != []
    ensures Join(parts + [x], sep) == Join(parts, sep) + sep + x
    decreases |parts|
  {
    if |parts| > 1 {
      assert (parts + [x])[1..] == parts[1..] + [x];
      JoinSnoc(parts[1..], x, sep);
    }
  }

  /** The number of occurrences of c in s. */
  function Occurrences(s: string, c: char): nat
  {
    if s == [] then 0 else (if s[0] == c then 1 else 0) + Occurrences(s[1..], c)
  }

  /** s.split(sep) for a one-character separator: never empty, one more part than separators. */
  function Split(s: string, sep: char): (parts: seq<string>)
    ensures |parts| == Occurrences(s, sep) + 1
    ensures forall i :: 0 <= i < |parts| ==> sep !in parts[i]
    decreases |s|
  {
    if s == [] then [""]
    else
      var rest := Split(s[1..], sep);
      if s[0] == sep then [""] + rest
      else [[s[0]] + rest[0]] + rest[1..]
  }

  /** Joining the parts of a split with the separator gives back the input. */
  lemma {:induction false} JoinSplit(s: string, sep: char)
    ensures Join(Split(s, sep), [sep]) == s
    decreases |s|
  {
    if s != [] {
      var rest := Split(s[1..], sep);
      JoinSplit(s[1..], sep);
      if s[0] == sep {
        assert ([""] + rest)[1..] == rest;
      } else {
        var parts := [[s[0]] + rest[0]] + rest[1..];
        assert parts[1..] == rest[1..];
        if |rest| > 1 {
          assert Join(rest, [sep]) == rest[0] + [sep] + Join(rest[1..], [sep]);
        }
      }
    }
  }

  lemma {:induction false} SplitWithout(a: string, sep: char)
    requires sep !in a
    ensures Split(a, sep) == [a]
    decreases |a|
  {
    if a != [] {
      SplitWithout(a[1..], sep);
      assert [a[0]] + a[1..] == a;
    }
  }

  lemma {:induction false} SplitAt(a: string, b: string, sep: char)
    requires sep !in a
    ensures Split(a + [sep] + b, sep) == [a] + Split(b, sep)
    decreases |a|
  {
    if a == [] {
      assert a + [sep] + b == [sep] + b;
      assert ([sep] + b)[1..] == b;
    } else {
      assert (a + [sep] + b)[1..] == a[1..] + [sep] + b;
      SplitAt(a[1..], b, sep);
      assert [a[0]] + a[1..] == a;
    }
  }

  /** Splitting parts joined by a separator none of them contains gives back the parts. */
  lemma {:induction false} SplitJoin(parts: seq<string>, sep: char)
    requires |parts| >= 1
    requires forall i :: 0 <= i < |parts| ==> sep !in parts[i]
    ensures Split(Join(parts, [sep]), sep) == parts
    decreases |parts|
  {
    if |parts| == 1 {
      SplitWithout(parts[0], sep);
    } else {
      SplitJoin(parts[1..], sep);
      SplitAt(parts[0], Join(parts[1..], [sep]), sep);
      assert [parts[0]] + parts[1..] == parts;
    }
  }

  predicate IsDigit(c: char) { '0' <= c <= '9' }

  function DigitValue(c: char): nat
    requires IsDigit(c)
  {
    c as int - '0' as int
  }

  function DigitChar(d: nat): (c: char)
    requires d < 10
    ensures IsDigit(c) && DigitValue(c) == d
  {
    ('0' as int + d) as char
  }

  predicate DigitsOrUnderscores(s: string) {
    forall k :: 0 <= k < |s| ==> IsDigit(s[k]) || s[k] == '_'
  }

  predicate NoDoubleUnderscore(s: string) {
    |s| < 2 || (!(s[0] == '_' && s[1] == '_') && NoDoubleUnderscore(s[1..]))
  }

  /** The digit strings int() accepts: digits, with single underscores between two digits. */
  predicate IsNumeral(s: string) {
    |s| > 0 && IsDigit(s[0]) && IsDigit(s[|s| - 1]) && DigitsOrUnderscores(s) && NoDoubleUnderscore(s)
  }

  /** The decimal value of the digits of s, underscores skipped. */
  function NumeralValue(s: string): nat
    requires DigitsOrUnderscores(s)
  {
    if s == [] then 0
    else if s[|s| - 1] == '_' then NumeralValue(s[..|s| - 1])
    else 10 * NumeralValue(s[..|s| - 1]) + DigitValue(s[|s| - 1])
  }

  /** CPython's default limit on the digits int() reads (sys.get_int_max_str_digits(), Python 3.11 and later). */
  const MaxStrDigits: nat := 4300

  /** The number of decimal digits in s. */
  function DigitCount(s: string): (n: nat)
    ensures n <= |s|
  {
    if s == [] then 0 else DigitCount(s[..|s| - 1]) + (if IsDigit(s[|s| - 1]) then 1 else 0)
  }

  lemma {:induction false} DigitCountConcat(a: string, b: string)
    ensures DigitCount(a + b) == DigitCount(a) + DigitCount(b)
    decreases |b|
  {
    if b != [] {
      assert (a + b)[..|a + b| - 1] == a + b[..|b| - 1];
      assert (a + b)[|a + b| - 1] == b[|b| - 1];
      DigitCountConcat(a, b[..|b| - 1]);
    } else {
      assert a + b == a;
    }
  }

  lemma {:induction false} DigitCountAll(s: string)
    requires forall k :: 0 <= k < |s| ==> IsDigit(s[k])
    ensures DigitCount(s) == |s|
  {
    if s != [] {
      DigitCountAll(s[..|s| - 1]);
    }
  }

  lemma {:induction false} DigitCountSpaces(s: string)
    requires forall k :: 0 <= k < |s| ==> IsSpace(s[k])
    ensures DigitCount(s) == 0
  {
    if s != [] {
      DigitCountSpaces(s[..|s| - 1]);
    }
  }

  /** Stripping whitespace removes no digit. */
  lemma StripDigits(s: string)
    ensures DigitCount(Strip(s)) == DigitCount(s)
  {
    var a := LeadingSpace(s);
    var r := Strip(s);
    var b := a + |r|;
    assert s == s[..a] + r + s[b..];
    DigitCountSpaces(s[..a]);
    DigitCountSpaces(s[b..]);
    DigitCountConcat(s[..a], r);
    DigitCountConcat(s[..a] + r, s[b..]);
  }

  /** A leading sign is not a digit. */
  lemma SignDigits(t: string)
    requires |t| > 0 && (t[0] == '+' || t[0] == '-')
    ensures DigitCount(t[1..]) == DigitCount(t)
  {
    assert t == [t[0]] + t[1..];
    DigitCountConcat([t[0]], t[1..]);
    assert [t[0]][..0] == [];
  }

  lemma NumeralDigits(s: string)
    requires IsNumeral(s)
    ensures DigitCount(s) > 0
  {
    assert s == [s[0]] + s[1..];
    DigitCountConcat([s[0]], s[1..]);
    assert [s[0]][..0] == [];
  }

  /**
   * The information separators U+001C..U+001F: str.isspace() holds for
   * them, but int() does not skip them, because it only skips ASCII
   * whitespace (and non-ASCII whitespace, which it first turns into a space).
   */
  predicate IsInfoSeparator(c: char) {
    '\U{1C}' <= c <= '\U{1F}'
  }

  predicate HasInfoSeparator(s: string) {
    exists k :: 0 <= k < |s| && IsInfoSeparator(s[k])
  }

  /**
   * int(s) in base 10: None where Python raises ValueError, which includes
   * a numeral of more than MaxStrDigits digits and any text holding an
   * information separator. A separator could only sit in the whitespace
   * around the number, so rejecting it anywhere is the same as stripping
   * every other whitespace character and then finding it left over.
   */
  function ParseInt(s: string): (r: Option<int>)
    ensures r.Some? ==> 0 < DigitCount(s) <= MaxStrDigits
    ensures HasInfoSeparator(s) ==> r.None?
  {
    if HasInfoSeparator(s) then None
    else
      var t := Strip(s);
      var signed := |t| > 0 && (t[0] == '+' || t[0] == '-');
      var digits := if signed then t[1..] else t;
      StripDigits(s);
      if signed then SignDigits(t); ParseNumeral(digits, signed && t[0] == '-')
      else ParseNumeral(digits, false)
  }

  /** The value of an unsigned numeral within the digit limit, negated when the sign was '-'. */
  function ParseNumeral(digits: string, negative: bool): (r: Option<int>)
    ensures r.Some? ==> 0 < DigitCount(digits) <= MaxStrDigits
  {
    if IsNumeral(digits) && DigitCount(digits) <= MaxStrDigits then
      NumeralDigits(digits);
      var v: int := NumeralValue(digits);
      Some(if negative then -v else v)
    else None
  }

  function NatToDecimal(n: nat): (s: string)
    ensures |s| > 0 && forall k :: 0 <= k < |s| ==> IsDigit(s[k])
  {
    if n < 10 then [DigitChar(n)] else NatToDecimal(n / 10) + [DigitChar(n % 10)]
  }

  /** str(n): a '-' exactly for a negative n, then digits only. */
  function Decimal(n: int): (s: string)
    ensures |s| > 0
    ensures (s[0] == '-') == (n < 0)
    ensures forall k :: (if n < 0 then 1 else 0) <= k < |s| ==> IsDigit(s[k])
  {
    if n < 0 then "-" + NatToDecimal(-n) else NatToDecimal(n)
  }

  lemma {:induction false} NatToDecimalValue(n: nat)
    ensures IsNumeral(NatToDecimal(n))
    ensures NumeralValue(NatToDecimal(n)) == n
  {
    var s := NatToDecimal(n);
    NoUnderscoreNoDouble(s);
    if n >= 10 {
      NatToDecimalValue(n / 10);
      assert s[..|s| - 1] == NatToDecimal(n / 10);
    }
  }

  lemma {:induction false} NoUnderscoreNoDouble(s: string)
    requires forall k :: 0 <= k < |s| ==> IsDigit(s[k])
    ensures NoDoubleUnderscore(s)
  {
    if |s| >= 2 {
      NoUnderscoreNoDouble(s[1..]);
    }
  }

  /** int() reads back what str() writes, for every integer of at most MaxStrDigits digits. */
  lemma {:induction false} ParseDecimal(n: int)
    requires DigitCount(Decimal(n)) <= MaxStrDigits
    ensures ParseInt(Decimal(n)) == Some(n)
  {
    var s := Decimal(n);
    var m: nat := if n < 0 then -n else n;
    NatToDecimalValue(m);
    StripKeeps(s);
    if n < 0 {
      assert s[1..] == NatToDecimal(m);
      SignDigits(s);
    }
  }

  /** Python's string order: code point by code point, a proper prefix first. */
  predicate LexLe(a: string, b: string) {
    if a == [] then true
    else if b == [] then false
    else if a[0] != b[0] then a[0] < b[0]
    else LexLe(a[1..], b[1..])
  }

  lemma {:induction false} LexLeTotal(a: string, b: string)
    ensures LexLe(a, b) || LexLe(b, a)
  {
    if a != [] && b != [] && a[0] == b[0] {
      LexLeTotal(a[1..], b[1..]);
    }
  }

  lemma {:induction false} LexLeTransitive(a: string, b: string, c: string)
    requires LexLe(a, b) && LexLe(b, c)
    ensures LexLe(a, c)
  {
    if a != [] && b != [] && c != [] && a[0] == b[0] && b[0] == c[0] {
      LexLeTransitive(a[1..], b[1..], c[1..]);
    }
  }
}
