/** ASCII text primitives: the whitespace class `\s`, `toUpperCase`,
    `trim`, `split`, `join`, decimal printing and JavaScript's `<` on
    strings. Characters outside ASCII are neither whitespace nor cased. */
module Text {

  // ---------------------------------------------------------------------
  // Characters
  // ---------------------------------------------------------------------

  /** ASCII whitespace: space, tab, line feed, vertical tab, form feed, carriage return. */
  predicate IsSpace(c: char) {
    c == ' ' || c == '\t' || c == '\n' || c == '\U{B}' || c == '\U{C}' || c == '\r'
  }

  predicate IsLower(c: char) {
    'a' <= c <= 'z'
  }

  predicate IsDigit(c: char) {
    '0' <= c <= '9'
  }

  /** `toUpperCase` on one ASCII character. */
  function ToUpper(c: char): (u: char)
    ensures IsLower(c) ==> 'A' <= u <= 'Z' && u as int == c as int - 32
    ensures !IsLower(c) ==> u == c
  {
    if IsLower(c) then (c as int - 32) as char else c
  }

  // ---------------------------------------------------------------------
  // Whole strings
  // ---------------------------------------------------------------------

  predicate NoSpace(s: string) {
    forall i :: 0 <= i < |s| ==> !IsSpace(s[i])
  }

  predicate NoLower(s: string) {
    forall i :: 0 <= i < |s| ==> !IsLower(s[i])
  }

  predicate AllSpace(s: string) {
    forall i :: 0 <= i < |s| ==> IsSpace(s[i])
  }

  predicate AllDigits(s: string) {
    forall i :: 0 <= i < |s| ==> IsDigit(s[i])
  }

  /** Neither end of `s` is whitespace. */
  predicate IsTrimmed(s: string) {
    |s| == 0 || (!IsSpace(s[0]) && !IsSpace(s[|s| - 1]))
  }

  /** `s.replace(/\s+/g, "")`: every whitespace character removed. */
  function RemoveSpaces(s: string): (r: string)
    ensures NoSpace(r)
    ensures |r| <= |s|
    ensures forall c :: c in r <==> c in s && !IsSpace(c)
  {
    if |s| == 0 then ""
    else if IsSpace(s[0]) then RemoveSpaces(s[1..])
    else [s[0]] + RemoveSpaces(s[1..])
  }

  /** `s.toUpperCase()` */
  function Upper(s: string): (r: string)
    ensures |r| == |s|
    ensures NoLower(r)
    ensures forall i :: 0 <= i < |s| ==> (IsSpace(r[i]) <==> IsSpace(s[i]))
    ensures forall i :: 0 <= i < |s| ==> (r[i] == ',' <==> s[i] == ',')
    ensures forall i :: 0 <= i < |s| ==> r[i] == ToUpper(s[i])
  {
    seq(|s|, i requires 0 <= i < |s| => ToUpper(s[i]))
  }

  lemma UpperAppend(a: string, b: string)
    ensures Upper(a + b) == Upper(a) + Upper(b)
  {
    assert forall i :: 0 <= i < |a + b| ==> Upper(a + b)[i] == (Upper(a) + Upper(b))[i];
  }

  function TrimStart(s: string): (r: string)
    ensures |r| <= |s| && r == s[|s| - |r|..]
    ensures AllSpace(s[..|s| - |r|])
    ensures |r| == 0 || !IsSpace(r[0])
  {
    if |s| > 0 && IsSpace(s[0]) then TrimStart(s[1..]) else s
  }

  function TrimEnd(s: string): (r: string)
    ensures |r| <= |s| && r == s[..|r|]
    ensures AllSpace(s[|r|..])
    ensures |r| == 0 || !IsSpace(r[|r| - 1])
  {
    if |s| > 0 && IsSpace(s[|s| - 1]) then TrimEnd(s[..|s| - 1]) else s
  }

  /** `s.trim()`: the slice of `s` left after dropping whitespace at both ends. */
  function Trim(s: string): (r: string)
    ensures IsTrimmed(r)
    ensures exists a, b :: 0 <= a <= b <= |s| && r == s[a..b] && AllSpace(s[..a]) && AllSpace(s[b..])
  {
    var t := TrimStart(s);
    var r := TrimEnd(t);
    TrimSlice(s, t, r);
    r
  }

  /** A prefix of a suffix is a middle slice; whitespace cut from the ends
      of the suffix is whitespace at the ends of the whole. */
  lemma TrimSlice(s: string, t: string, r: string)
    requires |t| <= |s| && t == s[|s| - |t|..] && AllSpace(s[..|s| - |t|])
    requires |r| <= |t| && r == t[..|r|] && AllSpace(t[|r|..])
    ensures var a := |s| - |t|;
      0 <= a <= a + |r| <= |s| && r == s[a..a + |r|] && AllSpace(s[..a]) && AllSpace(s[a + |r|..])
  {
    var a := |s| - |t|;
    assert r == s[a..a + |r|];
    assert s[a + |r|..] == t[|r|..];
  }

  lemma TrimOfTrimmed(s: string)
    requires IsTrimmed(s)
    ensures Trim(s) == s
  {
  }

  /** Number of occurrences of `c` in `s`. */
  function Occurrences(s: string, c: char): nat
  {
    if |s| == 0 then 0 else (if s[0] == c then 1 else 0) + Occurrences(s[1..], c)
  }

  /** `s.split(d)` for a one-character separator: always at least one
      segment, one more than the separator count, none containing it. */
  function Split(s: string, d: char): (r: seq<string>)
    ensures |r| == Occurrences(s, d) + 1
    ensures forall i :: 0 <= i < |r| ==> d !in r[i]
  {
    if |s| == 0 then [""]
    else
      var rest := Split(s[1..], d);
      if s[0] == d then [""] + rest
      else [[s[0]] + rest[0]] + rest[1..]
  }

  /** `parts.join(sep)` */
  function Join(parts: seq<string>, sep: string): string
  {
    if |parts| == 0 then ""
    else if |parts| == 1 then parts[0]
    else parts[0] + sep + Join(parts[1..], sep)
  }

  lemma JoinCons(p: string, rest: seq<string>, sep: string)
    requires |rest| > 0
    ensures Join([p] + rest, sep) == p + sep + Join(rest, sep)
  {
    assert ([p] + rest)[0] == p && ([p] + rest)[1..] == rest;
  }

  // ---------------------------------------------------------------------
  // Lemmas on whitespace removal and trimming
  // ---------------------------------------------------------------------

  lemma {:induction false} RemoveSpacesAppend(a: string, b: string)
    ensures RemoveSpaces(a + b) == RemoveSpaces(a) + RemoveSpaces(b)
  {
    if |a| > 0 {
      assert (a + b)[0] == a[0];
      assert (a + b)[1..] == a[1..] + b;
      RemoveSpacesAppend(a[1..], b);
      if !IsSpace(a[0]) {
        assert [a[0]] + (RemoveSpaces(a[1..]) + RemoveSpaces(b))
            == ([a[0]] + RemoveSpaces(a[1..])) + RemoveSpaces(b);
      }
    } else {
      assert a + b == b;
    }
  }

  lemma {:induction false} RemoveSpacesOfSpaces(s: string)
    requires AllSpace(s)
    ensures RemoveSpaces(s) == ""
  {
    if |s| > 0 {
      RemoveSpacesOfSpaces(s[1..]);
    }
  }

  lemma {:induction false} RemoveSpacesOfSpaceFree(s: string)
    requires NoSpace(s)
    ensures RemoveSpaces(s) == s
  {
    if |s| > 0 {
      RemoveSpacesOfSpaceFree(s[1..]);
    }
  }

  /** Trimming first makes no difference once all whitespace is removed. */
  lemma RemoveSpacesOfTrim(s: string)
    ensures RemoveSpaces(Trim(s)) == RemoveSpaces(s)
  {
    var a, b :| 0 <= a <= b <= |s| && Trim(s) == s[a..b] && AllSpace(s[..a]) && AllSpace(s[b..]);
    assert s == s[..a] + s[a..b] + s[b..];
    RemoveSpacesAppend(s[..a] + s[a..b], s[b..]);
    RemoveSpacesAppend(s[..a], s[a..b]);
    RemoveSpacesOfSpaces(s[..a]);
    RemoveSpacesOfSpaces(s[b..]);
  }

  lemma UpperOfUpper(s: string)
    requires NoLower(s)
    ensures Upper(s) == s
  {
  }

  // ---------------------------------------------------------------------
  // Lemmas on split and join
  // ---------------------------------------------------------------------

  /** A separator-free prefix glues onto the first segment. */
  lemma {:induction false} SplitPrefix(a: string, x: string, d: char)
    requires d !in a
    ensures Split(a + x, d) == [a + Split(x, d)[0]] + Split(x, d)[1..]
  {
    if |a| > 0 {
      assert (a + x)[0] == a[0];
      assert (a + x)[1..] == a[1..] + x;
      SplitPrefix(a[1..], x, d);
      assert [a[0]] + (a[1..] + Split(x, d)[0]) == a + Split(x, d)[0];
    } else {
      assert a + x == x;
      var r := Split(x, d);
      assert a + r[0] == r[0];
      assert [r[0]] + r[1..] == r;
    }
  }

  /** A separator-free segment followed by the separator splits off whole. */
  lemma SplitAtSeparator(a: string, x: string, d: char)
    requires d !in a
    ensures Split(a + [d] + x, d) == [a] + Split(x, d)
  {
    assert a + [d] + x == a + ([d] + x);
    assert ([d] + x)[0] == d && ([d] + x)[1..] == x;
    assert Split([d] + x, d) == [""] + Split(x, d);
    SplitPrefix(a, [d] + x, d);
    assert a + "" == a;
  }

  /** Text without the separator is a single segment. */
  lemma SplitNoSeparator(s: string, d: char)
    requires d !in s
    ensures Split(s, d) == [s]
  {
    SplitPrefix(s, "", d);
    assert s + "" == s;
  }

  /** Splitting a join on the separator gives back the parts, provided no
      part contains the separator. */
  lemma {:induction false} SplitJoin(parts: seq<string>, d: char)
    requires |parts| > 0
    requires forall i :: 0 <= i < |parts| ==> d !in parts[i]
    ensures Split(Join(parts, [d]), d) == parts
  {
    if |parts| == 1 {
      SplitPrefix(parts[0], "", d);
      assert parts[0] + "" == parts[0];
    } else {
      SplitJoin(parts[1..], d);
      SplitAtSeparator(parts[0], Join(parts[1..], [d]), d);
      assert parts == [parts[0]] + parts[1..];
    }
  }

  // ---------------------------------------------------------------------
  // Decimal numerals
  // ---------------------------------------------------------------------

  function DigitChar(d: nat): (c: char)
    requires d < 10
    ensures IsDigit(c)
  {
    ('0' as int + d) as char
  }

  function DigitValue(c: char): nat
    requires IsDigit(c)
  {
    c as int - '0' as int
  }

  /** `String(n)` for a non-negative integer: no sign, no leading zero. */
  function DecimalText(n: nat): (r: string)
    ensures |r| >= 1 && AllDigits(r)
    ensures r[0] != '0' || n == 0
  {
    if n < 10 then [DigitChar(n)] else DecimalText(n / 10) + [DigitChar(n % 10)]
  }

  /** The value of a string of decimal digits. */
  function DecimalValue(s: string): nat
    requires AllDigits(s)
  {
    if |s| == 0 then 0
    else DecimalValue(s[..|s| - 1]) * 10 + DigitValue(s[|s| - 1])
  }

  lemma {:induction false} DecimalRoundTrip(n: nat)
    ensures DecimalValue(DecimalText(n)) == n
  {
    if n >= 10 {
      var t := DecimalText(n);
      assert t[..|t| - 1] == DecimalText(n / 10);
      DecimalRoundTrip(n / 10);
    }
  }

  lemma {:induction false} DecimalLeadingNonZero(s: string)
    requires |s| >= 1 && AllDigits(s) && s[0] != '0'
    ensures DecimalValue(s) >= 1
  {
    if |s| > 1 {
      DecimalLeadingNonZero(s[..|s| - 1]);
    }
  }

  /** A numeral without a superfluous leading zero prints back as itself. */
  lemma {:induction false} DecimalTextOfValue(s: string)
    requires |s| >= 1 && AllDigits(s)
    requires s[0] != '0' || |s| == 1
    ensures DecimalText(DecimalValue(s)) == s
  {
    if |s| > 1 {
      var p := s[..|s| - 1];
      DecimalLeadingNonZero(p);
      DecimalTextOfValue(p);
      var v := DecimalValue(s);
      assert v / 10 == DecimalValue(p) && v % 10 == DigitValue(s[|s| - 1]);
      assert s == p + [s[|s| - 1]];
    }
  }

  function Pow10(n: nat): (r: nat)
    ensures r >= 1
  {
    if n == 0 then 1 else 10 * Pow10(n - 1)
  }

  /** A numeral of `n` digits is below 10^n, and at least 10^(n-1) without a leading zero. */
  lemma {:induction false} DecimalValueBounds(s: string)
    requires |s| >= 1 && AllDigits(s)
    ensures DecimalValue(s) < Pow10(|s|)
    ensures s[0] != '0' ==> DecimalValue(s) >= Pow10(|s| - 1)
  {
    if |s| > 1 {
      var p := s[..|s| - 1];
      DecimalValueBounds(p);
      assert p[0] == s[0];
    }
  }

  lemma DecimalTextFourDigits(n: nat)
    requires 1000 <= n <= 9999
    ensures |DecimalText(n)| == 4
  {
    assert |DecimalText(n / 1000)| == 1;
    assert |DecimalText(n / 100)| == 2;
    assert |DecimalText(n / 10)| == 3;
  }

  // ---------------------------------------------------------------------
  // JavaScript string comparison
  // ---------------------------------------------------------------------

  /** `a < b` on strings: lexicographic by character code. */
  predicate LexLess(a: string, b: string)
  {
    if |a| == 0 then |b| > 0
    else if |b| == 0 then false
    else if a[0] != b[0] then a[0] < b[0]
    else LexLess(a[1..], b[1..])
  }

  lemma {:induction false} LexLessIrreflexive(a: string)
    ensures !LexLess(a, a)
  {
    if |a| > 0 {
      LexLessIrreflexive(a[1..]);
    }
  }

  lemma {:induction false} LexLessAsymmetric(a: string, b: string)
    ensures !(LexLess(a, b) && LexLess(b, a))
  {
    if |a| > 0 && |b| > 0 && a[0] == b[0] {
      LexLessAsymmetric(a[1..], b[1..]);
    }
  }

  lemma {:induction false} LexLessTotal(a: string, b: string)
    ensures a == b || LexLess(a, b) || LexLess(b, a)
  {
    if |a| > 0 && |b| > 0 && a[0] == b[0] {
      LexLessTotal(a[1..], b[1..]);
      if a[1..] == b[1..] {
        assert a == [a[0]] + a[1..] && b == [b[0]] + b[1..];
      }
    }
  }

  lemma {:induction false} LexLessTransitive(a: string, b: string, c: string)
    requires LexLess(a, b) && LexLess(b, c)
    ensures LexLess(a, c)
  {
    if |a| > 0 && |b| > 0 && |c| > 0 && a[0] == b[0] && b[0] == c[0] {
      LexLessTransitive(a[1..], b[1..], c[1..]);
    }
  }
}
