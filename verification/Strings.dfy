/** Splitting, joining and decimal numerals. */
module Strings {
  import opened Common
  import opened Numeric

  // s.split(sep) for a one-character separator: always at least one part.
  function Split(s: string, sep: char): (parts: seq<string>)
    ensures |parts| >= 1
  {
    if s == "" then [""] else PutFirst(s[0], sep, Split(s[1..], sep))
  }

  // The parts once a character is put in front of the string.
  function PutFirst(c: char, sep: char, parts: seq<string>): (r: seq<string>)
    requires parts != []
    ensures |r| >= 1
  {
    if c == sep then [""] + parts else [[c] + parts[0]] + parts[1..]
  }

  lemma PutFirstAppend(c: char, sep: char, parts: seq<string>, more: seq<string>)
    requires parts != []
    ensures PutFirst(c, sep, parts + more) == PutFirst(c, sep, parts) + more
  {
    assert (parts + more)[1..] == parts[1..] + more;
  }

  // sep.join(parts)
  function Join(parts: seq<string>, sep: char): string {
    if parts == [] then "" else if |parts| == 1 then parts[0] else parts[0] + [sep] + Join(parts[1..], sep)
  }

  lemma {:induction false} SplitPlain(s: string, sep: char)
    requires sep !in s
    ensures Split(s, sep) == [s]
  {
    if s != "" {
      SplitPlain(s[1..], sep);
      assert s[0] in s;
      assert [s[0]] + s[1..] == s;
    }
  }

  /** Splitting at a known separator. */
  lemma {:induction false} SplitAt(a: string, b: string, sep: char)
    ensures Split(a + [sep] + b, sep) == Split(a, sep) + Split(b, sep)
  {
    var s := a + [sep] + b;
    if a == "" {
      assert s[1..] == b;
    } else {
      SplitAt(a[1..], b, sep);
      assert s[1..] == a[1..] + [sep] + b && s[0] == a[0];
      PutFirstAppend(a[0], sep, Split(a[1..], sep), Split(b, sep));
    }
  }

  lemma SplitFirst(a: string, b: string, sep: char)
    requires sep !in a
    ensures Split(a + [sep] + b, sep) == [a] + Split(b, sep)
  {
    SplitPlain(a, sep);
    SplitAt(a, b, sep);
  }

  lemma {:induction false} PartsPlain(s: string, sep: char)
    ensures forall k :: 0 <= k < |Split(s, sep)| ==> sep !in Split(s, sep)[k]
  {
    if s != "" {
      PartsPlain(s[1..], sep);
    }
  }

  lemma {:induction false} JoinSplit(s: string, sep: char)
    ensures Join(Split(s, sep), sep) == s
  {
    if s != "" {
      JoinSplit(s[1..], sep);
      var rest := Split(s[1..], sep);
      if s[0] == sep {
        assert ([""] + rest)[1..] == rest;
      } else {
        var first := [s[0]] + rest[0];
        assert ([first] + rest[1..])[1..] == rest[1..];
      }
    }
  }

  /** Splitting undoes joining when no part contains the separator. */
  lemma {:induction false} SplitJoin(parts: seq<string>, sep: char)
    requires parts != [] && forall k :: 0 <= k < |parts| ==> sep !in parts[k]
    ensures Split(Join(parts, sep), sep) == parts
  {
    if |parts| == 1 {
      SplitPlain(parts[0], sep);
    } else {
      SplitJoin(parts[1..], sep);
      SplitFirst(parts[0], Join(parts[1..], sep), sep);
    }
  }

  // ---------------------------------------------------------------- decimal numerals

  predicate IsDigit(c: char) {
    '0' <= c <= '9'
  }

  function DigitChar(d: nat): (c: char)
    requires d < 10
    ensures IsDigit(c) && DigitValue(c) == d
  {
    '0' + d as char
  }

  function DigitValue(c: char): (d: nat)
    requires IsDigit(c)
    ensures d < 10
  {
    (c - '0') as nat
  }

  predicate AllDigits(s: string) {
    forall k :: 0 <= k < |s| ==> IsDigit(s[k])
  }

  // str(n) for n >= 0.
  function NatString(n: nat): (s: string)
    ensures s != "" && AllDigits(s)
  {
    if n < 10 then [DigitChar(n)] else NatString(n / 10) + [DigitChar(n % 10)]
  }

  // The value of a run of digits.
  function NatValue(s: string): nat
    requires AllDigits(s)
  {
    if s == "" then 0 else 10 * NatValue(s[..|s| - 1]) + DigitValue(s[|s| - 1])
  }

  lemma {:induction false} NatRoundTrip(n: nat)
    ensures NatValue(NatString(n)) == n
  {
    if n < 10 {
      assert NatString(n)[..0] == "";
    } else {
      NatRoundTrip(n / 10);
      var s := NatString(n / 10);
      assert NatString(n)[..|s|] == s;
    }
  }

  // str(n)
  function IntString(n: int): (s: string)
    ensures s != ""
  {
    if n < 0 then "-" + NatString(-n) else NatString(n)
  }

  // int(s) on an optional minus sign and decimal digits.
  function ParseInt(s: string): Option<int> {
    if s != "" && AllDigits(s) then Some(NatValue(s))
    else if |s| >= 2 && s[0] == '-' && AllDigits(s[1..]) then Some(0 - NatValue(s[1..]))
    else None
  }

  lemma IntRoundTrip(n: int)
    ensures ParseInt(IntString(n)) == Some(n)
    ensures forall c :: c in IntString(n) ==> c == '-' || IsDigit(c)
  {
    if n < 0 {
      NatRoundTrip(-n);
      assert IntString(n)[1..] == NatString(-n);
      assert IntString(n)[0] == '-';
    } else {
      NatRoundTrip(n);
    }
  }

  // ---------------------------------------------------------------- fixed-point numerals

  function Pow10(d: nat): (p: nat)
    ensures p >= 1
  {
    if d == 0 then 1 else 10 * Pow10(d - 1)
  }

  function Pad(s: string, n: nat): (p: string)
    ensures |p| >= n && |p| >= |s|
    ensures AllDigits(s) ==> AllDigits(p)
    decreases n - |s|
  {
    if |s| >= n then s else Pad("0" + s, n)
  }

  lemma {:induction false} LeadingZero(s: string)
    requires AllDigits(s)
    ensures AllDigits("0" + s) && NatValue("0" + s) == NatValue(s)
  {
    var z := "0" + s;
    if s == "" {
      assert z[..0] == "";
    } else {
      LeadingZero(s[..|s| - 1]);
      assert z[..|s|] == "0" + s[..|s| - 1];
    }
  }

  lemma {:induction false} PadValue(s: string, n: nat)
    requires AllDigits(s)
    ensures NatValue(Pad(s, n)) == NatValue(s)
    decreases n - |s|
  {
    if |s| < n {
      LeadingZero(s);
      PadValue("0" + s, n);
    }
  }

  // The digits of n hundredths, millionths, ... with d digits after the point.
  function Digits(n: nat, d: nat): (s: string)
    ensures |s| >= d + 1 && AllDigits(s)
  {
    Pad(NatString(n), d + 1)
  }

  // f"{x:.df}": rounded to d decimals, halves to even.
  function Fixed(x: real, d: nat): string {
    var z := Digits(Scaled(x, d), d);
    (if x < 0.0 then "-" else "") + z[..|z| - d] + "." + z[|z| - d..]
  }

  function Shifted(x: real, d: nat): real {
    AbsR(x) * Pow10(d) as real
  }

  function Scaled(x: real, d: nat): (n: nat) {
    RoundNonNegative(Shifted(x, d));
    Round(Shifted(x, d))
  }

  lemma RoundNonNegative(x: real)
    ensures x >= 0.0 ==> Round(x) >= 0
  {
  }

  // The number that is printed.
  function Rounded(x: real, d: nat): real {
    var n := Scaled(x, d) as real / Pow10(d) as real;
    if x < 0.0 then -n else n
  }

  // float(s) on an optional minus sign, digits, and optionally a point and more digits.
  function ParseFloat(s: string): Option<real> {
    if s != "" && s[0] == '-' then
      var r := ParseUnsigned(s[1..]);
      if r.None? then None else Some(-r.value)
    else ParseUnsigned(s)
  }

  function ParseUnsigned(s: string): Option<real> {
    var parts := Split(s, '.');
    if |parts| == 1 && s != "" && AllDigits(s) then Some(NatValue(s) as real)
    else if |parts| == 2 && parts[0] + parts[1] != "" && AllDigits(parts[0] + parts[1]) then
      Some(NatValue(parts[0] + parts[1]) as real / Pow10(|parts[1]|) as real)
    else None
  }

  /** int() and float() of the host language: they read the numerals above, and possibly more, such as exponents, plus
      signs, digit separators or surrounding blanks. None stands for the exception. */
  datatype Reader = Reader(readInt: string -> Option<int>, readFloat: string -> Option<real>) {
    ghost predicate ReadsNumerals() {
      && (forall s :: ParseInt(s).Some? ==> readInt(s) == ParseInt(s))
      && (forall s :: ParseFloat(s).Some? ==> readFloat(s) == ParseFloat(s))
      && (forall s: string :: s != "" && NeverStartsNumber(s[0]) ==> readFloat(s).None?)
    }
  }

  // Letters that start neither a number nor one of the names inf, infinity and nan.
  predicate NeverStartsNumber(c: char) {
    ('A' <= c <= 'Z' || 'a' <= c <= 'z') && c != 'i' && c != 'I' && c != 'n' && c != 'N'
  }

  /** A reader of nothing but the plain numerals is a reader. */
  lemma PlainReaderReads()
    ensures Reader(ParseInt, ParseFloat).ReadsNumerals()
  {
    forall s: string | s != "" && NeverStartsNumber(s[0]) ensures ParseFloat(s).None? {
      if ParseUnsigned(s).Some? {
        UnsignedStarts(s);
        assert false;
      }
    }
  }

  // An unsigned numeral starts with a digit or the point.
  lemma UnsignedStarts(s: string)
    requires ParseUnsigned(s).Some?
    ensures s != "" && (IsDigit(s[0]) || s[0] == '.')
  {
    var parts := Split(s, '.');
    JoinSplit(s, '.');
    if |parts| == 2 {
      assert s == parts[0] + ['.'] + parts[1];
      if parts[0] != "" {
        assert (parts[0] + parts[1])[0] == s[0];
      }
    }
  }

  predicate IsNumeral(s: string) {
    s != "" && forall c :: c in s ==> c == '-' || c == '.' || IsDigit(c)
  }

  lemma UnsignedRoundTrip(z: string, d: nat)
    requires AllDigits(z) && |z| >= d + 1
    ensures ParseUnsigned(z[..|z| - d] + "." + z[|z| - d..]) == Some(NatValue(z) as real / Pow10(d) as real)
  {
    var a, b := z[..|z| - d], z[|z| - d..];
    assert '.' !in b && '.' !in a;
    SplitFirst(a, b, '.');
    SplitPlain(b, '.');
    assert a + ['.'] + b == a + "." + b;
    assert a + b == z;
  }

  /** Reading a printed number gives the number rounded to the printed decimals. */
  lemma FixedRoundTrip(x: real, d: nat)
    ensures ParseFloat(Fixed(x, d)) == Some(Rounded(x, d))
    ensures IsNumeral(Fixed(x, d))
  {
    hide ParseUnsigned, Scaled, Digits, Pow10, Shifted;
    var n := Scaled(x, d);
    var z := Digits(n, d);
    DigitsValue(n, d);
    UnsignedRoundTrip(z, d);
    var body := z[..|z| - d] + "." + z[|z| - d..];
    assert body[0] == z[0] && IsDigit(z[0]);
    if x < 0.0 {
      assert Fixed(x, d) == "-" + body;
      assert Fixed(x, d)[1..] == body;
    } else {
      assert Fixed(x, d) == body;
    }
  }

  lemma DigitsValue(n: nat, d: nat)
    ensures NatValue(Digits(n, d)) == n
  {
    NatRoundTrip(n);
    PadValue(NatString(n), d + 1);
  }

  /** Rounding moves a number by at most half a unit of the last decimal. */
  lemma RoundedError(x: real, d: nat)
    ensures AbsR(Rounded(x, d) - x) * Pow10(d) as real <= 0.5
  {
    hide Pow10, Shifted, Numeric.Round;
    ShiftedIs(x, d);
    RoundError(Shifted(x, d));
    var n, p := Scaled(x, d) as real, Pow10(d) as real;
    RoundedCore(AbsR(x), p, Shifted(x, d), n, n / p);
    assert AbsR(Rounded(x, d) - x) == AbsR(n / p - AbsR(x));
  }

  lemma ShiftedIs(x: real, d: nat)
    ensures Shifted(x, d) == AbsR(x) * Pow10(d) as real && Pow10(d) as real >= 1.0
  {
  }

  lemma RoundedCore(x: real, p: real, up: real, n: real, q: real)
    requires p >= 1.0 && q == n / p && up == x * p && AbsR(up - n) <= 0.5
    ensures AbsR(q - x) * p <= 0.5
  {
    assert q * p == n;
    assert (q - x) * p == n - up;
    assert AbsR((q - x) * p) == AbsR(q - x) * p;
  }

  // ---------------------------------------------------------------- white space

  predicate IsSpace(c: char) {
    c == ' ' || '\t' <= c <= '\r' || '\U{1C}' <= c <= '\U{1F}'
  }

  /** The white space of the first 128 characters: blank, tab, line and page breaks, and the four separators. */
  lemma SpacesAre(c: char)
    ensures IsSpace(c) <==>
      c in {' ', '\t', '\n', '\U{0B}', '\U{0C}', '\r', '\U{1C}', '\U{1D}', '\U{1E}', '\U{1F}'}
  {
  }

  predicate IsWord(s: string) {
    s != "" && forall k :: 0 <= k < |s| ==> !IsSpace(s[k])
  }

  // No white space at either end.
  predicate IsTidy(s: string) {
    s == "" || (!IsSpace(s[0]) && !IsSpace(s[|s| - 1]))
  }

  function StripLeft(s: string): string {
    if s != "" && IsSpace(s[0]) then StripLeft(s[1..]) else s
  }

  function StripRight(s: string): string {
    if s != "" && IsSpace(s[|s| - 1]) then StripRight(s[..|s| - 1]) else s
  }

  function Strip(s: string): string {
    StripRight(StripLeft(s))
  }

  lemma TidyStrip(s: string)
    requires IsTidy(s)
    ensures Strip(s) == s
  {
  }

  function WordLength(s: string): (n: nat)
    ensures n <= |s|
  {
    if s == "" || IsSpace(s[0]) then 0 else 1 + WordLength(s[1..])
  }

  // s.split(): the words between runs of white space.
  function Words(s: string): seq<string>
    decreases |s|
  {
    if s == "" then []
    else if IsSpace(s[0]) then Words(s[1..])
    else [s[..WordLength(s)]] + Words(s[WordLength(s)..])
  }

  lemma {:induction false} WordLengthOf(w: string, rest: string)
    requires forall k :: 0 <= k < |w| ==> !IsSpace(w[k])
    requires rest == "" || IsSpace(rest[0])
    ensures WordLength(w + rest) == |w|
  {
    if w == "" {
      assert w + rest == rest;
    } else {
      assert (w + rest)[1..] == w[1..] + rest;
      WordLengthOf(w[1..], rest);
    }
  }

  lemma FirstWord(w: string, rest: string)
    requires IsWord(w) && (rest == "" || IsSpace(rest[0]))
    ensures Words(w + rest) == [w] + Words(rest)
  {
    WordLengthOf(w, rest);
    assert (w + rest)[..|w|] == w && (w + rest)[|w|..] == rest;
  }

  lemma SkipSpace(s: string)
    ensures Words(" " + s) == Words(s)
  {
    assert (" " + s)[1..] == s;
  }

  /** The words of words joined by single blanks are those words. */
  lemma {:induction false} WordsOfJoin(ws: seq<string>)
    requires forall k :: 0 <= k < |ws| ==> IsWord(ws[k])
    ensures Words(Join(ws, ' ')) == ws
  {
    if |ws| == 1 {
      FirstWord(ws[0], "");
      assert ws[0] + "" == ws[0];
    } else if |ws| > 1 {
      WordsOfJoin(ws[1..]);
      var rest := Join(ws[1..], ' ');
      SkipSpace(rest);
      FirstWord(ws[0], " " + rest);
      assert ws[0] + [' '] + rest == ws[0] + (" " + rest);
    }
  }

  lemma NumeralIsWord(s: string)
    requires IsNumeral(s)
    ensures IsWord(s)
  {
    forall k | 0 <= k < |s| ensures !IsSpace(s[k]) {
      assert s[k] in s;
    }
  }

  lemma IntIsNumeral(n: int)
    ensures IsNumeral(IntString(n)) && IsWord(IntString(n))
  {
    IntRoundTrip(n);
    NumeralIsWord(IntString(n));
  }

  lemma FixedIsWord(x: real, d: nat)
    ensures IsNumeral(Fixed(x, d)) && IsWord(Fixed(x, d))
  {
    FixedRoundTrip(x, d);
    NumeralIsWord(Fixed(x, d));
  }

  // Words with single blanks between them.
  function Line(ws: seq<string>): string {
    Join(ws, ' ')
  }

  /** What a line made of words looks like from outside: it can be stripped, cut out of a file, and split again. */
  lemma {:induction false} LineFacts(ws: seq<string>)
    requires ws != [] && forall k :: 0 <= k < |ws| ==> IsWord(ws[k])
    ensures IsWord(ws[0]) && Line(ws) != "" && Line(ws)[0] == ws[0][0] && IsTidy(Line(ws)) && '\n' !in Line(ws)
    ensures Words(Line(ws)) == ws
  {
    WordsOfJoin(ws);
    LineEdges(ws);
  }

  lemma {:induction false} LineEdges(ws: seq<string>)
    requires ws != [] && forall k :: 0 <= k < |ws| ==> IsWord(ws[k])
    ensures IsWord(ws[0]) && Line(ws) != "" && Line(ws)[0] == ws[0][0] && IsTidy(Line(ws)) && '\n' !in Line(ws)
  {
    if |ws| > 1 {
      LineEdges(ws[1..]);
      var rest := Line(ws[1..]);
      var line := ws[0] + [' '] + rest;
      assert line[|line| - 1] == rest[|rest| - 1];
    }
  }

  // part in s, for strings.
  predicate Contains(s: string, part: string) {
    part <= s || (s != "" && Contains(s[1..], part))
  }

  lemma {:induction false} PartChars(s: string, part: string, c: char)
    requires Contains(s, part) && c in part
    ensures c in s
  {
    if !(part <= s) {
      PartChars(s[1..], part, c);
    }
  }

  lemma {:induction false} PartOf(a: string, part: string)
    ensures Contains(a + part, part)
  {
    if a == "" {
      assert a + part == part;
    } else {
      PartOf(a[1..], part);
      assert (a + part)[1..] == a[1..] + part;
    }
  }
}
