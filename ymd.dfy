/** The YMD parser and the vectorised entry points (`lib.rs`): integers,
    doubles and strings written as year-month-day are read into dates, and
    date vectors are passed through the period, month-shift and date-part
    operations with missing values kept in place. */
module Ymd {
  import opened Optional
  import opened Int32
  import opened Calendar
  import Periods
  import RDate

  /** The date written as the integer yyyymmdd. */
  function YmdNumber(d: Date): int {
    d.year * 10000 + d.month * 100 + d.day
  }

  /** The year a year part stands for. With `shortYear` a part below 100 is
      a two-digit year, 00-69 in the 2000s and 70-99 in the 1900s; otherwise
      the part is the year itself. */
  function ResolveYear(yearPart: int, shortYear: bool): (y: int)
    ensures shortYear && 0 <= yearPart < 70 ==> 2000 <= y <= 2069
    ensures shortYear && 70 <= yearPart < 100 ==> 1970 <= y <= 1999
    ensures y % 100 == yearPart % 100
    ensures !shortYear || yearPart >= 100 ==> y == yearPart
  {
    if shortYear && yearPart < 100 then
      (if yearPart < 70 then yearPart + 2000 else yearPart + 1900)
    else yearPart
  }

  /** `int2date`: day = x % 100, month = x / 100 % 100, year part =
      x / 10000, in Rust's truncating arithmetic. A negative `x` has a
      negative or zero day, and `day as u32` then gives 0 or a value above
      2^31, which `from_ymd_opt` rejects like any other impossible day; so
      only non-negative inputs can give a date, and then the date is the
      valid decomposition of `x`. */
  function Int2Date(x: int, shortYear: bool): (r: Option<NaiveDate>)
    requires IsI32(x)
    ensures r.Some? <==> x >= 0 && IsValidYmd(ResolveYear(x / 10000, shortYear), x / 100 % 100, x % 100)
    ensures r.Some? ==> YmdNumber(r.value) == x + 10000 * (r.value.year - x / 10000)
    ensures r.Some? ==> r.value.year == ResolveYear(x / 10000, shortYear)
  {
    var day := TruncMod(x, 100);
    var month := TruncMod(TruncDiv(x, 100), 100);
    var yearPart := TruncDiv(x, 10000);
    assert x >= 0 ==> day == x % 100 && month == x / 100 % 100 && yearPart == x / 10000;
    assert x < 0 ==> day <= 0;
    FromYmdOpt(ResolveYear(yearPart, shortYear), month, day)
  }

  lemma DivMod100(q: int, r: int)
    requires 0 <= r < 100
    ensures (q * 100 + r) / 100 == q && (q * 100 + r) % 100 == r
  {
  }

  lemma DivMod10000(q: int, r: int)
    requires 0 <= r < 10000
    ensures (q * 10000 + r) / 10000 == q && (q * 10000 + r) % 10000 == r
  {
  }

  /** A date from year 100 on, written as yyyymmdd, reads back as itself
      (and from year 0 on when windowing is off). */
  lemma Int2DateOfYmdNumber(d: NaiveDate, shortYear: bool)
    requires 0 <= d.year && (shortYear ==> 100 <= d.year) && IsI32(YmdNumber(d))
    ensures Int2Date(YmdNumber(d), shortYear) == Some(d)
  {
    var x := YmdNumber(d);
    DivMod10000(d.year, d.month * 100 + d.day);
    DivMod100(d.year * 100 + d.month, d.day);
    DivMod100(d.year, d.month);
  }

  /** Every date from 1970 to 2069, written as yymmdd, reads back as itself. */
  lemma Int2DateTwoDigitYear(d: NaiveDate)
    requires 1970 <= d.year <= 2069
    ensures Int2Date((d.year % 100) * 10000 + d.month * 100 + d.day, true) == Some(d)
  {
    var y := d.year % 100;
    var x := y * 10000 + d.month * 100 + d.day;
    DivMod10000(y, d.month * 100 + d.day);
    DivMod100(y * 100 + d.month, d.day);
    DivMod100(y, d.month);
    assert TruncMod(x, 100) == d.day && TruncMod(TruncDiv(x, 100), 100) == d.month;
    assert ResolveYear(TruncDiv(x, 10000), true) == d.year;
    assert Int2Date(x, true) == FromYmdOpt(d.year, d.month, d.day);
  }

  /** The cases of the source's tests of `int2date`. */
  lemma Int2DateExamples()
    ensures Int2Date(980308, true) == Some(Date(1998, 3, 8))
    ensures Int2Date(980308, false) == Some(Date(98, 3, 8))
    ensures Int2Date(19980308, false) == Some(Date(1998, 3, 8))
    ensures Int2Date(50308, true) == Some(Date(2005, 3, 8))
    ensures Int2Date(19980308, true) == Some(Date(1998, 3, 8))
    ensures Int2Date(21050308, true) == Some(Date(2105, 3, 8))
    ensures Int2Date(980230, true) == None
    ensures Int2Date(19980230, true) == None
    ensures Int2Date(22, true) == None
    ensures Int2Date(2201010, true) == Some(Date(220, 10, 10))
    ensures Int2Date(690101, true) == Some(Date(2069, 1, 1))
    ensures Int2Date(700101, true) == Some(Date(1970, 1, 1))
    ensures Int2Date(220102, true) == Some(Date(2022, 1, 2))
    ensures Int2Date(115, false) == Some(Date(0, 1, 15))
  {
  }

  /** `dbl2date` on a finite double, modelled as a real: a value with a
      fractional part gives no date; an integral one is cast with `as i32`,
      which saturates, and read by `int2date` with windowing. */
  function Dbl2Date(x: real): (r: Option<NaiveDate>)
    ensures x != x.Floor as real ==> r.None?
    ensures x == x.Floor as real && IsI32(x.Floor) ==> r == Int2Date(x.Floor, true)
    ensures x == x.Floor as real && !IsI32(x.Floor) ==> r.None?
  {
    if x == x.Floor as real then
      assert Int2Date(I32Max, true).None? && Int2Date(I32Min, true).None?;
      Int2Date(SaturateI32(x.Floor), true)
    else None
  }

  /** The cases of the source's tests of `dbl2date`. */
  lemma Dbl2DateExamples()
    ensures Dbl2Date(980308.0) == Some(Date(1998, 3, 8))
    ensures Dbl2Date(19980308.0) == Some(Date(1998, 3, 8))
    ensures Dbl2Date(980230.1) == None
    ensures Dbl2Date(2201310.0) == None
    ensures Dbl2Date(220101.5) == None
  {
  }

  predicate IsDelimiter(c: char) {
    c == '-' || c == '.' || c == '/' || c == ' '
  }

  predicate DelimiterFree(s: string) {
    forall i :: 0 <= i < |s| ==> !IsDelimiter(s[i])
  }

  /** `s.split(&['-', '.', '/', ' '])`: the pieces between delimiters, empty
      pieces included, so there is always one piece more than delimiters. */
  function Split(s: string): (r: seq<string>)
    ensures |r| >= 1
    ensures forall i :: 0 <= i < |r| ==> DelimiterFree(r[i])
    decreases |s|
  {
    if s == [] then [""]
    else
      var rest := Split(s[1..]);
      if IsDelimiter(s[0]) then [""] + rest
      else [[s[0]] + rest[0]] + rest[1..]
  }

  /** The tokens written out with the given delimiters between them. */
  function Join(tokens: seq<string>, delims: seq<char>): string
    requires |tokens| == |delims| + 1
    decreases |delims|
  {
    if delims == [] then tokens[0]
    else tokens[0] + [delims[0]] + Join(tokens[1..], delims[1..])
  }

  lemma {:induction false} SplitDelimiterFree(a: string)
    requires DelimiterFree(a)
    ensures Split(a) == [a]
    decreases |a|
  {
    if a != [] {
      SplitDelimiterFree(a[1..]);
      assert [a[0]] + a[1..] == a;
    }
  }

  lemma {:induction false} SplitAtDelimiter(a: string, c: char, t: string)
    requires DelimiterFree(a) && IsDelimiter(c)
    ensures Split(a + [c] + t) == [a] + Split(t)
    decreases |a|
  {
    if a == [] {
      assert a + [c] + t == [c] + t;
      assert ([c] + t)[1..] == t;
    } else {
      assert (a + [c] + t)[1..] == a[1..] + [c] + t;
      SplitAtDelimiter(a[1..], c, t);
      assert [a[0]] + a[1..] == a;
    }
  }

  /** Splitting undoes joining, whichever delimiters were used. */
  lemma {:induction false} SplitJoin(tokens: seq<string>, delims: seq<char>)
    requires |tokens| == |delims| + 1
    requires forall i :: 0 <= i < |tokens| ==> DelimiterFree(tokens[i])
    requires forall i :: 0 <= i < |delims| ==> IsDelimiter(delims[i])
    ensures Split(Join(tokens, delims)) == tokens
    decreases |delims|
  {
    if delims == [] {
      SplitDelimiterFree(tokens[0]);
    } else {
      SplitJoin(tokens[1..], delims[1..]);
      SplitAtDelimiter(tokens[0], delims[0], Join(tokens[1..], delims[1..]));
      assert [tokens[0]] + tokens[1..] == tokens;
    }
  }

  predicate IsDigit(c: char) {
    '0' <= c <= '9'
  }

  predicate AllDigits(s: string) {
    forall i :: 0 <= i < |s| ==> IsDigit(s[i])
  }

  function DigitOf(c: char): int {
    c as int - '0' as int
  }

  /** The decimal value of a string of digits. */
  function DigitsValue(s: string): (v: int)
    requires AllDigits(s)
    ensures v >= 0
  {
    PrefixValueNatural(s, |s|);
    PrefixValue(s, |s|)
  }

  /** The decimal value of the first `k` characters, read left to right. */
  function PrefixValue(s: string, k: nat): int
    requires k <= |s|
  {
    if k == 0 then 0 else PrefixValue(s, k - 1) * 10 + DigitOf(s[k - 1])
  }

  lemma {:induction false} PrefixValueNatural(s: string, k: nat)
    requires k <= |s| && AllDigits(s)
    ensures PrefixValue(s, k) >= 0
  {
    if k > 0 {
      PrefixValueNatural(s, k - 1);
    }
  }

  /** `str::parse::<i32>`: an optional `+` or `-`, then one or more ASCII
      digits and nothing else; a value outside i32 is an error too. */
  function ParseI32(s: string): (r: Option<int>)
    ensures r.Some? ==> IsI32(r.value)
    ensures r.Some? ==> || (1 <= |s| && AllDigits(s))
                        || (2 <= |s| && (s[0] == '+' || s[0] == '-') && AllDigits(s[1..]))
  {
    if s == [] then None
    else
      var digits := if s[0] == '+' || s[0] == '-' then s[1..] else s;
      if digits == [] || !AllDigits(digits) then None
      else
        var v: int := if s[0] == '-' then -(DigitsValue(digits) as int) else DigitsValue(digits);
        if IsI32(v) then Some(v) else None
  }

  /** An unsigned string of digits has no delimiter and parses to its
      decimal value exactly when that fits in i32. */
  lemma ParseNatural(s: string)
    requires 1 <= |s| && AllDigits(s)
    ensures DelimiterFree(s)
    ensures ParseI32(s) == if DigitsValue(s) <= I32Max then Some(DigitsValue(s)) else None
  {
  }

  /** A sign followed by digits parses to the signed decimal value exactly
      when that fits in i32. */
  lemma ParseSigned(sign: char, digits: string)
    requires sign == '+' || sign == '-'
    requires 1 <= |digits| && AllDigits(digits)
    ensures var v := if sign == '-' then -DigitsValue(digits) else DigitsValue(digits);
            ParseI32([sign] + digits) == if IsI32(v) then Some(v) else None
  {
    assert ([sign] + digits)[1..] == digits;
  }

  /** A sign is kept, and a lone sign is no number. */
  lemma ParseSignExamples()
    ensures ParseI32("+98") == Some(98)
    ensures ParseI32("-7") == Some(-7)
    ensures ParseI32("+") == None
  {
    assert PrefixValue("98", 2) == 98 && ['+'] + "98" == "+98";
    ParseSigned('+', "98");
    assert PrefixValue("7", 1) == 7 && ['-'] + "7" == "-7";
    ParseSigned('-', "7");
  }

  /** 2^31 is one past the largest i32, so it does not parse. */
  lemma ParseOverflowExample()
    ensures ParseI32("2147483648") == None
  {
    assert PrefixValue("2147483648", 10) == 2147483648;
    ParseNatural("2147483648");
  }

  /** Whether the source's `year * 10000 + month * 100 + day` stays in i32
      (Rust panics on overflow in debug builds and wraps in release builds). */
  predicate ComposeFits(y: int, m: int, d: int) {
    IsI32(y * 10000) && IsI32(m * 100) && IsI32(y * 10000 + m * 100) && IsI32(y * 10000 + m * 100 + d)
  }

  /** Whether three tokens that all parse compose within i32. */
  predicate TokensFit(tokens: seq<string>)
    requires |tokens| == 3
  {
    ParseI32(tokens[0]).Some? && ParseI32(tokens[1]).Some? && ParseI32(tokens[2]).Some?
    ==> ComposeFits(ParseI32(tokens[0]).value, ParseI32(tokens[1]).value, ParseI32(tokens[2]).value)
  }

  /** What `str2date` needs to run without overflow: a three-token string
      whose tokens all parse composes within i32. */
  predicate Str2DateDefined(s: string) {
    |Split(s)| == 3 ==> TokensFit(Split(s))
  }

  /** The three-token branch of `str2date`: year, month and day tokens
      recomposed as yyyymmdd, windowed when the year token has at most two
      characters (`len()` counts bytes, but a token that parses is ASCII). */
  function DateOfTokens(tokens: seq<string>): (r: Option<NaiveDate>)
    requires |tokens| == 3 && TokensFit(tokens)
    ensures r.Some? ==> ParseI32(tokens[0]).Some? && ParseI32(tokens[1]).Some? && ParseI32(tokens[2]).Some?
  {
    var y, m, d := ParseI32(tokens[0]), ParseI32(tokens[1]), ParseI32(tokens[2]);
    if y.Some? && m.Some? && d.Some? then Int2Date(y.value * 10000 + m.value * 100 + d.value, |tokens[0]| <= 2)
    else None
  }

  /** `str2date`: a string that is a whole i32 is read by `int2date` with
      windowing; otherwise it must split into exactly three integer tokens,
      year, month and day. */
  function Str2Date(s: string): (r: Option<NaiveDate>)
    requires Str2DateDefined(s)
    ensures ParseI32(s).Some? ==> r == Int2Date(ParseI32(s).value, true)
    ensures ParseI32(s).None? && |Split(s)| != 3 ==> r.None?
  {
    match ParseI32(s)
    case Some(v) => Int2Date(v, true)
    case None =>
      var tokens := Split(s);
      if |tokens| != 3 then None else DateOfTokens(tokens)
  }

  /** A string with a delimiter after its first character is not an integer. */
  lemma NotAnInteger(s: string, k: int)
    requires 1 <= k < |s| && IsDelimiter(s[k])
    ensures ParseI32(s).None?
  {
    var digits := if s[0] == '+' || s[0] == '-' then s[1..] else s;
    var j := if s[0] == '+' || s[0] == '-' then k - 1 else k;
    assert 0 <= j < |digits| && digits[j] == s[k] && !IsDigit(digits[j]);
  }

  /** Three delimiter-free tokens joined by two delimiters split back into
      the tokens, and the joined string is not an integer. */
  lemma ThreeTokenSplit(a: string, b: string, c: string, d1: char, d2: char)
    requires DelimiterFree(a) && DelimiterFree(b) && DelimiterFree(c)
    requires IsDelimiter(d1) && IsDelimiter(d2)
    ensures Split(Join([a, b, c], [d1, d2])) == [a, b, c]
    ensures ParseI32(Join([a, b, c], [d1, d2])).None?
  {
    var s := Join([a, b, c], [d1, d2]);
    assert s == a + [d1] + (b + [d2] + c) by {
      assert [a, b, c][1..] == [b, c] && [b, c][1..] == [c];
      assert Join([c], []) == c;
      assert Join([b, c], [d2]) == b + [d2] + c;
    }
    SplitJoin([a, b, c], [d1, d2]);
    NotAnInteger(s, |a| + 1 + |b|);
  }

  /** A string of three delimited tokens is read by the three-token branch. */
  lemma Str2DateOfJoin(a: string, b: string, c: string, d1: char, d2: char)
    requires DelimiterFree(a) && DelimiterFree(b) && DelimiterFree(c)
    requires IsDelimiter(d1) && IsDelimiter(d2)
    requires TokensFit([a, b, c])
    ensures Str2DateDefined(Join([a, b, c], [d1, d2]))
    ensures Str2Date(Join([a, b, c], [d1, d2])) == DateOfTokens([a, b, c])
  {
    ThreeTokenSplit(a, b, c, d1, d2);
  }

  /** The three-token form: `a`, `b`, `c` joined by any two delimiters read
      as year, month and day; windowing follows the width of `a`, and a
      token that is not an integer gives no date. */
  lemma Str2DateThreeTokens(a: string, b: string, c: string, d1: char, d2: char)
    requires DelimiterFree(a) && DelimiterFree(b) && DelimiterFree(c)
    requires IsDelimiter(d1) && IsDelimiter(d2)
    requires TokensFit([a, b, c])
    ensures Str2DateDefined(Join([a, b, c], [d1, d2]))
    ensures Str2Date(Join([a, b, c], [d1, d2]))
            == if ParseI32(a).Some? && ParseI32(b).Some? && ParseI32(c).Some?
               then Int2Date(ParseI32(a).value * 10000 + ParseI32(b).value * 100 + ParseI32(c).value, |a| <= 2)
               else None
  {
    Str2DateOfJoin(a, b, c, d1, d2);
    DateOfThreeTokens(a, b, c);
  }

  /** The three-token branch on the tokens `a`, `b`, `c` themselves. */
  lemma DateOfThreeTokens(a: string, b: string, c: string)
    requires TokensFit([a, b, c])
    ensures DateOfTokens([a, b, c])
            == if ParseI32(a).Some? && ParseI32(b).Some? && ParseI32(c).Some?
               then Int2Date(ParseI32(a).value * 10000 + ParseI32(b).value * 100 + ParseI32(c).value, |a| <= 2)
               else None
  {
    var tokens := [a, b, c];
    assert tokens[0] == a && tokens[1] == b && tokens[2] == c;
  }

  /** The delimiters do not matter: "1998-03-08", "1998/03/08", "1998.03.08"
      and "1998 03 08" read alike. */
  lemma Str2DateDelimiterInvariant(a: string, b: string, c: string, d1: char, d2: char, e1: char, e2: char)
    requires DelimiterFree(a) && DelimiterFree(b) && DelimiterFree(c)
    requires IsDelimiter(d1) && IsDelimiter(d2) && IsDelimiter(e1) && IsDelimiter(e2)
    requires Str2DateDefined(Join([a, b, c], [d1, d2]))
    ensures Str2DateDefined(Join([a, b, c], [e1, e2]))
    ensures Str2Date(Join([a, b, c], [d1, d2])) == Str2Date(Join([a, b, c], [e1, e2]))
  {
    ThreeTokenSplit(a, b, c, d1, d2);
    Str2DateThreeTokens(a, b, c, d1, d2);
    Str2DateThreeTokens(a, b, c, e1, e2);
  }

  /** A string without delimiters gives a date only as a whole integer. */
  lemma Str2DateUndelimited(s: string)
    requires DelimiterFree(s)
    ensures Str2DateDefined(s)
    ensures Str2Date(s) == if ParseI32(s).Some? then Int2Date(ParseI32(s).value, true) else None
  {
    SplitDelimiterFree(s);
  }

  /** Unsigned digits that fit in i32 read as a whole integer. */
  lemma Str2DateOfDigits(s: string)
    requires 1 <= |s| && AllDigits(s) && DigitsValue(s) <= I32Max
    ensures Str2DateDefined(s)
    ensures Str2Date(s) == Int2Date(DigitsValue(s), true)
  {
    ParseNatural(s);
    Str2DateUndelimited(s);
  }

  /** Cases of the source's tests of `str2date` on strings without
      delimiters. */
  lemma Str2DateUndelimitedExample()
    ensures Str2DateDefined("980308") && Str2Date("980308") == Some(Date(1998, 3, 8))
  {
    assert PrefixValue("980308", 6) == 980308;
    Str2DateOfDigits("980308");
    Int2DateExamples();
  }

  /** "98308" splits as day 8 of month 83 of 2009, which is no date. */
  lemma Str2DateFiveDigitExample()
    ensures Str2DateDefined("98308") && Str2Date("98308") == None
  {
    assert PrefixValue("98308", 5) == 98308;
    Str2DateOfDigits("98308");
    assert Int2Date(98308, true) == None;
  }

  /** "980338" has day 38. */
  lemma Str2DateBadDayExample()
    ensures Str2DateDefined("980338") && Str2Date("980338") == None
  {
    assert PrefixValue("980338", 6) == 980338;
    Str2DateOfDigits("980338");
    assert Int2Date(980338, true) == None;
  }

  /** "9a0308" is neither an integer nor three tokens. */
  lemma Str2DateNonNumericExample()
    ensures Str2DateDefined("9a0308") && Str2Date("9a0308") == None
  {
    assert !IsDigit("9a0308"[1]);
    Str2DateUndelimited("9a0308");
  }

  /** The source's tests of `str2date` on delimited strings, in three
      steps: the tokens parse, their joined form reads as yyyymmdd, and the
      joined form is the test string. */
  lemma DottedTokens()
    ensures DelimiterFree("98") && DelimiterFree("3") && DelimiterFree("08")
    ensures ParseI32("98") == Some(98) && ParseI32("3") == Some(3) && ParseI32("08") == Some(8)
  {
    assert PrefixValue("98", 2) == 98;
    assert PrefixValue("3", 1) == 3;
    assert PrefixValue("08", 2) == 8;
  }

  lemma DottedJoined()
    ensures Str2DateDefined(Join(["98", "3", "08"], ['.', '.']))
    ensures Str2Date(Join(["98", "3", "08"], ['.', '.'])) == Int2Date(980308, true)
  {
    DottedTokens();
    Str2DateThreeTokens("98", "3", "08", '.', '.');
    assert ParseI32("98").value * 10000 + ParseI32("3").value * 100 + ParseI32("08").value == 980308;
  }

  lemma DashedTokens()
    ensures DelimiterFree("22") && DelimiterFree("01") && DelimiterFree("02")
    ensures ParseI32("22") == Some(22) && ParseI32("01") == Some(1) && ParseI32("02") == Some(2)
  {
    assert PrefixValue("22", 2) == 22;
    assert PrefixValue("01", 2) == 1;
    assert PrefixValue("02", 2) == 2;
  }

  lemma DashedJoined()
    ensures Str2DateDefined(Join(["22", "01", "02"], ['-', '-']))
    ensures Str2Date(Join(["22", "01", "02"], ['-', '-'])) == Int2Date(220102, true)
  {
    DashedTokens();
    Str2DateThreeTokens("22", "01", "02", '-', '-');
    assert ParseI32("22").value * 10000 + ParseI32("01").value * 100 + ParseI32("02").value == 220102;
  }

  lemma SlashedTokens()
    ensures DelimiterFree("1998") && DelimiterFree("03") && DelimiterFree("08")
    ensures ParseI32("1998") == Some(1998) && ParseI32("03") == Some(3) && ParseI32("08") == Some(8)
  {
    assert PrefixValue("1998", 4) == 1998;
    assert PrefixValue("03", 2) == 3;
    assert PrefixValue("08", 2) == 8;
  }

  lemma SlashedJoined()
    ensures Str2DateDefined(Join(["1998", "03", "08"], ['/', '/']))
    ensures Str2Date(Join(["1998", "03", "08"], ['/', '/'])) == Int2Date(19980308, false)
  {
    SlashedTokens();
    Str2DateThreeTokens("1998", "03", "08", '/', '/');
    assert ParseI32("1998").value * 10000 + ParseI32("03").value * 100 + ParseI32("08").value == 19980308;
  }

  lemma SignedTokens()
    ensures DelimiterFree("+98") && DelimiterFree("3") && DelimiterFree("8")
    ensures ParseI32("+98") == Some(98) && ParseI32("3") == Some(3) && ParseI32("8") == Some(8)
  {
    ParseSignExamples();
    assert PrefixValue("3", 1) == 3;
    assert PrefixValue("8", 1) == 8;
  }

  lemma SignedJoined()
    ensures Str2DateDefined(Join(["+98", "3", "8"], ['.', '.']))
    ensures Str2Date(Join(["+98", "3", "8"], ['.', '.'])) == Int2Date(980308, false)
  {
    SignedTokens();
    Str2DateThreeTokens("+98", "3", "8", '.', '.');
    assert ParseI32("+98").value * 10000 + ParseI32("3").value * 100 + ParseI32("8").value == 980308;
  }

  lemma JoinExamples()
    ensures Join(["98", "3", "08"], ['.', '.']) == "98.3.08"
    ensures Join(["22", "01", "02"], ['-', '-']) == "22-01-02"
    ensures Join(["1998", "03", "08"], ['/', '/']) == "1998/03/08"
    ensures Join(["+98", "3", "8"], ['.', '.']) == "+98.3.8"
    ensures Join(["000", "01", "15"], ['.', '.']) == "000.01.15"
  {
  }

  lemma Str2DateDottedExample()
    ensures Str2DateDefined("98.3.08") && Str2Date("98.3.08") == Some(Date(1998, 3, 8))
  {
    DottedJoined();
    JoinExamples();
    Int2DateExamples();
  }

  lemma Str2DateDashedExample()
    ensures Str2DateDefined("22-01-02") && Str2Date("22-01-02") == Some(Date(2022, 1, 2))
  {
    DashedJoined();
    JoinExamples();
    Int2DateExamples();
  }

  lemma Str2DateSlashedExample()
    ensures Str2DateDefined("1998/03/08") && Str2Date("1998/03/08") == Some(Date(1998, 3, 8))
  {
    SlashedJoined();
    JoinExamples();
    Int2DateExamples();
  }

  /** A signed year token counts its sign in the width: "+98" has three
      characters, so "+98.3.8" is the year 98, not 1998. */
  lemma Str2DateSignedYearExample()
    ensures Str2DateDefined("+98.3.8") && Str2Date("+98.3.8") == Some(Date(98, 3, 8))
  {
    SignedJoined();
    JoinExamples();
    Int2DateExamples();
  }

  lemma YearZeroTokens()
    ensures DelimiterFree("000") && DelimiterFree("01") && DelimiterFree("15")
    ensures ParseI32("000") == Some(0) && ParseI32("01") == Some(1) && ParseI32("15") == Some(15)
  {
    assert PrefixValue("000", 3) == 0;
    assert PrefixValue("01", 2) == 1;
    assert PrefixValue("15", 2) == 15;
  }

  lemma YearZeroJoined()
    ensures Str2DateDefined(Join(["000", "01", "15"], ['.', '.']))
    ensures Str2Date(Join(["000", "01", "15"], ['.', '.'])) == Int2Date(115, false)
  {
    YearZeroTokens();
    Str2DateThreeTokens("000", "01", "15", '.', '.');
    assert ParseI32("000").value * 10000 + ParseI32("01").value * 100 + ParseI32("15").value == 115;
  }

  /** A three-character year token of zeros is the year 0 itself. */
  lemma Str2DateYearZeroExample()
    ensures Str2DateDefined("000.01.15") && Str2Date("000.01.15") == Some(Date(0, 1, 15))
  {
    YearZeroJoined();
    JoinExamples();
    Int2DateExamples();
  }

  /** The input vector of `rust_ymd`, by R type; `None` is `NA`. */
  datatype HostVector =
    | Integers(ints: seq<Option<int>>)
    | Reals(reals: seq<Option<real>>)
    | Strings(strs: seq<Option<string>>)

  function HostLength(x: HostVector): nat {
    match x
    case Integers(v) => |v|
    case Reals(v) => |v|
    case Strings(v) => |v|
  }

  /** R integers are i32, and each string must satisfy `str2date`'s needs. */
  predicate HostValid(x: HostVector) {
    match x
    case Integers(v) => forall i :: 0 <= i < |v| && v[i].Some? ==> IsI32(v[i].value)
    case Reals(_) => true
    case Strings(v) => forall i :: 0 <= i < |v| && v[i].Some? ==> Str2DateDefined(v[i].value)
  }

  /** The `value` vector of `rust_ymd`: each element read by the parser for
      its R type, `NA` kept missing at its index. */
  function ParseHost(x: HostVector): (r: seq<Option<NaiveDate>>)
    requires HostValid(x)
    ensures |r| == HostLength(x)
    ensures x.Integers? ==> forall i :: 0 <= i < |r| ==>
              r[i] == if x.ints[i].Some? then Int2Date(x.ints[i].value, true) else None
    ensures x.Reals? ==> forall i :: 0 <= i < |r| ==>
              r[i] == if x.reals[i].Some? then Dbl2Date(x.reals[i].value) else None
    ensures x.Strings? ==> forall i :: 0 <= i < |r| ==>
              r[i] == if x.strs[i].Some? then Str2Date(x.strs[i].value) else None
  {
    match x
    case Integers(v) => BindPresent(v, (k: int) requires IsI32(k) => Int2Date(k, true))
    case Reals(v) => BindPresent(v, Dbl2Date)
    case Strings(v) => BindPresent(v, (s: string) requires Str2DateDefined(s) => Str2Date(s))
  }

  /** `rust_ymd`: the parsed dates as R day numbers; reading them back as
      dates gives exactly the parsed vector. */
  function RustYmd(x: HostVector): (r: seq<Option<int>>)
    requires HostValid(x)
    ensures |r| == HostLength(x)
    ensures forall i :: 0 <= i < |r| ==> (r[i].Some? <==> ParseHost(x)[i].Some?)
    ensures forall i :: 0 <= i < |r| && r[i].Some? ==> r[i].value == RDate.DateToRNum(ParseHost(x)[i].value)
    ensures RDate.DecodableRNums(r) && RDate.Robj2Date(r) == ParseHost(x)
  {
    RDate.VectorRoundTrip(ParseHost(x));
    RDate.ToRDate(ParseHost(x))
  }

  /** The shape shared by `beop` and `edate`: map the present dates and
      write the result out as R day numbers. */
  function EncodeMapped(dates: seq<Option<NaiveDate>>, f: NaiveDate --> NaiveDate): (r: seq<Option<int>>)
    requires forall i :: 0 <= i < |dates| && dates[i].Some? ==> f.requires(dates[i].value)
    ensures |r| == |dates|
    ensures forall i :: 0 <= i < |dates| ==>
              r[i] == if dates[i].Some? then Some(RDate.DateToRNum(f(dates[i].value))) else None
  {
    RDate.ToRDate(MapPresent(dates, f))
  }

  /** The boundary in `period` of each present date, as R day numbers. */
  function MapBoundary(dates: seq<Option<NaiveDate>>, period: Periods.Period,
                       boundary: (NaiveDate, Periods.Period) --> NaiveDate): (r: seq<Option<int>>)
    requires forall i :: 0 <= i < |dates| && dates[i].Some? ==> boundary.requires(dates[i].value, period)
    ensures |r| == |dates|
    ensures forall i :: 0 <= i < |r| ==>
              r[i] == if dates[i].Some? then Some(RDate.DateToRNum(boundary(dates[i].value, period))) else None
  {
    EncodeMapped(dates, (d: NaiveDate) requires boundary.requires(d, period) => boundary(d, period))
  }

  /** `beop` once the period is known: the boundary of each parsed date, as
      R day numbers. */
  function BeopKnown(x: HostVector, period: Periods.Period, boundary: (NaiveDate, Periods.Period) --> NaiveDate)
    : (r: seq<Option<int>>)
    requires HostValid(x)
    requires forall i :: 0 <= i < HostLength(x) && ParseHost(x)[i].Some? ==>
               boundary.requires(ParseHost(x)[i].value, period)
    ensures |r| == HostLength(x)
    ensures forall i :: 0 <= i < |r| ==>
              r[i] == if ParseHost(x)[i].Some?
                      then Some(RDate.DateToRNum(boundary(ParseHost(x)[i].value, period)))
                      else None
  {
    MapBoundary(RDate.Robj2Date(RustYmd(x)), period, boundary)
  }

  /** `beop`: `NA` for every element when the period name is unknown
      (`None`); otherwise the boundary of each parsed date, as R day numbers. */
  function Beop(x: HostVector, p: Option<Periods.Period>, boundary: (NaiveDate, Periods.Period) --> NaiveDate)
    : (r: seq<Option<int>>)
    requires p.Some? ==> HostValid(x)
    requires p.Some? ==> forall i :: 0 <= i < HostLength(x) && ParseHost(x)[i].Some? ==>
               boundary.requires(ParseHost(x)[i].value, p.value)
    ensures |r| == HostLength(x)
    ensures p.None? ==> forall i :: 0 <= i < |r| ==> r[i].None?
    ensures p.Some? ==> forall i :: 0 <= i < |r| ==>
              r[i] == if ParseHost(x)[i].Some?
                      then Some(RDate.DateToRNum(boundary(ParseHost(x)[i].value, p.value)))
                      else None
  {
    match p
    case None => RDate.ToRDate(seq(HostLength(x), _ => None))
    case Some(period) => BeopKnown(x, period, boundary)
  }

  /** `period_begin`: with an unknown unit every element is `NA` and
      nothing is parsed. */
  function PeriodBegin(x: HostVector, p: Option<Periods.Period>): (r: seq<Option<int>>)
    requires p.Some? ==> HostValid(x)
    requires p.Some? ==> forall i :: 0 <= i < HostLength(x) && ParseHost(x)[i].Some? ==>
               Periods.BopDefined(ParseHost(x)[i].value, p.value)
    ensures |r| == HostLength(x)
    ensures p.None? ==> forall i :: 0 <= i < |r| ==> r[i].None?
    ensures p.Some? ==> forall i :: 0 <= i < |r| ==> (r[i].Some? <==> ParseHost(x)[i].Some?)
    ensures p.Some? ==> forall i :: 0 <= i < |r| && r[i].Some? ==>
              r[i].value == RDate.DateToRNum(Periods.Bop(ParseHost(x)[i].value, p.value))
  {
    Beop(x, p, Periods.Bop)
  }

  /** `period_end`: with an unknown unit every element is `NA` and
      nothing is parsed. */
  function PeriodEnd(x: HostVector, p: Option<Periods.Period>): (r: seq<Option<int>>)
    requires p.Some? ==> HostValid(x)
    requires p.Some? ==> forall i :: 0 <= i < HostLength(x) && ParseHost(x)[i].Some? ==>
               Periods.EopDefined(ParseHost(x)[i].value, p.value)
    ensures |r| == HostLength(x)
    ensures p.None? ==> forall i :: 0 <= i < |r| ==> r[i].None?
    ensures p.Some? ==> forall i :: 0 <= i < |r| ==> (r[i].Some? <==> ParseHost(x)[i].Some?)
    ensures p.Some? ==> forall i :: 0 <= i < |r| && r[i].Some? ==>
              r[i].value == RDate.DateToRNum(Periods.Eop(ParseHost(x)[i].value, p.value))
  {
    Beop(x, p, Periods.Eop)
  }

  /** Element by element, `period_begin` <= the parsed date <= `period_end`. */
  lemma PeriodBracket(x: HostVector, p: Periods.Period, i: int)
    requires HostValid(x) && 0 <= i < HostLength(x) && ParseHost(x)[i].Some?
    requires forall j :: 0 <= j < HostLength(x) && ParseHost(x)[j].Some? ==>
               Periods.BopDefined(ParseHost(x)[j].value, p) && Periods.EopDefined(ParseHost(x)[j].value, p)
    ensures PeriodBegin(x, Some(p))[i].Some? && PeriodEnd(x, Some(p))[i].Some?
    ensures PeriodBegin(x, Some(p))[i].value <= RDate.DateToRNum(ParseHost(x)[i].value) <= PeriodEnd(x, Some(p))[i].value
  {
    var d := ParseHost(x)[i].value;
    Periods.BopEopBracket(d, p);
    RDate.RNumOrder(Periods.Bop(d, p), d);
    RDate.RNumOrder(d, Periods.Eop(d, p));
  }

  /** `edate`: every parsed date moved by `months` months with end-of-month
      clamping, as R day numbers. */
  function Edate(x: HostVector, months: int): (r: seq<Option<int>>)
    requires HostValid(x)
    requires forall i :: 0 <= i < HostLength(x) && ParseHost(x)[i].Some? ==>
               Periods.AddMonthsDefined(ParseHost(x)[i].value, months)
    ensures |r| == HostLength(x)
    ensures forall i :: 0 <= i < |r| ==> (r[i].Some? <==> ParseHost(x)[i].Some?)
    ensures forall i :: 0 <= i < |r| && r[i].Some? ==>
              r[i].value == RDate.DateToRNum(Periods.AddMonths(ParseHost(x)[i].value, months))
  {
    var dates := RDate.Robj2Date(RustYmd(x));
    EncodeMapped(dates, (d: NaiveDate) requires Periods.AddMonthsDefined(d, months) => Periods.AddMonths(d, months))
  }

  /** Shifting by zero months gives back the parsed dates themselves. */
  lemma EdateZero(x: HostVector)
    requires HostValid(x)
    requires forall i :: 0 <= i < HostLength(x) && ParseHost(x)[i].Some? ==>
               Periods.AddMonthsDefined(ParseHost(x)[i].value, 0)
    ensures Edate(x, 0) == RustYmd(x)
  {
    var r := Edate(x, 0);
    forall i | 0 <= i < |r| && r[i].Some?
      ensures r[i] == RustYmd(x)[i]
    {
      Periods.AddMonthsZero(ParseHost(x)[i].value);
    }
  }

  /** `edate` of a single string that parses: the shifted date, encoded. With
      `Str2DateYearZeroExample` and `Periods.AddMonthsAsWrittenYearZeroExample`
      this gives `edate("000.01.15", -1)` as -0001-12-15, where the
      truncating code panics. */
  lemma EdateSingle(s: string, d: NaiveDate, months: int)
    requires Str2DateDefined(s) && Str2Date(s) == Some(d)
    requires Periods.AddMonthsDefined(d, months)
    ensures HostValid(Strings([Some(s)])) && ParseHost(Strings([Some(s)])) == [Some(d)]
    ensures Edate(Strings([Some(s)]), months) == [Some(RDate.DateToRNum(Periods.AddMonths(d, months)))]
  {
    assert ParseHost(Strings([Some(s)]))[0] == Some(d);
  }

  /** The functions `make_date_part_fun!` generates: parse, write out as R
      dates, read back, and apply the extractor; the detour through R day
      numbers leaves the dates unchanged. */
  function DatePart(x: HostVector, part: seq<Option<NaiveDate>> -> seq<Option<int>>): (r: seq<Option<int>>)
    requires HostValid(x)
    ensures r == part(ParseHost(x))
  {
    part(RDate.Robj2Date(RustYmd(x)))
  }
}
