/** The GitHub trending pipeline's record handling (github/github.py): the count parser, the
    fields taken from one scraped trending row, the loop over the rows, the "seen repositories"
    set, the newness filter and the ranking by stargazer count. The HTML page enters as one
    `RawRow` per `article.Box-row` element, holding the texts of the elements the scraper
    selects. */
module GithubTrending {
  import opened Py
  import opened PyStr
  import Seqs
  import Ranking

  // ---------------------------------------------------------------------------------------
  // Counts

  /** The nested `convert_to_number`: lower-case and strip, then read the count. */
  function ConvertToNumber(value: string): Result<int> {
    ReadCount(Strip(Lower(value)))
  }

  /** A lower-cased, stripped count: with a `k`, every `k` is dropped and the rest read as a
      decimal number of thousands, truncated toward zero; otherwise the commas are dropped
      and the rest read as an integer. */
  function ReadCount(v: string): Result<int> {
    if 'k' in v then
      match ParseFloat(RemoveChar(v, 'k'))
      case Ok(d) => Ok(DivTowardZero(d.num * 1000, Pow10(d.scale)))
      case Err(e) => Err(e)
    else ParseInt(RemoveChar(v, ','))
  }

  /** Text without upper-case letters is left as it is by `lower()`. */
  lemma LowerNoUpper(s: string)
    requires forall i :: 0 <= i < |s| ==> !('A' <= s[i] <= 'Z')
    ensures Lower(s) == s
  {
  }

  lemma {:induction false} LowerAppend(a: string, b: string)
    ensures Lower(a + b) == Lower(a) + Lower(b)
  {
    if a == [] {
      assert a + b == b;
    } else {
      assert (a + b)[0] == a[0] && (a + b)[1..] == a[1..] + b;
      LowerAppend(a[1..], b);
    }
  }

  lemma LowerSpace(s: string)
    requires AllSpace(s)
    ensures Lower(s) == s
  {
    forall i | 0 <= i < |s| ensures !('A' <= s[i] <= 'Z') {
      assert s[i] in s;
    }
  }

  /** What `lower()`, `replace` and `split` see of a numeral. */
  lemma DigitsFacts(t: string)
    requires AllDigits(t)
    ensures Lower(t) == t && '.' !in t && ',' !in t && 'k' !in t && '_' !in t
  {
    forall i | 0 <= i < |t| ensures t[i] != '.' && t[i] != ',' && t[i] != 'k' && t[i] != '_' { }
    LowerNoUpper(t);
  }

  lemma DigitsAreDigitPart(d: string)
    requires |d| >= 1 && AllDigits(d)
    ensures IsDigitPart(d) && RemoveChar(d, '_') == d
  {
    assert forall i :: 0 <= i < |d| ==> DigitPartAt(d, i);
    DigitsFacts(d);
    RemoveCharAbsent(d, '_');
  }

  lemma RemoveCharAbsent(s: string, c: char)
    requires c !in s
    ensures RemoveChar(s, c) == s
  {
  }

  lemma DigitNotSpace(c: char)
    requires IsDigit(c)
    ensures !IsSpace(c)
  {
  }

  /** Text that `lower()` leaves alone stays so when joined. */
  lemma LowerJoined(a: string, sep: char, b: string)
    requires Lower(a) == a && Lower(b) == b && !('A' <= sep <= 'Z')
    ensures Lower(a + [sep] + b) == a + [sep] + b
  {
    LowerAppend(a + [sep], b);
    LowerAppend(a, [sep]);
    assert Lower([sep]) == [sep];
  }

  /** `f"{a}{sep}{b}"` for two numerals and a separator that is neither a letter nor a
      space: `lower()` and `strip()` leave it alone. */
  lemma JoinedText(a: string, sep: char, b: string)
    requires |a| >= 1 && |b| >= 1 && AllDigits(a) && AllDigits(b)
    requires !('A' <= sep <= 'Z') && sep != 'k'
    ensures var t := a + [sep] + b;
      Lower(t) == t && Strip(t) == t && 'k' !in t
  {
    DigitsFacts(a);
    DigitsFacts(b);
    LowerJoined(a, sep, b);
    JoinedStrip(a, sep, b);
  }

  /** Text that starts and ends with a digit has no whitespace to strip. */
  lemma JoinedStrip(a: string, sep: char, b: string)
    requires |a| >= 1 && |b| >= 1 && IsDigit(a[0]) && IsDigit(b[|b| - 1])
    ensures var t := a + [sep] + b; Strip(t) == t && t[0] == a[0]
  {
    var t := a + [sep] + b;
    assert t[|t| - 1] == b[|b| - 1] && t[0] == a[0];
    DigitNotSpace(a[0]);
    DigitNotSpace(b[|b| - 1]);
    StripUnchanged(t);
  }

  /** Text that starts with a digit has no sign. */
  lemma Unsigned(t: string)
    requires t != [] && IsDigit(t[0])
    ensures SplitSign(t) == (false, t)
  {
  }

  /** Surrounding whitespace is ignored. */
  lemma ConvertPadded(left: string, value: string, right: string)
    requires AllSpace(left) && AllSpace(right)
    requires Lower(value) == value && value != [] && !IsSpace(value[0]) && !IsSpace(value[|value| - 1])
    ensures ConvertToNumber(left + value + right) == ConvertToNumber(value)
  {
    LowerSpace(left);
    LowerSpace(right);
    LowerAppend(left + value, right);
    LowerAppend(left, value);
    StripPadded(left, value, right);
    StripUnchanged(value);
  }

  /** The branch without `k`: a value whose text, once its commas are gone, is a numeral,
      counts the numeral's value. */
  lemma ConvertPlain(value: string, d: string)
    requires 'k' !in Strip(Lower(value))
    requires |d| >= 1 && AllDigits(d) && RemoveChar(Strip(Lower(value)), ',') == d
    ensures ConvertToNumber(value) == Ok(DigitsValue(d))
  {
    DigitsAreDigitPart(d);
    ParseNumeral(false, d);
    assert [] + d == d;
  }

  /** The `k` branch: a value whose float part reads as the decimal `d` counts `d * 1000`
      truncated toward zero, that is, the count times `10^scale` is no farther from zero than
      `d.num * 1000` and less than one `10^scale` short of it. */
  lemma ConvertAbbreviated(value: string, d: FixedPoint)
    requires 'k' in Strip(Lower(value))
    requires ParseFloat(RemoveChar(Strip(Lower(value)), 'k')) == Ok(d)
    ensures ConvertToNumber(value).Ok?
    ensures Truncates(d.num * 1000, Pow10(d.scale), ConvertToNumber(value).value)
  {
    var q := DivTowardZero(d.num * 1000, Pow10(d.scale));
    assert ReadCount(Strip(Lower(value))) == Ok(q);
  }

  /** A plain numeral reads back as its value: `convert_to_number(str(n)) == n`. */
  lemma ConvertDecimal(n: nat)
    ensures ConvertToNumber(Decimal(n)) == Ok(n)
  {
    var d := Decimal(n);
    DigitsFacts(d);
    StripUnchanged(d);
    RemoveCharAbsent(d, ',');
    ConvertPlain(d, d);
    DecimalValue(n);
  }

  /** Only the commas go: `replace(',', '')` of `f"{a},{b}"` is `a + b`. */
  lemma GroupedDigits(a: string, b: string)
    requires AllDigits(a) && AllDigits(b)
    ensures RemoveChar(a + "," + b, ',') == a + b && AllDigits(a + b)
  {
    DigitsLack(a, ',');
    DigitsLack(b, ',');
    DigitsAppend(a, b);
    RemoveCharAppend(a + ",", b, ',');
    RemoveCharSnoc(a, ',');
    RemoveCharAbsent(a, ',');
    RemoveCharAbsent(b, ',');
  }

  /** A numeral holds nothing but digits. */
  lemma DigitsLack(t: string, c: char)
    requires AllDigits(t) && !IsDigit(c)
    ensures c !in t
  {
  }

  lemma DigitsAppend(a: string, b: string)
    requires AllDigits(a) && AllDigits(b)
    ensures AllDigits(a + b)
  {
    var d := a + b;
    forall i | 0 <= i < |d| ensures IsDigit(d[i]) {
      if i >= |a| {
        assert d[i] == b[i - |a|];
      }
    }
  }

  /** `(a + c).replace(c, '')` is `a.replace(c, '')`. */
  lemma RemoveCharSnoc(a: string, c: char)
    ensures RemoveChar(a + [c], c) == RemoveChar(a, c)
  {
    RemoveCharAppend(a, [c], c);
    RemoveCharOne(c, c);
    assert RemoveChar(a, c) + [] == RemoveChar(a, c);
  }

  lemma GroupedValue(n: nat, m: nat)
    requires m < 1000
    ensures |PadDecimal(m, 3)| == 3
    ensures DigitsValue(Decimal(n) + PadDecimal(m, 3)) == n * 1000 + m
  {
    DecimalLength(m, 3);
    DigitsValueAppend(Decimal(n), PadDecimal(m, 3));
    DecimalValue(n);
    PadDecimalValue(m, 3);
    assert Pow10(3) == 1000;
  }

  /** `f"{a},{b}"` for two numerals counts the numeral `a + b`. */
  lemma ConvertJoined(a: string, b: string)
    requires |a| >= 1 && |b| >= 1 && AllDigits(a) && AllDigits(b)
    ensures AllDigits(a + b) && ConvertToNumber(a + "," + b) == Ok(DigitsValue(a + b))
  {
    JoinedText(a, ',', b);
    assert a + "," + b == a + [','] + b;
    GroupedDigits(a, b);
    ConvertPlain(a + "," + b, a + b);
  }

  /** Thousands separators are dropped: `convert_to_number(f"{n},{m:03}") == n * 1000 + m`. */
  lemma ConvertGrouped(n: nat, m: nat)
    requires m < 1000
    ensures ConvertToNumber(Decimal(n) + "," + PadDecimal(m, 3)) == Ok(n * 1000 + m)
  {
    GroupedValue(n, m);
    var count: Result<int> := Ok(DigitsValue(Decimal(n) + PadDecimal(m, 3)));
    assert count == Ok(n * 1000 + m);
    ConvertJoined(Decimal(n), PadDecimal(m, 3));
  }

  lemma GroupedExampleText()
    ensures Decimal(1) + "," + PadDecimal(234, 3) == "1,234"
  {
    assert Decimal(234) == "234";
  }

  lemma GroupedExampleLower()
    ensures Lower("1,234") == "1,234"
  {
    GroupedExampleText();
    JoinedText(Decimal(1), ',', PadDecimal(234, 3));
    assert Decimal(1) + "," + PadDecimal(234, 3) == Decimal(1) + [','] + PadDecimal(234, 3);
  }

  /** The thousands separator and the surrounding whitespace are ignored: `" 1,234 "` counts
      1234. */
  lemma ConvertGroupedExample()
    ensures ConvertToNumber(" 1,234 ") == Ok(1234)
  {
    GroupedExampleText();
    ConvertGrouped(1, 234);
    PaddedExample();
  }

  lemma PaddedExample()
    ensures ConvertToNumber(" 1,234 ") == ConvertToNumber("1,234")
  {
    GroupedExampleLower();
    assert AllSpace(" ");
    assert " 1,234 " == " " + "1,234" + " ";
    ConvertPadded(" ", "1,234", " ");
  }

  /** Text that `lower()` leaves alone and that holds no `k` of its own, followed by `k`:
      `strip()` leaves it alone too, and `replace('k', '')` gives the text back. */
  lemma ThousandsText(t: string)
    requires Lower(t) == t && 'k' !in t && t != [] && IsDigit(t[0])
    ensures Strip(Lower(t + "k")) == t + "k"
    ensures 'k' in t + "k" && RemoveChar(t + "k", 'k') == t
  {
    var s := t + "k";
    LowerAppend(t, "k");
    assert Lower("k") == "k";
    assert s[|s| - 1] == 'k' && s[0] == t[0];
    StripUnchanged(s);
    RemoveCharAppend(t, "k", 'k');
    RemoveCharOne('k', 'k');
    RemoveCharAbsent(t, 'k');
  }

  /** `float(str(n)) == n` */
  lemma ParseFloatNumeral(n: nat)
    ensures ParseFloat(Decimal(n)) == Ok(Fixed(n, 0))
  {
    var d := Decimal(n);
    DigitsFacts(d);
    StripUnchanged(d);
    assert SplitSign(d) == (false, d);
    SplitPiece(d, '.');
    DecimalIsDigitPart(n);
    DecimalValue(n);
    assert DigitPartValue(d) == n;
  }

  /** `f"{w}.{f}".split('.') == [w, f]` for numerals `w` and `f` */
  lemma SplitPoint(w: string, f: string)
    requires AllDigits(w) && AllDigits(f)
    ensures Split(w + "." + f, '.') == [w, f]
  {
    DigitsFacts(w);
    DigitsFacts(f);
    SplitJoin([w, f], '.');
    assert Join([w, f], '.') == w + "." + f by {
      assert [w, f][1..] == [f];
    }
  }

  /** `float(f"{n}.{d}")` is `n` and `d` tenths. */
  lemma ParseFloatTenths(n: nat, d: nat)
    requires d < 10
    ensures ParseFloat(Decimal(n) + "." + [DigitChar(d)]) == Ok(Fixed(n * 10 + d, 1))
  {
    var w := Decimal(n);
    var f := [DigitChar(d)];
    var t := w + "." + f;
    var expected: Result<FixedPoint> := Ok(Fixed(n * Pow10(1) + d, 1));
    assert expected == Ok(Fixed(n * 10 + d, 1));
    TenthsParts(n, d);
    TenthsDigits(n, d);
    assert ParseUnsignedDecimal(t) == expected;
  }

  /** `f"{n}.{d}"` has no sign or whitespace and falls apart at its point. */
  lemma TenthsParts(n: nat, d: nat)
    requires d < 10
    ensures var t := Decimal(n) + "." + [DigitChar(d)];
      SplitSign(Strip(t)) == (false, t) && Split(t, '.') == [Decimal(n), [DigitChar(d)]]
  {
    TenthsUnsigned(n, d);
    SplitPoint(Decimal(n), [DigitChar(d)]);
  }

  lemma TenthsUnsigned(n: nat, d: nat)
    requires d < 10
    ensures var t := Decimal(n) + "." + [DigitChar(d)]; SplitSign(Strip(t)) == (false, t)
  {
    var w, f := Decimal(n), [DigitChar(d)];
    var t := w + "." + f;
    assert t[0] == w[0] && t[|t| - 1] == f[0];
    DigitsUnsigned(t);
  }

  /** Text that starts and ends with a digit has no surrounding whitespace and no sign. */
  lemma DigitsUnsigned(t: string)
    requires t != [] && IsDigit(t[0]) && IsDigit(t[|t| - 1])
    ensures SplitSign(Strip(t)) == (false, t)
  {
    DigitNotSpace(t[0]);
    DigitNotSpace(t[|t| - 1]);
    StripUnchanged(t);
    Unsigned(t);
  }

  /** The two pieces of `f"{n}.{d}"` read as `n` and as one digit `d`. */
  lemma TenthsDigits(n: nat, d: nat)
    requires d < 10
    ensures IsDigitPart(Decimal(n)) && DigitPartValue(Decimal(n)) == n
    ensures IsDigitPart([DigitChar(d)]) && DigitPartValue([DigitChar(d)]) == d
    ensures |RemoveChar([DigitChar(d)], '_')| == 1
  {
    DecimalIsDigitPart(n);
    DecimalValue(n);
    var f := [DigitChar(d)];
    DigitsAreDigitPart(f);
    assert DigitsValue(f) == d by {
      assert f[..0] == [];
    }
  }

  /** A whole number of thousands loses nothing to the truncation. */
  lemma ThousandsExact(n: nat, f: FixedPoint, r: Result<int>)
    requires f == Fixed(n, 0)
    requires r.Ok? && Truncates(f.num * 1000, Pow10(f.scale), r.value)
    ensures r == Ok(n * 1000)
  {
    assert Pow10(0) == 1;
  }

  /** Nor does a number of thousands with one decimal. */
  lemma TenthsExact(n: nat, d: nat, f: FixedPoint, r: Result<int>)
    requires f == Fixed(n * 10 + d, 1)
    requires r.Ok? && Truncates(f.num * 1000, Pow10(f.scale), r.value)
    ensures r == Ok(n * 1000 + d * 100)
  {
    var c := n * 1000 + d * 100;
    assert Pow10(1) == 10;
    assert (n * 10 + d) * 1000 == c * 10;
  }

  /** A numeral of thousands: `convert_to_number(str(n) + "k") == n * 1000`. */
  lemma ConvertThousands(n: nat)
    ensures ConvertToNumber(Decimal(n) + "k") == Ok(n * 1000)
  {
    var d := Decimal(n);
    DigitsFacts(d);
    ThousandsText(d);
    ParseFloatNumeral(n);
    ConvertAbbreviated(d + "k", Fixed(n, 0));
    ThousandsExact(n, Fixed(n, 0), ConvertToNumber(d + "k"));
  }

  /** One decimal of thousands: `convert_to_number(f"{n}.{d}k") == n * 1000 + d * 100`. */
  lemma ConvertTenthsOfThousands(n: nat, d: nat)
    requires d < 10
    ensures ConvertToNumber(Decimal(n) + "." + [DigitChar(d)] + "k") == Ok(n * 1000 + d * 100)
  {
    var fx := Fixed(n * 10 + d, 1);
    var t := Decimal(n) + "." + [DigitChar(d)];
    TenthsText(n, d);
    ParseFloatTenths(n, d);
    ConvertAbbreviated(t + "k", fx);
    TenthsExact(n, d, fx, ConvertToNumber(t + "k"));
  }

  lemma TenthsText(n: nat, d: nat)
    requires d < 10
    ensures var t := Decimal(n) + "." + [DigitChar(d)];
      Strip(Lower(t + "k")) == t + "k" && 'k' in t + "k" && RemoveChar(t + "k", 'k') == t
  {
    var t := Decimal(n) + "." + [DigitChar(d)];
    JoinedText(Decimal(n), '.', [DigitChar(d)]);
    assert t == Decimal(n) + ['.'] + [DigitChar(d)];
    assert t[0] == Decimal(n)[0];
    ThousandsText(t);
  }

  /** `"1.2k"` counts 1200, and so does `"1.2K"`. */
  lemma ConvertAbbreviatedExample()
    ensures ConvertToNumber("1.2k") == Ok(1200)
    ensures ConvertToNumber("1.2K") == Ok(1200)
  {
    ExampleText();
    ConvertTenthsOfThousands(1, 2);
  }

  lemma ExampleText()
    ensures Decimal(1) + "." + [DigitChar(2)] + "k" == "1.2k"
    ensures Strip(Lower("1.2K")) == Strip(Lower("1.2k"))
  {
    LowerAppend("1.2", "K");
    LowerAppend("1.2", "k");
    assert "1.2K" == "1.2" + "K" && "1.2k" == "1.2" + "k";
    assert Lower("K") == Lower("k");
  }


  // ---------------------------------------------------------------------------------------
  // One trending row

  /** What the scraper reads from one `article.Box-row` element: the `.text` of each element
      it looks up with `select_one` (`None` when there is no such element), and the `.text`
      of every `a.Link--muted` element in page order. */
  datatype RawRow = RawRow(
    link: Option<string>,
    description: Option<string>,
    language: Option<string>,
    stats: seq<string>,
    starsToday: Option<string>)

  /** A `repo_dict`. The scraper never sets `stargazers_count`; the ranking reads it with
      `get`, so it is kept here as a value that may be absent. */
  datatype Repo = Repo(
    fullName: string,
    htmlUrl: string,
    description: string,
    language: string,
    totalStars: int,
    starsToday: int,
    forksCount: int,
    stargazersCount: Option<int>)

  const GithubPrefix: string := "https://github.com/"

  /** `repo_link.text.strip().replace('\n', '').replace(' ', '')`: no space and no newline is
      left, and every other character of the stripped text is kept. */
  function FullName(linkText: string): (r: string)
    ensures ' ' !in r && '\n' !in r
    ensures forall c :: c in r <==> c in Strip(linkText) && c != ' ' && c != '\n'
  {
    RemoveChar(RemoveChar(Strip(linkText), '\n'), ' ')
  }

  /** The characters a repository name keeps. */
  predicate NameChar(c: char) {
    c != ' ' && c != '\n'
  }

  /** The two replacements keep, in order, exactly the characters of the stripped text that
      are neither a space nor a newline. */
  lemma FullNameFilter(linkText: string)
    ensures FullName(linkText) == Seqs.Filter(Strip(linkText), NameChar)
  {
    RemoveBothFilter(Strip(linkText));
  }

  lemma {:induction false} RemoveBothFilter(s: string)
    ensures RemoveChar(RemoveChar(s, '\n'), ' ') == Seqs.Filter(s, NameChar)
  {
    if s != [] {
      RemoveBothFilter(s[1..]);
      var h := if s[0] == '\n' then [] else [s[0]];
      assert RemoveChar(s, '\n') == h + RemoveChar(s[1..], '\n');
      RemoveCharAppend(h, RemoveChar(s[1..], '\n'), ' ');
      RemoveCharOne(s[0], ' ');
    }
  }

  /** `f"https://github.com/{full_name}"` */
  function HtmlUrl(fullName: string): string {
    GithubPrefix + fullName
  }

  /** The repository URL gives its name back: it is the text after the fixed prefix. */
  lemma HtmlUrlName(fullName: string)
    ensures |HtmlUrl(fullName)| == |GithubPrefix| + |fullName|
    ensures HtmlUrl(fullName)[..|GithubPrefix|] == GithubPrefix
    ensures HtmlUrl(fullName)[|GithubPrefix|..] == fullName
  {
  }

  lemma HtmlUrlInjective(a: string, b: string)
    requires HtmlUrl(a) == HtmlUrl(b)
    ensures a == b
  {
    HtmlUrlName(a);
    HtmlUrlName(b);
  }

  /** `element.text.strip() if element else default`. A bs4 element found by `select_one` is
      always truthy, so only its absence selects the default. */
  function TextOr(element: Option<string>, default: string): (r: string)
    ensures element.None? ==> r == default
    ensures element.Some? ==> r == Strip(element.value)
  {
    match element
    case Some(text) => Strip(text)
    case None => default
  }

  /** `stats[i].text.strip()` when there is an `i`-th stat, `"0"` when there is not; the
      source writes the test as `if stats` for `i == 0` and `if len(stats) > 1` for `i == 1`. */
  function StatText(stats: seq<string>, i: nat): (r: string)
    ensures i < |stats| ==> r == Strip(stats[i])
    ensures i >= |stats| ==> r == "0"
  {
    if i < |stats| then Strip(stats[i]) else "0"
  }

  /** `stars_text.split(' ')[0]` of the stripped stars-today text, `"0"` without the element. */
  function StarsTodayText(element: Option<string>): string {
    match element
    case Some(text) => Split(Strip(text), ' ')[0]
    case None => "0"
  }

  /** Stars today are the first word of the stripped text: the longest space-free start of
      it, the whole text when it has no space. */
  lemma StarsTodayFirstWord(text: string)
    ensures var s, w := Strip(text), StarsTodayText(Some(text));
      && ' ' !in w && |w| <= |s| && w == s[..|w|]
      && (|w| < |s| ==> s[|w|] == ' ')
      && (' ' !in s ==> w == s)
  {
    SplitHead(Strip(text), ' ');
  }

  /** The body of the scraping loop for one row: the name and URL from the link, the
      description and language with their defaults, and the three counts. A missing link
      raises AttributeError (`None.text`); a count that does not parse raises ValueError. */
  function ExtractRow(row: RawRow): (r: Result<Repo>)
    ensures r.Ok? <==>
      && row.link.Some?
      && ConvertToNumber(StatText(row.stats, 0)).Ok?
      && ConvertToNumber(StarsTodayText(row.starsToday)).Ok?
      && ConvertToNumber(StatText(row.stats, 1)).Ok?
    ensures row.link.None? ==> r == Err(AttributeError)
    ensures r.Ok? ==>
      && r.value.fullName == FullName(row.link.value)
      && r.value.htmlUrl == HtmlUrl(r.value.fullName)
      && r.value.description == TextOr(row.description, "")
      && r.value.language == TextOr(row.language, "Unknown")
      && Ok(r.value.totalStars) == ConvertToNumber(StatText(row.stats, 0))
      && Ok(r.value.starsToday) == ConvertToNumber(StarsTodayText(row.starsToday))
      && Ok(r.value.forksCount) == ConvertToNumber(StatText(row.stats, 1))
      && r.value.stargazersCount.None?
  {
    match row.link
    case None => Err(AttributeError)
    case Some(link) =>
      var fullName := FullName(link);
      match ConvertToNumber(StatText(row.stats, 0))
      case Err(e) => Err(e)
      case Ok(totalStars) =>
        match ConvertToNumber(StarsTodayText(row.starsToday))
        case Err(e) => Err(e)
        case Ok(starsToday) =>
          match ConvertToNumber(StatText(row.stats, 1))
          case Err(e) => Err(e)
          case Ok(forksCount) =>
            Ok(Repo(fullName, HtmlUrl(fullName), TextOr(row.description, ""),
                    TextOr(row.language, "Unknown"), totalStars, starsToday, forksCount, None))
  }

  /** A row with a link but none of the other elements becomes a repository with an empty
      description, language "Unknown" and all three counts 0. */
  lemma ExtractRowDefaults(link: string)
    ensures ExtractRow(RawRow(Some(link), None, None, [], None))
         == Ok(Repo(FullName(link), HtmlUrl(FullName(link)), "", "Unknown", 0, 0, 0, None))
  {
    ConvertZero();
  }

  /** `convert_to_number("0") == 0` */
  lemma ConvertZero()
    ensures ConvertToNumber("0") == Ok(0)
  {
    ConvertDecimal(0);
    assert Decimal(0) == "0";
  }

  /** A row with only one stat link keeps its star count and reads 0 forks. */
  lemma ExtractRowNoForks(row: RawRow)
    requires |row.stats| == 1
    requires ExtractRow(row).Ok?
    ensures ExtractRow(row).value.forksCount == 0
  {
    ConvertZero();
  }

  // ---------------------------------------------------------------------------------------
  // fetch_github_repos

  /** The values `convert` gives for the elements of `xs`, in order, up to the first error. */
  function OkRun<T, U>(xs: seq<T>, convert: T -> Result<U>): seq<U> {
    if xs == [] then []
    else
      match convert(xs[0])
      case Err(_) => []
      case Ok(v) => [v] + OkRun(xs[1..], convert)
  }

  /** The repositories `fetch_github_repos` returns for the rows of a page: the rows are
      converted in page order, and since the `try` encloses the whole loop, the first row that
      raises ends the loop and the rows converted before it are returned. */
  function ReposFrom(rows: seq<RawRow>): seq<Repo> {
    OkRun(rows, ExtractRow)
  }

  /** `fetch_github_repos`, with the downloaded page as its input: `None` when the request
      fails (the exception is caught and nothing is returned), the rows of
      `soup.select('article.Box-row')` otherwise. */
  method FetchGithubRepos(page: Option<seq<RawRow>>) returns (allRepos: seq<Repo>)
    ensures allRepos == if page.None? then [] else ReposFrom(page.value)
  {
    allRepos := [];
    if page.None? {
      return;
    }
    var repoElements := page.value;
    var i := 0;
    while i < |repoElements|
      invariant 0 <= i <= |repoElements|
      invariant allRepos + ReposFrom(repoElements[i..]) == ReposFrom(repoElements)
    {
      var rest := repoElements[i..];
      assert rest[0] == repoElements[i] && rest[1..] == repoElements[i + 1..];
      var repoDict := ExtractRow(repoElements[i]);
      if repoDict.Err? {
        assert allRepos + [] == allRepos;
        break;
      }
      assert ReposFrom(rest) == [repoDict.value] + ReposFrom(repoElements[i + 1..]);
      Seqs.AppendAssoc(allRepos, [repoDict.value], ReposFrom(repoElements[i + 1..]));
      allRepos := allRepos + [repoDict.value];
      i := i + 1;
    }
  }

  /** What the fetch returns: a run of converted rows from the start of the page, ended by the
      end of the page or by the first row that raises. */
  lemma ReposFromSpec(rows: seq<RawRow>)
    ensures var r := ReposFrom(rows);
      && |r| <= |rows|
      && (forall i :: 0 <= i < |r| ==> ExtractRow(rows[i]) == Ok(r[i]))
      && (|r| < |rows| ==> ExtractRow(rows[|r|]).Err?)
  {
    OkRunSpec(rows, ExtractRow);
  }

  lemma OkRunSpec<T, U>(xs: seq<T>, convert: T -> Result<U>)
    ensures var r := OkRun(xs, convert);
      && |r| <= |xs|
      && (forall i :: 0 <= i < |r| ==> convert(xs[i]) == Ok(r[i]))
      && (|r| < |xs| ==> convert(xs[|r|]).Err?)
  {
    OkRunLength(xs, convert);
    forall i | 0 <= i < |OkRun(xs, convert)| ensures convert(xs[i]) == Ok(OkRun(xs, convert)[i]) {
      OkRunAt(xs, convert, i);
    }
    OkRunStop(xs, convert);
  }

  lemma {:induction false} OkRunLength<T, U>(xs: seq<T>, convert: T -> Result<U>)
    ensures |OkRun(xs, convert)| <= |xs|
  {
    if xs != [] {
      OkRunLength(xs[1..], convert);
    }
  }

  lemma {:induction false} OkRunAt<T, U>(xs: seq<T>, convert: T -> Result<U>, i: nat)
    requires i < |OkRun(xs, convert)|
    ensures i < |xs| && convert(xs[i]) == Ok(OkRun(xs, convert)[i])
  {
    OkRunLength(xs, convert);
    if i > 0 {
      var tail := OkRun(xs[1..], convert);
      assert OkRun(xs, convert) == [convert(xs[0]).value] + tail;
      OkRunAt(xs[1..], convert, i - 1);
      assert xs[1..][i - 1] == xs[i];
    }
  }

  lemma {:induction false} OkRunStop<T, U>(xs: seq<T>, convert: T -> Result<U>)
    ensures |OkRun(xs, convert)| < |xs| ==> convert(xs[|OkRun(xs, convert)|]).Err?
  {
    OkRunLength(xs, convert);
    if xs != [] && convert(xs[0]).Ok? {
      var tail := OkRun(xs[1..], convert);
      assert OkRun(xs, convert) == [convert(xs[0]).value] + tail;
      OkRunStop(xs[1..], convert);
      if |tail| < |xs| - 1 {
        assert xs[1..][|tail|] == xs[|tail| + 1];
      }
    }
  }

  /** No scraped repository carries a stargazer count. */
  lemma {:induction false} ReposFromNoStargazers(rows: seq<RawRow>)
    ensures forall i :: 0 <= i < |ReposFrom(rows)| ==> ReposFrom(rows)[i].stargazersCount.None?
  {
    ReposFromSpec(rows);
  }

  // ---------------------------------------------------------------------------------------
  // Seen repositories and newness

  /** The `repos` entry of a user record: no such key, an explicit `None`, or a list of URLs. */
  datatype ReposEntry = Missing | NoneValue | Listed(urls: seq<string>)

  /** A user record; a falsy `user_data` (`None`, or an empty dict) is `None` in the model. */
  datatype UserData = UserData(repos: ReposEntry)

  /** `get_all_unique_user_repos`: the listed URLs as a set, empty unless a list is there. */
  function GetAllUniqueUserRepos(userData: Option<UserData>): (r: set<string>)
    ensures forall u :: u in r <==> userData.Some? && userData.value.repos.Listed?
                                    && u in userData.value.repos.urls
  {
    match userData
    case Some(UserData(Listed(urls))) => set u | u in urls
    case _ => {}
  }

  /** `filter_by_newness`: every repository when nothing is recorded as seen, otherwise the
      repositories whose URL was not seen, in input order. */
  function FilterByNewness(repos: seq<Repo>, userData: Option<UserData>): seq<Repo> {
    var userRepos := GetAllUniqueUserRepos(userData);
    if userRepos == {} then repos
    else Seqs.Filter(repos, (repo: Repo) => repo.htmlUrl !in userRepos)
  }

  /** The early return for an empty seen-set is the comprehension itself: in every case the
      result is the repositories whose URL was not seen, kept in input order and as often as
      they occur. */
  lemma FilterByNewnessSpec(repos: seq<Repo>, userData: Option<UserData>)
    ensures var seen := GetAllUniqueUserRepos(userData);
      var r := FilterByNewness(repos, userData);
      && r == Seqs.Filter(repos, (repo: Repo) => repo.htmlUrl !in seen)
      && Seqs.IsSubsequence(r, repos)
      && (forall i :: 0 <= i < |r| ==> r[i].htmlUrl !in seen)
      && (forall repo :: multiset(r)[repo] ==
            if repo.htmlUrl in seen then 0 else multiset(repos)[repo])
  {
    var seen := GetAllUniqueUserRepos(userData);
    var keep := (repo: Repo) => repo.htmlUrl !in seen;
    Seqs.FilterMultiset(repos, keep);
    Seqs.FilterSubsequence(repos, keep);
    if seen == {} {
      Seqs.FilterAll(repos, keep);
    }
  }

  /** Without a list of seen URLs nothing is dropped. */
  lemma FilterByNewnessNothingSeen(repos: seq<Repo>, userData: Option<UserData>)
    requires userData.None? || !userData.value.repos.Listed? || userData.value.repos.urls == []
    ensures FilterByNewness(repos, userData) == repos
  {
    var seen := GetAllUniqueUserRepos(userData);
    assert seen == {} by {
      if x :| x in seen { assert false; }
    }
  }

  // ---------------------------------------------------------------------------------------
  // Ranking

  /** `int(x.get('stargazers_count') or 0)` */
  function StargazersKey(repo: Repo): int {
    repo.stargazersCount.GetOr(0)
  }

  /** `get_top_repos_by_stargazers_count` (`top_n` defaults to 3 at its callers). */
  function GetTopReposByStargazersCount(repos: seq<Repo>, topN: int): seq<Repo> {
    Ranking.TopN(repos, StargazersKey, topN)
  }

  /** The top repositories are `min(topN, |repos|)` repositories drawn from the input, most
      starred first (a missing count is 0); none left out has more stars than one kept;
      equally starred repositories are taken in input order. */
  lemma TopReposSpec(repos: seq<Repo>, topN: int)
    ensures var r := GetTopReposByStargazersCount(repos, topN);
      && (topN >= 0 ==> |r| == Ranking.Min(topN, |repos|))
      && multiset(r) <= multiset(repos)
      && (forall i, j :: 0 <= i < j < |r| ==> StargazersKey(r[j]) <= StargazersKey(r[i]))
      && (forall i, p :: 0 <= i < |r| && p in multiset(repos) - multiset(r) ==>
            StargazersKey(p) <= StargazersKey(r[i]))
      && (forall k :: Ranking.IsPrefix(Ranking.WithKey(r, StargazersKey, k),
                                       Ranking.WithKey(repos, StargazersKey, k)))
  {
    Ranking.TopNSpec(repos, StargazersKey, topN);
    Ranking.TopNLeftOut(repos, StargazersKey, topN);
  }

  /** On scraped repositories, which have no stargazer count, the ranking keeps the page order
      and returns the first `topN` of them. */
  lemma TopScrapedRepos(rows: seq<RawRow>, topN: int)
    ensures GetTopReposByStargazersCount(ReposFrom(rows), topN) == Ranking.Prefix(ReposFrom(rows), topN)
  {
    var repos := ReposFrom(rows);
    ReposFromNoStargazers(rows);
    assert forall i :: 0 <= i < |repos| ==> StargazersKey(repos[i]) == 0;
    Ranking.TopNConstantKey(repos, StargazersKey, 0, topN);
  }
}
