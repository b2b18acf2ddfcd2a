/** The Python `str` operations the pipelines rely on, modelled on `seq<char>`:
    `split`/`join` on one separator character, `strip`, `lower`, `replace` of one character,
    `startswith`, and the decimal conversions `str(n)`, `int(s)` and `float(s)`. */
module PyStr {
  import opened Py

  // ---------------------------------------------------------------------------------------
  // Character classes

  /** Python's `str.isspace()`: the characters `strip()` removes when given no argument. */
  predicate IsSpace(c: char) {
    c == ' ' || ('\U{9}' <= c <= '\U{D}') || ('\U{1C}' <= c <= '\U{1F}')
    || c == '\U{85}' || c == '\U{A0}' || c == '\U{1680}' || ('\U{2000}' <= c <= '\U{200A}')
    || c == '\U{2028}' || c == '\U{2029}' || c == '\U{202F}' || c == '\U{205F}' || c == '\U{3000}'
  }

  predicate IsDigit(c: char) {
    '0' <= c <= '9'
  }

  predicate AllDigits(s: string) {
    forall i :: 0 <= i < |s| ==> IsDigit(s[i])
  }

  // ---------------------------------------------------------------------------------------
  // strip, lower, replace, startswith

  /** `s.lstrip()` */
  function TrimLeft(s: string): (r: string)
    ensures |r| <= |s| && r == s[|s| - |r|..]
    ensures r == [] || !IsSpace(r[0])
    ensures forall i :: 0 <= i < |s| - |r| ==> IsSpace(s[i])
  {
    if s != [] && IsSpace(s[0]) then TrimLeft(s[1..]) else s
  }

  /** `s.rstrip()` */
  function TrimRight(s: string): (r: string)
    ensures |r| <= |s| && r == s[..|r|]
    ensures r == [] || !IsSpace(r[|r| - 1])
    ensures forall i :: |r| <= i < |s| ==> IsSpace(s[i])
  {
    if s != [] && IsSpace(s[|s| - 1]) then TrimRight(s[..|s| - 1]) else s
  }

  /** `s.strip()`: the longest slice of `s` that neither starts nor ends with whitespace,
      everything cut away being whitespace. */
  function Strip(s: string): (r: string)
    ensures |r| <= |s|
    ensures r == [] || (!IsSpace(r[0]) && !IsSpace(r[|r| - 1]))
  {
    TrimRight(TrimLeft(s))
  }

  predicate AllSpace(s: string) {
    forall i :: 0 <= i < |s| ==> IsSpace(s[i])
  }

  /** Where `lstrip` stops: the count of leading whitespace characters. */
  function LeftCut(s: string): nat {
    |s| - |TrimLeft(s)|
  }

  /** What `strip` keeps is one slice of `s`, starting where `lstrip` stops. */
  lemma StripSlice(s: string)
    ensures LeftCut(s) + |Strip(s)| <= |s|
    ensures Strip(s) == s[LeftCut(s)..LeftCut(s) + |Strip(s)|]
  {
    assert Strip(s) == TrimRight(TrimLeft(s));
    MiddleSlice(s, LeftCut(s), TrimLeft(s), Strip(s));
  }

  /** Around that slice `strip` cuts whitespace only. */
  lemma StripCuts(s: string)
    ensures forall k :: 0 <= k < LeftCut(s) ==> IsSpace(s[k])
    ensures forall k :: LeftCut(s) + |Strip(s)| <= k < |s| ==> IsSpace(s[k])
  {
    assert Strip(s) == TrimRight(TrimLeft(s));
    MiddleSlice(s, LeftCut(s), TrimLeft(s), Strip(s));
  }

  /** A prefix `r` of the suffix `t` of `s` that starts at `i` sits in `s` at `i`, and what
      follows `r` in `t` is what follows it in `s`. */
  lemma MiddleSlice(s: string, i: nat, t: string, r: string)
    requires i <= |s| && t == s[i..]
    requires |r| <= |t| && r == t[..|r|]
    requires forall j :: |r| <= j < |t| ==> IsSpace(t[j])
    ensures i + |r| <= |s|
    ensures r == s[i..i + |r|]
    ensures forall k :: i + |r| <= k < |s| ==> IsSpace(s[k])
  {
    forall k | i + |r| <= k < |s|
      ensures IsSpace(s[k])
    {
      assert s[k] == t[k - i];
    }
  }

  /** Strip removes exactly the whitespace around a text that has none at its ends. */
  lemma StripPadded(left: string, s: string, right: string)
    requires AllSpace(left) && AllSpace(right)
    requires s != [] && !IsSpace(s[0]) && !IsSpace(s[|s| - 1])
    ensures Strip(left + s + right) == s
  {
    TrimLeftSpace(left, s + right);
    assert left + s + right == left + (s + right);
    TrimRightSpace(s, right);
  }

  lemma {:induction false} TrimLeftSpace(left: string, t: string)
    requires AllSpace(left) && (t == [] || !IsSpace(t[0]))
    ensures TrimLeft(left + t) == t
  {
    var s := left + t;
    if left != [] {
      assert s[0] == left[0] && IsSpace(left[0]);
      assert s[1..] == left[1..] + t;
      assert AllSpace(left[1..]) by {
        forall i | 0 <= i < |left[1..]| ensures IsSpace(left[1..][i]) {
          assert left[1..][i] == left[i + 1];
        }
      }
      TrimLeftSpace(left[1..], t);
      assert TrimLeft(s) == TrimLeft(s[1..]);
    } else {
      assert s == t;
    }
  }

  lemma {:induction false} TrimRightSpace(t: string, right: string)
    requires AllSpace(right) && (t == [] || !IsSpace(t[|t| - 1]))
    ensures TrimRight(t + right) == t
  {
    if right != [] {
      var r' := right[..|right| - 1];
      TrimRightSpace(t, r');
      assert (t + right)[..|t + right| - 1] == t + r';
    }
  }

  /** Strip keeps a string that has no whitespace at either end. */
  lemma StripUnchanged(s: string)
    requires s == [] || (!IsSpace(s[0]) && !IsSpace(s[|s| - 1]))
    ensures Strip(s) == s
  {
  }

  /** `c.lower()` on ASCII letters; every other character is left as it is. */
  function LowerChar(c: char): (r: char)
    ensures 'A' <= c <= 'Z' ==> 'a' <= r <= 'z'
    ensures !('A' <= c <= 'Z') ==> r == c
  {
    if 'A' <= c <= 'Z' then (c as int - 'A' as int + 'a' as int) as char else c
  }

  /** `s.lower()` (ASCII letters only). */
  function Lower(s: string): (r: string)
    ensures |r| == |s|
    ensures forall i :: 0 <= i < |s| ==> r[i] == LowerChar(s[i])
  {
    if s == [] then [] else [LowerChar(s[0])] + Lower(s[1..])
  }

  /** `s.replace(c, '')` */
  function RemoveChar(s: string, c: char): (r: string)
    ensures c !in r
    ensures forall x :: x in r <==> x in s && x != c
    ensures c !in s ==> r == s
  {
    if s == [] then [] else (if s[0] == c then [] else [s[0]]) + RemoveChar(s[1..], c)
  }

  /** `replace` works piece by piece. */
  lemma {:induction false} RemoveCharAppend(a: string, b: string, c: char)
    ensures RemoveChar(a + b, c) == RemoveChar(a, c) + RemoveChar(b, c)
  {
    if a == [] {
      assert a + b == b;
    } else {
      var ab := a + b;
      assert ab[0] == a[0];
      assert ab[1..] == a[1..] + b;
      RemoveCharAppend(a[1..], b, c);
      var h := if a[0] == c then [] else [a[0]];
      assert RemoveChar(ab, c) == h + RemoveChar(a[1..] + b, c);
      assert RemoveChar(a, c) == h + RemoveChar(a[1..], c);
    }
  }

  lemma RemoveCharOne(x: char, c: char)
    ensures RemoveChar([x], c) == if x == c then [] else [x]
  {
    assert [x][1..] == [];
  }

  /** `s.replace(a, b)` for single characters. */
  function ReplaceChar(s: string, a: char, b: char): (r: string)
    ensures |r| == |s|
    ensures forall i :: 0 <= i < |s| ==> r[i] == if s[i] == a then b else s[i]
  {
    if s == [] then [] else [if s[0] == a then b else s[0]] + ReplaceChar(s[1..], a, b)
  }

  predicate StartsWith(s: string, prefix: string) {
    |prefix| <= |s| && s[..|prefix|] == prefix
  }

  // ---------------------------------------------------------------------------------------
  // split and join on one character

  /** `s.split(sep)`: the pieces between occurrences of `sep`, empty pieces included; there is
      always at least one piece. */
  function Split(s: string, sep: char): (r: seq<string>)
    ensures |r| >= 1
    ensures forall i :: 0 <= i < |r| ==> sep !in r[i]
  {
    if s == [] then [[]]
    else
      var rest := Split(s[1..], sep);
      if s[0] == sep then [[]] + rest else [[s[0]] + rest[0]] + rest[1..]
  }

  /** `sep.join(parts)` */
  function Join(parts: seq<string>, sep: char): string {
    if |parts| == 0 then []
    else if |parts| == 1 then parts[0]
    else parts[0] + [sep] + Join(parts[1..], sep)
  }

  /** Joining the pieces of a split gives back the string. */
  lemma {:induction false} JoinSplit(s: string, sep: char)
    ensures Join(Split(s, sep), sep) == s
  {
    if s != [] {
      var rest := Split(s[1..], sep);
      JoinSplit(s[1..], sep);
      if s[0] == sep {
        assert Split(s, sep) == [[]] + rest;
        assert Join([[]] + rest, sep) == [] + [sep] + Join(rest, sep);
      } else {
        var r := Split(s, sep);
        assert r == [[s[0]] + rest[0]] + rest[1..];
        if |rest| == 1 {
          assert Join(r, sep) == [s[0]] + rest[0];
        } else {
          assert r[1..] == rest[1..];
          assert Join(r, sep) == [s[0]] + rest[0] + [sep] + Join(rest[1..], sep);
          assert Join(rest, sep) == rest[0] + [sep] + Join(rest[1..], sep);
        }
      }
    }
  }

  /** Splitting a join of separator-free pieces gives back the pieces. */
  lemma {:induction false} SplitJoin(parts: seq<string>, sep: char)
    requires |parts| >= 1
    requires forall i :: 0 <= i < |parts| ==> sep !in parts[i]
    ensures Split(Join(parts, sep), sep) == parts
  {
    if |parts| == 1 {
      SplitPiece(parts[0], sep);
      assert parts == [parts[0]];
    } else {
      SplitJoin(parts[1..], sep);
      var tail := [sep] + Join(parts[1..], sep);
      assert Split(tail, sep) == [[]] + parts[1..] by {
        assert tail[1..] == Join(parts[1..], sep);
      }
      SplitPrefix(parts[0], tail, sep);
      assert Split(tail, sep)[0] == [] && Split(tail, sep)[1..] == parts[1..];
      assert parts[0] + [] == parts[0];
      assert Join(parts, sep) == parts[0] + tail;
      assert parts == [parts[0]] + parts[1..];
    }
  }

  /** A string without the separator splits into itself. */
  lemma {:induction false} SplitPiece(s: string, sep: char)
    requires sep !in s
    ensures Split(s, sep) == [s]
  {
    if s != [] {
      SplitPiece(s[1..], sep);
      assert [s[0]] + s[1..] == s;
    }
  }

  /** A separator-free prefix is glued onto the first piece of what follows it. */
  lemma {:induction false} SplitPrefix(p: string, t: string, sep: char)
    requires sep !in p
    ensures Split(p + t, sep) == [p + Split(t, sep)[0]] + Split(t, sep)[1..]
  {
    if p != [] {
      SplitPrefix(p[1..], t, sep);
      assert (p + t)[1..] == p[1..] + t;
      var rest := Split(p[1..] + t, sep);
      assert rest[0] == p[1..] + Split(t, sep)[0];
      assert rest[1..] == Split(t, sep)[1..];
      assert (p + t)[0] == p[0] && p[0] != sep;
      assert Split(p + t, sep) == [[p[0]] + rest[0]] + rest[1..];
      assert [p[0]] + (p[1..] + Split(t, sep)[0]) == ([p[0]] + p[1..]) + Split(t, sep)[0];
      assert [p[0]] + p[1..] == p;
    } else {
      assert p + t == t;
      assert p + Split(t, sep)[0] == Split(t, sep)[0];
      assert Split(t, sep) == [Split(t, sep)[0]] + Split(t, sep)[1..];
    }
  }

  /** `s.split(sep)[0]`: the text before the first separator; the whole string when it has
      none. */
  lemma {:induction false} SplitHead(s: string, sep: char)
    ensures var h := Split(s, sep)[0];
      |h| <= |s| && h == s[..|h|] && sep !in h
      && (sep in s ==> |h| < |s| && s[|h|] == sep)
      && (sep !in s ==> h == s)
  {
    if s != [] {
      SplitHead(s[1..], sep);
    }
  }

  /** `s.split(sep)[-1]`: the text after the last separator; the whole string when it has
      none. */
  lemma {:induction false} SplitLast(s: string, sep: char)
    ensures var r := Split(s, sep); var t := r[|r| - 1];
      |t| <= |s| && t == s[|s| - |t|..] && sep !in t
      && (sep in s ==> |t| < |s| && s[|s| - |t| - 1] == sep)
      && (sep !in s ==> t == s)
  {
    if s != [] {
      SplitLast(s[1..], sep);
      SplitCount(s[1..], sep);
      if s[0] == sep {
        SplitLastSep(s, sep);
      } else {
        SplitLastJoined(s, sep);
        if sep !in s[1..] {
          assert [s[0]] + s[1..] == s;
        }
      }
    }
  }

  /** One step of `Split` at the end: a leading separator leaves the tail's last piece. */
  lemma SplitLastSep(s: string, sep: char)
    requires s != [] && s[0] == sep
    ensures var r, rest := Split(s, sep), Split(s[1..], sep); r[|r| - 1] == rest[|rest| - 1]
  {
    var rest := Split(s[1..], sep);
    assert Split(s, sep) == [[]] + rest;
  }

  /** What follows the last separator is the last piece. */
  lemma LastPieceAfter(q: string, b: string, sep: char)
    requires q != [] && q[|q| - 1] == sep && sep !in b
    ensures var r := Split(q + b, sep); r[|r| - 1] == b
  {
    var p := q + b;
    SplitLast(p, sep);
    var r := Split(p, sep);
    var t := r[|r| - 1];
    assert p[|p| - |b| - 1] == sep;
    assert |t| <= |b|;
    assert t == p[|p| - |b|..] == b;
  }

  /** Any other first character joins the tail's first piece, which is its last when the tail
      is a single piece. */
  lemma SplitLastJoined(s: string, sep: char)
    requires s != [] && s[0] != sep
    ensures var r, rest := Split(s, sep), Split(s[1..], sep);
      r[|r| - 1] == if |rest| > 1 then rest[|rest| - 1] else [s[0]] + rest[0]
  {
    var rest := Split(s[1..], sep);
    var r := [[s[0]] + rest[0]] + rest[1..];
    assert Split(s, sep) == r;
    assert |r| == |rest|;
  }

  /** A string splits into more than one piece exactly when it holds the separator. */
  lemma {:induction false} SplitCount(s: string, sep: char)
    ensures |Split(s, sep)| > 1 <==> sep in s
  {
    if s != [] {
      SplitCount(s[1..], sep);
      assert s == [s[0]] + s[1..];
    }
  }

  // ---------------------------------------------------------------------------------------
  // Decimal numerals

  function DigitValue(c: char): (r: nat)
    requires IsDigit(c)
    ensures r < 10
  {
    c as int - '0' as int
  }

  function DigitChar(d: nat): (c: char)
    requires d < 10
    ensures IsDigit(c) && DigitValue(c) == d
  {
    (d + '0' as int) as char
  }

  /** The value of a string of decimal digits, most significant first. */
  function DigitsValue(s: string): nat
    requires AllDigits(s)
  {
    if s == [] then 0 else DigitsValue(s[..|s| - 1]) * 10 + DigitValue(s[|s| - 1])
  }

  /** `str(n)` for a natural number: its shortest decimal numeral. */
  function Decimal(n: nat): (r: string)
    ensures |r| >= 1 && AllDigits(r)
    ensures |r| > 1 ==> r[0] != '0'
  {
    if n < 10 then [DigitChar(n)] else Decimal(n / 10) + [DigitChar(n % 10)]
  }

  /** `str(n)` for any integer. */
  function IntToString(n: int): string {
    if n < 0 then "-" + Decimal(-n) else Decimal(n)
  }

  lemma {:induction false} DecimalValue(n: nat)
    ensures DigitsValue(Decimal(n)) == n
  {
    if n >= 10 {
      DecimalValue(n / 10);
      var s := Decimal(n);
      assert s[..|s| - 1] == Decimal(n / 10);
    }
  }

  /** A number below 10^w has at most w digits. */
  lemma {:induction false} DecimalLength(n: nat, w: nat)
    requires w >= 1 && n < Pow10(w)
    ensures |Decimal(n)| <= w
  {
    if n >= 10 {
      DecimalLength(n / 10, w - 1);
    }
  }

  function Zeros(k: nat): (r: string)
    ensures |r| == k && AllDigits(r)
    ensures forall i :: 0 <= i < k ==> r[i] == '0'
  {
    if k == 0 then [] else Zeros(k - 1) + ['0']
  }

  /** `n` written with at least `width` digits, padded with leading zeros. */
  function PadDecimal(n: nat, width: nat): (r: string)
    ensures AllDigits(r)
    ensures |r| == if |Decimal(n)| < width then width else |Decimal(n)|
  {
    var d := Decimal(n);
    if |d| < width then Zeros(width - |d|) + d else d
  }

  /** Leading zeros do not change the value of a numeral. */
  lemma {:induction false} LeadingZerosValue(k: nat, s: string)
    requires AllDigits(s)
    ensures DigitsValue(Zeros(k) + s) == DigitsValue(s)
  {
    if s == [] {
      assert Zeros(k) + s == Zeros(k);
      ZerosValue(k);
    } else {
      var t := s[..|s| - 1];
      LeadingZerosValue(k, t);
      assert (Zeros(k) + s)[..|Zeros(k) + s| - 1] == Zeros(k) + t;
    }
  }

  lemma {:induction false} ZerosValue(k: nat)
    ensures DigitsValue(Zeros(k)) == 0
  {
    if k > 0 {
      ZerosValue(k - 1);
      assert Zeros(k)[..k - 1] == Zeros(k - 1);
    }
  }

  lemma PadDecimalValue(n: nat, width: nat)
    ensures DigitsValue(PadDecimal(n, width)) == n
  {
    DecimalValue(n);
    if |Decimal(n)| < width {
      LeadingZerosValue(width - |Decimal(n)|, Decimal(n));
    }
  }

  /** The value of a numeral is below 10 to the power of its length. */
  lemma {:induction false} DigitsValueBound(s: string)
    requires AllDigits(s)
    ensures DigitsValue(s) < Pow10(|s|)
  {
    if s != [] {
      DigitsValueBound(s[..|s| - 1]);
    }
  }

  function Pow10(k: nat): (r: nat)
    ensures r >= 1
  {
    if k == 0 then 1 else 10 * Pow10(k - 1)
  }

  /** Digits after a numeral: `DigitsValue(a + b) == DigitsValue(a) * 10^|b| + DigitsValue(b)`. */
  lemma {:induction false} DigitsValueAppend(a: string, b: string)
    requires AllDigits(a) && AllDigits(b)
    ensures DigitsValue(a + b) == DigitsValue(a) * Pow10(|b|) + DigitsValue(b)
  {
    if b == [] {
      assert a + b == a;
    } else {
      var b' := b[..|b| - 1];
      DigitsValueAppend(a, b');
      assert (a + b)[..|a + b| - 1] == a + b';
      var va, vb', p, d := DigitsValue(a), DigitsValue(b'), Pow10(|b'|), DigitValue(b[|b| - 1]);
      assert DigitsValue(a + b) == (va * p + vb') * 10 + d;
      assert DigitsValue(b) == vb' * 10 + d;
      assert Pow10(|b|) == p * 10;
      Regroup(va, p, vb', d);
    }
  }

  lemma Regroup(va: int, p: int, vb: int, d: int)
    ensures (va * p + vb) * 10 + d == va * (p * 10) + (vb * 10 + d)
  {
  }

  // ---------------------------------------------------------------------------------------
  // int(s) and float(s)

  /** A Python digit group: digits, with single underscores allowed between two digits. */
  predicate IsDigitPart(s: string) {
    |s| >= 1 && forall i :: 0 <= i < |s| ==> DigitPartAt(s, i)
  }

  /** Position `i` of a digit group holds a digit, or an underscore between two digits. */
  predicate DigitPartAt(s: string, i: nat)
    requires i < |s|
  {
    IsDigit(s[i]) || (s[i] == '_' && 0 < i < |s| - 1 && IsDigit(s[i - 1]) && IsDigit(s[i + 1]))
  }

  lemma DigitPartDigits(s: string)
    requires IsDigitPart(s)
    ensures AllDigits(RemoveChar(s, '_'))
  {
    forall i | 0 <= i < |RemoveChar(s, '_')|
      ensures IsDigit(RemoveChar(s, '_')[i])
    {
      var c := RemoveChar(s, '_')[i];
      assert c in s && c != '_';
      var j :| 0 <= j < |s| && s[j] == c;
      assert DigitPartAt(s, j);
    }
  }

  /** The value of a digit group, underscores ignored. */
  function DigitPartValue(s: string): nat
    requires IsDigitPart(s)
  {
    DigitPartDigits(s);
    DigitsValue(RemoveChar(s, '_'))
  }

  function Signed(negative: bool, v: nat): int {
    var i: int := v;
    if negative then -i else i
  }

  /** An optional leading sign: whether it was `-`, and the rest. */
  function SplitSign(t: string): (bool, string) {
    if |t| > 0 && (t[0] == '+' || t[0] == '-') then (t[0] == '-', t[1..]) else (false, t)
  }

  /** `int(s)`: surrounding whitespace, an optional sign and one digit group; anything else
      raises ValueError. */
  function ParseInt(s: string): (r: Result<int>)
    ensures r.Ok? <==> IsDigitPart(SplitSign(Strip(s)).1)
  {
    var (negative, body) := SplitSign(Strip(s));
    if IsDigitPart(body) then Ok(Signed(negative, DigitPartValue(body))) else Err(ValueError)
  }

  lemma DecimalIsDigitPart(n: nat)
    ensures IsDigitPart(Decimal(n)) && RemoveChar(Decimal(n), '_') == Decimal(n)
  {
  }

  /** `int(str(n)) == n` */
  lemma ParseIntString(n: int)
    ensures ParseInt(IntToString(n)) == Ok(n)
  {
    var m: nat := if n < 0 then -n else n;
    DecimalIsDigitPart(m);
    DecimalValue(m);
    ParseNumeral(n < 0, Decimal(m));
    assert IntToString(n) == (if n < 0 then "-" else "") + Decimal(m);
    assert Signed(n < 0, DigitsValue(Decimal(m))) == n;
  }

  /** An optionally negated numeral without underscores parses to its value. */
  lemma ParseNumeral(negative: bool, d: string)
    requires |d| >= 1 && AllDigits(d) && IsDigitPart(d) && RemoveChar(d, '_') == d
    ensures ParseInt((if negative then "-" else "") + d) == Ok(Signed(negative, DigitsValue(d)))
  {
    NumeralSign(negative, d);
    assert DigitPartValue(d) == DigitsValue(d);
    ParseIntParts((if negative then "-" else "") + d, negative, d);
  }

  /** An optionally negated numeral has no surrounding whitespace, and its sign comes off. */
  lemma NumeralSign(negative: bool, d: string)
    requires |d| >= 1 && AllDigits(d)
    ensures SplitSign(Strip((if negative then "-" else "") + d)) == (negative, d)
  {
    var s := (if negative then "-" else "") + d;
    assert s[|s| - 1] == d[|d| - 1];
    assert IsDigit(s[0]) || s[0] == '-';
    StripUnchanged(s);
    SplitSignNumeral(negative, d);
  }

  /** `int(s)` once the sign and the digits of `s` are known. */
  lemma ParseIntParts(s: string, negative: bool, d: string)
    requires SplitSign(Strip(s)) == (negative, d) && IsDigitPart(d)
    ensures ParseInt(s) == Ok(Signed(negative, DigitPartValue(d)))
  {
  }

  lemma SplitSignNumeral(negative: bool, d: string)
    requires |d| >= 1 && IsDigit(d[0])
    ensures SplitSign((if negative then "-" else "") + d) == (negative, d)
  {
    var s := (if negative then "-" else "") + d;
    if negative {
      assert s[0] == '-' && s[1..] == d;
    } else {
      assert s == d;
    }
  }

  /** A finite decimal number `num / 10^scale`. */
  datatype FixedPoint = Fixed(num: int, scale: nat)

  /** The unsigned part of a float literal, in fixed-point notation only:
      `digits`, `digits.`, `digits.digits` or `.digits`. */
  function ParseUnsignedDecimal(body: string): Result<FixedPoint> {
    var pieces := Split(body, '.');
    if |pieces| == 1 then
      if IsDigitPart(pieces[0]) then Ok(Fixed(DigitPartValue(pieces[0]), 0)) else Err(ValueError)
    else if |pieces| == 2 then
      var whole, frac := pieces[0], pieces[1];
      if (IsDigitPart(whole) || whole == []) && (IsDigitPart(frac) || frac == [])
         && (whole != [] || frac != []) then
        var w := if whole == [] then 0 else DigitPartValue(whole);
        var f := if frac == [] then 0 else DigitPartValue(frac);
        var k := if frac == [] then 0 else |RemoveChar(frac, '_')|;
        Ok(Fixed(w * Pow10(k) + f, k))
      else Err(ValueError)
    else Err(ValueError)
  }

  /** `float(s)` read as an exact decimal: surrounding whitespace, an optional sign and a
      fixed-point literal. */
  function ParseFloat(s: string): Result<FixedPoint> {
    var (negative, body) := SplitSign(Strip(s));
    match ParseUnsignedDecimal(body)
    case Ok(d) => Ok(if negative then Fixed(-d.num, d.scale) else d)
    case Err(e) => Err(e)
  }

  /** `q` is `a / b` truncated toward zero: `q * b` lies between zero and `a`, less than `b`
      away from `a`. */
  predicate Truncates(a: int, b: int, q: int)
  {
    && (a >= 0 ==> 0 <= q * b <= a < (q + 1) * b)
    && (a < 0 ==> (q - 1) * b < a <= q * b <= 0)
  }

  /** Integer division rounding toward zero, as Python's `int()` truncates a float. */
  function DivTowardZero(a: int, b: nat): (q: int)
    requires b > 0
    ensures Truncates(a, b, q)
  {
    if a >= 0 then
      DivBounds(a, b);
      a / b
    else
      DivBounds(-a, b);
      NegateBounds(a, b, (-a) / b);
      -((-a) / b)
  }

  /** Division of a natural number leaves a remainder below the divisor. */
  lemma DivBounds(a: nat, b: nat)
    requires b > 0
    ensures 0 <= (a / b) * b <= a < (a / b + 1) * b
  {
    var q := a / b;
    assert a == q * b + a % b;
    assert (q + 1) * b == q * b + b;
  }

  lemma NegateBounds(a: int, b: nat, m: int)
    requires 0 <= m * b <= -a < (m + 1) * b
    ensures Truncates(a, b, -m)
  {
    assert (-m) * b == -(m * b);
    assert (-m - 1) * b == -((m + 1) * b);
  }
}
