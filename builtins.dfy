/** Models of the Python built-ins the two cores call on strings and numbers:
    `str.strip()`, `str.split()`, `str.split(sep)[-1]`, `str(int)` and
    `float()` applied to a string of digits and decimal points. */
module Builtins {
  import opened Seqs
  import opened Results

  /** The characters for which Python's `str.isspace()` holds; `strip()` and
      `split()` without arguments treat exactly these as whitespace. */
  predicate IsSpace(c: char)
  {
    || ('\t' <= c <= '\r')
    || ('\U{1C}' <= c <= '\U{1F}')
    || c == ' ' || c == '\U{85}' || c == '\U{A0}' || c == '\U{1680}'
    || ('\U{2000}' <= c <= '\U{200A}')
    || c == '\U{2028}' || c == '\U{2029}' || c == '\U{202F}' || c == '\U{205F}' || c == '\U{3000}'
  }

  predicate IsNonSpace(c: char)
  {
    !IsSpace(c)
  }

  /** The regular-expression class `\d`, restricted to ASCII digits. */
  predicate IsDigit(c: char)
  {
    '0' <= c <= '9'
  }

  /** The regular-expression class `[\d.]`. */
  predicate IsDecimalChar(c: char)
  {
    IsDigit(c) || c == '.'
  }

  predicate IsDigits(s: string)
  {
    forall i :: 0 <= i < |s| ==> IsDigit(s[i])
  }

  predicate IsDecimalText(s: string)
  {
    forall i :: 0 <= i < |s| ==> IsDecimalChar(s[i])
  }

  // ---------------------------------------------------------------------------
  // str.strip()

  /** The number of whitespace characters `s` begins with. */
  function LeadingSpaces(s: string): (n: nat)
    ensures n <= |s|
    ensures forall i :: 0 <= i < n ==> IsSpace(s[i])
    ensures n == |s| || !IsSpace(s[n])
  {
    if s != [] && IsSpace(s[0]) then 1 + LeadingSpaces(s[1..]) else 0
  }

  /** `s` without its trailing whitespace. */
  function TrimEnd(s: string): (r: string)
    ensures |r| <= |s| && r == s[..|r|]
    ensures r == [] || !IsSpace(r[|r| - 1])
    ensures forall i :: |r| <= i < |s| ==> IsSpace(s[i])
  {
    if s != [] && IsSpace(s[|s| - 1]) then TrimEnd(s[..|s| - 1]) else s
  }

  /** `s.strip()`: the slice of `s` that starts after its leading whitespace,
      neither begins nor ends with whitespace, and leaves only whitespace
      after it. */
  function Strip(s: string): (r: string)
    ensures r == [] || (!IsSpace(r[0]) && !IsSpace(r[|r| - 1]))
    ensures LeadingSpaces(s) + |r| <= |s| && r == s[LeadingSpaces(s)..LeadingSpaces(s) + |r|]
    ensures forall i :: LeadingSpaces(s) + |r| <= i < |s| ==> IsSpace(s[i])
  {
    TrimEnd(s[LeadingSpaces(s)..])
  }

  /** A string that neither begins nor ends with whitespace is its own `strip()`. */
  lemma StripUnchanged(s: string)
    requires s == [] || (!IsSpace(s[0]) && !IsSpace(s[|s| - 1]))
    ensures Strip(s) == s
  {
  }

  /** `strip()` is idempotent. */
  lemma StripIdempotent(s: string)
    ensures Strip(Strip(s)) == Strip(s)
  {
    StripUnchanged(Strip(s));
  }

  // ---------------------------------------------------------------------------
  // str.split() and str.split(sep)[-1]

  /** A non-empty run of non-whitespace characters. */
  predicate IsWord(w: string)
  {
    w != [] && forall i :: 0 <= i < |w| ==> IsNonSpace(w[i])
  }

  /** The length of the leading run of non-whitespace characters of `s`. */
  function WordLength(s: string): (n: nat)
    ensures n <= |s|
    ensures forall i :: 0 <= i < n ==> IsNonSpace(s[i])
    ensures n == |s| || IsSpace(s[n])
  {
    if s == [] || IsSpace(s[0]) then 0 else 1 + WordLength(s[1..])
  }

  /** `s.split()`: the maximal runs of non-whitespace characters of `s`, in order. */
  function Split(s: string): (r: seq<string>)
    ensures forall k :: 0 <= k < |r| ==> IsWord(r[k])
    decreases |s|
  {
    var rest := s[LeadingSpaces(s)..];
    if rest == [] then []
    else
      var n := WordLength(rest);
      [rest[..n]] + Split(rest[n..])
  }

  /** The words of `s.split()`, put back together, are exactly the
      non-whitespace characters of `s`: no character is lost, none is added
      and the order is kept. */
  lemma {:induction false} SplitKeepsText(s: string)
    ensures Concat(Split(s)) == Filter(s, IsNonSpace)
    decreases |s|
  {
    var a := LeadingSpaces(s);
    var rest := s[a..];
    FilterSkip(s, a, IsNonSpace);
    if rest != [] {
      var n := WordLength(rest);
      FilterTake(rest, n, IsNonSpace);
      SplitKeepsText(rest[n..]);
      ConcatCons(rest[..n], Split(rest[n..]));
    }
  }

  /** A string that starts with a non-whitespace character splits into at
      least one word, and the first word starts with that character. */
  lemma SplitFirstWord(s: string)
    requires s != [] && !IsSpace(s[0])
    ensures Split(s) != [] && Split(s)[0] != [] && Split(s)[0][0] == s[0]
  {
  }

  /** Leading whitespace is skipped: the whitespace run of `sp + t` is `sp`
      followed by that of `t`. */
  lemma {:induction false} LeadingSpacesConcat(sp: string, t: string)
    requires forall i :: 0 <= i < |sp| ==> IsSpace(sp[i])
    ensures LeadingSpaces(sp + t) == |sp| + LeadingSpaces(t)
  {
    if sp != [] {
      var more := sp[1..];
      assert forall i :: 0 <= i < |more| ==> more[i] == sp[i + 1];
      assert (sp + t)[0] == sp[0] && (sp + t)[1..] == more + t;
      LeadingSpacesConcat(more, t);
    } else {
      assert sp + t == t;
    }
  }

  /** A run of non-whitespace characters followed by whitespace or the end
      of the string is a whole word. */
  lemma {:induction false} WordLengthPrefix(w: string, u: string)
    requires forall i :: 0 <= i < |w| ==> IsNonSpace(w[i])
    requires u == [] || IsSpace(u[0])
    ensures WordLength(w + u) == |w|
  {
    if w != [] {
      var more := w[1..];
      assert forall i :: 0 <= i < |more| ==> more[i] == w[i + 1];
      assert (w + u)[0] == w[0] && (w + u)[1..] == more + u;
      WordLengthPrefix(more, u);
    } else {
      assert w + u == u;
    }
  }

  /** Whitespace in front of the text, however long and of whatever kind,
      does not change `split()`. */
  lemma SplitSkipSpaces(sp: string, t: string)
    requires forall i :: 0 <= i < |sp| ==> IsSpace(sp[i])
    ensures Split(sp + t) == Split(t)
  {
    LeadingSpacesConcat(sp, t);
    assert (sp + t)[|sp| + LeadingSpaces(t)..] == t[LeadingSpaces(t)..];
  }

  /** A word followed by a non-empty run of whitespace of any kind is the
      first field; `split()` continues with the rest. Together with
      `SplitSkipSpaces` and `SplitSingleWord` (and `Split([]) == []`) this
      fixes `split()` on every string: its fields are the maximal runs of
      non-whitespace characters. */
  lemma SplitWordSpaces(w: string, sp: string, t: string)
    requires IsWord(w)
    requires sp != [] && forall i :: 0 <= i < |sp| ==> IsSpace(sp[i])
    ensures Split(w + sp + t) == [w] + Split(sp + t)
    ensures Split(w + sp + t) == [w] + Split(t)
  {
    var s := w + sp + t;
    assert s == w + (sp + t);
    assert s[0] == w[0];
    assert LeadingSpaces(s) == 0;
    assert s[0..] == s;
    WordLengthPrefix(w, sp + t);
    assert s[..|w|] == w && s[|w|..] == sp + t;
    SplitSkipSpaces(sp, t);
  }

  /** A string of whitespace only splits into no fields. */
  lemma SplitAllSpaces(sp: string)
    requires forall i :: 0 <= i < |sp| ==> IsSpace(sp[i])
    ensures Split(sp) == []
  {
    SplitSkipSpaces(sp, []);
    assert sp + [] == sp;
  }

  /** `" ".join(words)`. */
  function JoinWords(words: seq<string>): string
  {
    if words == [] then [] else if |words| == 1 then words[0] else words[0] + " " + JoinWords(words[1..])
  }

  lemma SplitSingleWord(w: string)
    requires IsWord(w)
    ensures Split(w) == [w]
  {
    assert LeadingSpaces(w) == 0;
    assert WordLength(w) == |w|;
    assert w[..|w|] == w && w[|w|..] == [];
  }

  lemma SplitAfterWord(w: string, t: string)
    requires IsWord(w)
    ensures Split(w + " " + t) == [w] + Split(t)
  {
    SplitWordSpaces(w, " ", t);
  }

  /** The inverse of `split()`: words joined with single spaces split back
      into the same words. */
  lemma {:induction false} SplitJoinWords(words: seq<string>)
    requires forall k :: 0 <= k < |words| ==> IsWord(words[k])
    ensures Split(JoinWords(words)) == words
  {
    if |words| == 1 {
      SplitSingleWord(words[0]);
    } else if |words| > 1 {
      var rest := words[1..];
      assert forall k :: 0 <= k < |rest| ==> rest[k] == words[k + 1];
      SplitJoinWords(rest);
      assert [words[0]] + rest == words;
      SplitJoinStep(words[0], rest);
    }
  }

  lemma SplitJoinStep(w: string, rest: seq<string>)
    requires IsWord(w) && rest != [] && Split(JoinWords(rest)) == rest
    ensures Split(JoinWords([w] + rest)) == [w] + rest
  {
    assert ([w] + rest)[1..] == rest;
    assert JoinWords([w] + rest) == w + " " + JoinWords(rest);
    SplitAfterWord(w, JoinWords(rest));
  }

  /** `s.split(sep)[-1]`: the longest suffix of `s` that does not contain
      `sep`, which is all of `s` when `sep` does not occur in it. */
  function AfterLast(s: string, sep: char): (r: string)
    ensures |r| <= |s| && r == s[|s| - |r|..]
    ensures sep !in r
    ensures |r| == |s| || s[|s| - |r| - 1] == sep
  {
    if s == [] then []
    else if s[|s| - 1] == sep then []
    else AfterLast(s[..|s| - 1], sep) + [s[|s| - 1]]
  }

  /** The segment after the last separator is what follows it. */
  lemma AfterLastOf(p: string, q: string, sep: char)
    requires sep !in q
    ensures AfterLast(p + [sep] + q, sep) == q
  {
    var s := p + [sep] + q;
    var r := AfterLast(s, sep);
    assert s[|s| - |q| - 1] == sep;
    assert forall i :: 0 <= i < |q| ==> s[|s| - |q| + i] == q[i];
    assert s[|s| - |q|..] == q;
  }

  // ---------------------------------------------------------------------------
  // Decimal numerals: str(int) and float()

  function DigitValue(c: char): nat
    requires IsDigit(c)
  {
    c as int - '0' as int
  }

  function DigitChar(d: nat): (c: char)
    requires d < 10
    ensures IsDigit(c) && DigitValue(c) == d
  {
    ('0' as int + d) as char
  }

  /** The number a string of decimal digits denotes (the empty string denotes 0). */
  function DigitsValue(ds: string): nat
    requires IsDigits(ds)
  {
    if ds == [] then 0 else 10 * DigitsValue(ds[..|ds| - 1]) + DigitValue(ds[|ds| - 1])
  }

  /** Leading zeros do not change the value of a numeral. */
  lemma {:induction false} LeadingZeroValue(ds: string)
    requires IsDigits(ds)
    ensures IsDigits("0" + ds) && DigitsValue("0" + ds) == DigitsValue(ds)
  {
    if ds != [] {
      assert ("0" + ds)[..|"0" + ds| - 1] == "0" + ds[..|ds| - 1];
      LeadingZeroValue(ds[..|ds| - 1]);
    }
  }

  /** Leading zeros do not change what `float()` returns: `float("007") ==
      float("7")`. */
  lemma ParseFloatLeadingZero(ds: string)
    requires IsDigits(ds) && ds != []
    ensures IsDecimalText(ds) && IsDecimalText("0" + ds)
    ensures ParseFloat("0" + ds) == ParseFloat(ds)
  {
    LeadingZeroValue(ds);
    ParseFloatInteger(ds);
    ParseFloatInteger("0" + ds);
  }

  /** `str(n)` for a non-negative integer: the canonical decimal numeral of
      `n`, with no leading zero, that reads back as `n`. */
  function NatToString(n: nat): (s: string)
    ensures s != [] && IsDigits(s)
    ensures DigitsValue(s) == n
    ensures |s| > 1 ==> s[0] != '0'
  {
    if n < 10 then [DigitChar(n)]
    else
      var s := NatToString(n / 10) + [DigitChar(n % 10)];
      assert s[..|s| - 1] == NatToString(n / 10);
      s
  }

  /** Distinct numbers have distinct numerals. */
  lemma NatToStringInjective(m: nat, n: nat)
    requires NatToString(m) == NatToString(n)
    ensures m == n
  {
  }

  function Pow10(n: nat): (r: nat)
    ensures r >= 1
  {
    if n == 0 then 1 else 10 * Pow10(n - 1)
  }

  /** The non-negative decimal number `units / 10^places`. This stands for the
      Python float that `float()` returns; rounding to a double is not
      modelled. */
  datatype Decimal = Decimal(units: nat, places: nat)

  /** The number zero, Python's `0.0`. */
  const Zero: Decimal := Decimal(0, 0)

  /** A decimal in lowest terms: no trailing zero digit after the point. Two
      canonical decimals denote the same number exactly when they are equal. */
  predicate IsCanonical(d: Decimal)
  {
    d.places == 0 || d.units % 10 != 0
  }

  lemma MulTen(x: int, p: int)
    ensures x * (10 * p) == 10 * (x * p)
  {
  }

  /** `units / 10^places` in lowest terms: the same number, written with the
      fewest digits after the point. */
  function Normalize(units: nat, places: nat): (d: Decimal)
    ensures IsCanonical(d) && d.places <= places
    ensures units == d.units * Pow10(places - d.places)
  {
    if places > 0 && units % 10 == 0 then
      var d := Normalize(units / 10, places - 1);
      MulTen(d.units, Pow10(places - 1 - d.places));
      d
    else Decimal(units, places)
  }

  /** The position of the first occurrence of `c` in `s`. */
  function IndexOf(s: string, c: char): (k: nat)
    requires c in s
    ensures k < |s| && s[k] == c && c !in s[..k]
  {
    if s[0] == c then 0
    else
      assert c in s[1..] by { assert s == [s[0]] + s[1..]; }
      var k := 1 + IndexOf(s[1..], c);
      assert s[..k] == [s[0]] + s[1..][..k - 1];
      k
  }

  /** `float(s)` for a string made only of digits and decimal points. It
      succeeds exactly when `s` has at most one point and at least one digit,
      with the number the digits denote, scaled down by the digits after the
      point; otherwise it raises `ValueError` on `s`. */
  function ParseFloat(s: string): (r: Result<Decimal>)
    requires IsDecimalText(s)
    ensures r.Ok? <==> Count(s, '.') <= 1 && Count(s, '.') < |s|
    ensures r.Err? ==> r.error == ValueError(s)
    ensures r.Ok? ==> IsCanonical(r.value)
  {
    if '.' !in s then
      if s == [] then Err(ValueError(s)) else Ok(Normalize(DigitsValue(s), 0))
    else
      var k := IndexOf(s, '.');
      var whole, frac := s[..k], s[k + 1..];
      assert s == whole + [s[k]] + frac;
      CountConcat(whole, [s[k]], '.');
      CountConcat(whole + [s[k]], frac, '.');
      if '.' in frac || (whole == [] && frac == []) then Err(ValueError(s))
      else
        assert IsDigits(whole + frac);
        Ok(Normalize(DigitsValue(whole + frac), |frac|))
  }

  /** `float()` of a numeral without a point is the integer it denotes; in
      particular `float(str(n)) == n`. */
  lemma ParseFloatInteger(s: string)
    requires IsDigits(s) && s != []
    ensures IsDecimalText(s)
    ensures ParseFloat(s) == Ok(Decimal(DigitsValue(s), 0))
  {
    assert forall k :: 0 <= k < |s| ==> s[k] != '.';
  }

  /** A trailing zero after the point does not change the number:
      `float("2.50") == float("2.5")`. */
  lemma ParseFloatTrailingZero(whole: string, frac: string)
    requires IsDigits(whole) && IsDigits(frac) && (whole != [] || frac != [])
    ensures IsDecimalText(whole + "." + frac) && IsDecimalText(whole + "." + frac + "0")
    ensures ParseFloat(whole + "." + frac + "0") == ParseFloat(whole + "." + frac)
  {
    PointSplit(whole, frac);
    PointZeroSplit(whole, frac);
    NormalizeShift(DigitsValue(whole + frac), |frac|);
  }

  /** How `ParseFloat` reads a numeral with one point and a trailing zero. */
  lemma PointZeroSplit(whole: string, frac: string)
    requires IsDigits(whole) && IsDigits(frac) && (whole != [] || frac != [])
    ensures IsDigits(whole + frac) && IsDecimalText(whole + "." + frac + "0")
    ensures ParseFloat(whole + "." + frac + "0") == Ok(Normalize(10 * DigitsValue(whole + frac), |frac| + 1))
  {
    AppendZeroFrac(whole, frac);
    PointSplit(whole, frac + "0");
    AppendZeroValue(whole + frac);
  }

  lemma AppendZeroFrac(whole: string, frac: string)
    requires IsDigits(frac)
    ensures IsDigits(frac + "0")
    ensures whole + "." + frac + "0" == whole + "." + (frac + "0")
    ensures whole + (frac + "0") == (whole + frac) + "0"
  {
    var f := frac + "0";
    assert forall i :: 0 <= i < |frac| ==> f[i] == frac[i];
  }

  lemma AppendZeroValue(ds: string)
    requires IsDigits(ds)
    ensures IsDigits(ds + "0") && DigitsValue(ds + "0") == 10 * DigitsValue(ds)
  {
    assert (ds + "0")[..|ds + "0"| - 1] == ds;
  }

  lemma NormalizeShift(units: nat, places: nat)
    ensures Normalize(10 * units, places + 1) == Normalize(units, places)
  {
    assert (10 * units) / 10 == units && (10 * units) % 10 == 0;
  }

  /** A point with no digits after it does not change the number:
      `float("7.") == float("7")`. */
  lemma ParseFloatTrailingPoint(whole: string)
    requires IsDigits(whole) && whole != []
    ensures IsDecimalText(whole + ".") && IsDecimalText(whole)
    ensures ParseFloat(whole + ".") == ParseFloat(whole)
  {
    PointSplit(whole, "");
    assert whole + "." == whole + "." + "";
    assert whole + "" == whole;
    ParseFloatInteger(whole);
  }

  /** How `ParseFloat` reads a numeral with exactly one point. */
  lemma PointSplit(whole: string, frac: string)
    requires IsDigits(whole) && IsDigits(frac) && (whole != [] || frac != [])
    ensures IsDecimalText(whole + "." + frac) && IsDigits(whole + frac)
    ensures ParseFloat(whole + "." + frac) == Ok(Normalize(DigitsValue(whole + frac), |frac|))
  {
    var s := whole + "." + frac;
    var k := IndexOf(s, '.');
    assert s[|whole|] == '.';
    assert forall i :: 0 <= i < |whole| ==> s[i] == whole[i];
    assert forall j :: |whole| < j <= |s| ==> s[..j][|whole|] == '.';
    assert k == |whole|;
    assert s[..|whole|] == whole && s[|whole| + 1..] == frac;
    assert '.' !in frac;
  }
}
