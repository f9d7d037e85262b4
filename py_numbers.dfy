/** Python's `int()` on a string (base 10), its inverse `str()` on an int,
    and the value union `float | int | str` that the `_auto` helpers return. */
module PyNumbers {
  import opened Outcomes
  import opened PyText
  import opened Sequences

  /** The value kinds an `_auto` helper can return. Python floats are
      represented by `real`; which real a text denotes is left to the
      caller-supplied `float()` parser. */
  datatype TypedValue = IntVal(i: int) | FloatVal(f: real) | StrVal(s: string)

  predicate IsDigit(c: char) { '0' <= c <= '9' }

  /** ASCII digits in which a single underscore may stand between two
      digits, the digit part `int()` accepts in base 10. */
  predicate IsDigitRun(d: string) {
    && |d| > 0 && IsDigit(d[0]) && IsDigit(d[|d| - 1])
    && (forall i :: 0 <= i < |d| ==> IsDigit(d[i]) || d[i] == '_')
    && (forall i :: 0 <= i < |d| - 1 ==> d[i] == '_' ==> d[i + 1] != '_')
  }

  /** The number the digits of `d` spell, underscores skipped. */
  function DigitsValue(d: string): nat
    requires forall i :: 0 <= i < |d| ==> IsDigit(d[i]) || d[i] == '_'
    decreases |d|
  {
    if d == [] then 0
    else if d[|d| - 1] == '_' then DigitsValue(d[..|d| - 1])
    else
      var last := d[|d| - 1];
      assert IsDigit(last);
      DigitsValue(d[..|d| - 1]) * 10 + (last as int - '0' as int)
  }

  /** The information separators FS, GS, RS and US (U+001C..U+001F):
      `isspace()` holds for them, but `int()` does not skip them. */
  predicate IsSeparator(c: char) { 0x1C <= c as int <= 0x1F }

  /** The whitespace `int()` skips around a literal: every `isspace()`
      character except the information separators. */
  predicate IsIntSpace(c: char) { IsSpace(c) && !IsSeparator(c) }

  predicate AllIntSpace(s: string) {
    forall i :: 0 <= i < |s| ==> IsIntSpace(s[i])
  }

  /** What `strip()` removes from `s` is all whitespace `int()` skips. */
  predicate IntMargins(s: string) {
    AllIntSpace(LeftMargin(s)) && AllIntSpace(RightMargin(s))
  }

  /** `int(s)`: surrounding whitespace other than FS..US is ignored, then an
      optional sign and a digit run must make up the rest; None where Python
      raises `ValueError`. */
  function ParseInt(s: string): (r: Option<int>)
    ensures r.Some? ==> IntMargins(s)
    ensures r.Some? ==> |Strip(s)| > 0 && IsDigit(Strip(s)[|Strip(s)| - 1])
    ensures r.Some? && r.value < 0 ==> Strip(s)[0] == '-'
  {
    var t := Strip(s);
    if !IntMargins(s) then None
    else if |t| > 0 && (t[0] == '-' || t[0] == '+') then
      if IsDigitRun(t[1..]) then
        var magnitude: int := DigitsValue(t[1..]);
        Some(if t[0] == '-' then -magnitude else magnitude)
      else None
    else if IsDigitRun(t) then Some(DigitsValue(t))
    else None
  }

  /** `str(n)` for n >= 0. */
  function ShowNat(n: nat): (r: string)
    ensures |r| > 0 && forall i :: 0 <= i < |r| ==> IsDigit(r[i])
  {
    if n < 10 then [('0' as int + n) as char]
    else ShowNat(n / 10) + [('0' as int + n % 10) as char]
  }

  /** `str(n)` */
  function ShowInt(n: int): string {
    if n < 0 then "-" + ShowNat(-n) else ShowNat(n)
  }

  /** `str(n)` holds no `.`. */
  lemma ShowIntNoDot(n: int)
    ensures '.' !in ShowInt(n)
  {
    var t := ShowInt(n);
    forall i | 0 <= i < |t| ensures t[i] != '.' {
      if n < 0 {
        assert t == "-" + ShowNat(-n);
        if i > 0 { assert t[i] == ShowNat(-n)[i - 1]; }
      }
    }
  }

  /** `str(n)` has no whitespace to strip. */
  lemma ShowIntStripped(n: int)
    ensures Strip(ShowInt(n)) == ShowInt(n)
  {
    var t := ShowInt(n);
    if n < 0 { assert t == "-" + ShowNat(-n); }
    assert IsStripped(t);
    StripStripped(t);
  }

  lemma {:induction false} ShowNatValue(n: nat)
    ensures DigitsValue(ShowNat(n)) == n
  {
    if n >= 10 {
      ShowNatValue(n / 10);
      var r := ShowNat(n);
      assert r[..|r| - 1] == ShowNat(n / 10);
    }
  }

  /** `int(str(n)) == n` */
  lemma ParseShowInt(n: int)
    ensures ParseInt(ShowInt(n)) == Some(n)
  {
    var t := ShowInt(n);
    var digits := if n < 0 then -n else n;
    ShowNatValue(digits);
    ShowIntStripped(n);
    StripStripped(t);
    assert IntMargins(t);
    if n < 0 {
      assert t[1..] == ShowNat(digits);
    }
  }

  /** `int()` tolerates whitespace other than FS..US on either side. */
  lemma ParseIntPadded(p: string, s: string, q: string)
    requires AllIntSpace(p) && AllIntSpace(q)
    ensures ParseInt(p + s + q) == ParseInt(s)
  {
    IntSpaceIsSpace(p);
    IntSpaceIsSpace(q);
    StripPadding(p, s, q);
    var core := Strip(s);
    if core != [] {
      var pre, post := StripSplit(s);
      Regroup(p, pre, core, post, q);
      AllSpaceAppend(p, pre);
      AllSpaceAppend(post, q);
      StripCore(p + pre, core, post + q);
      AllIntSpaceAppend(p, pre);
      AllIntSpaceAppend(post, q);
      ParseIntByParts(p + s + q, s);
    } else {
      ParseIntEmpty(s);
      ParseIntEmpty(p + s + q);
    }
  }

  /** `int()` depends only on the stripped text and on whether what is
      stripped is whitespace it skips. */
  lemma ParseIntByParts(s1: string, s2: string)
    requires Strip(s1) == Strip(s2) && IntMargins(s1) == IntMargins(s2)
    ensures ParseInt(s1) == ParseInt(s2)
  {
  }

  /** Blank text is no literal. */
  lemma ParseIntEmpty(s: string)
    requires Strip(s) == []
    ensures ParseInt(s) == None
  {
  }

  lemma IntSpaceIsSpace(s: string)
    requires AllIntSpace(s)
    ensures AllSpace(s)
  {
  }

  /** A concatenation is all `int()` whitespace exactly when both parts are. */
  lemma AllIntSpaceAppend(a: string, b: string)
    ensures AllIntSpace(a + b) <==> AllIntSpace(a) && AllIntSpace(b)
  {
    if AllIntSpace(a + b) {
      forall i | 0 <= i < |a| ensures IsIntSpace(a[i]) { assert a[i] == (a + b)[i]; }
      forall i | 0 <= i < |b| ensures IsIntSpace(b[i]) { assert b[i] == (a + b)[|a| + i]; }
    }
    if AllIntSpace(a) && AllIntSpace(b) {
      forall i | 0 <= i < |a + b| ensures IsIntSpace((a + b)[i]) {
        if i >= |a| { assert (a + b)[i] == b[i - |a|]; }
      }
    }
  }

  /** Unlike `strip()`, `int()` does not skip FS: `int("\x1c5")` raises
      although `"\x1c5".strip()` is `"5"`. */
  lemma ParseIntSeparator(s: string)
    requires s == [0x1C as char, '5']
    ensures ParseInt(s) == None && Strip(s) == "5"
  {
    assert LeadingSpace(s) == 1;
    assert s[1..] == "5" && TrailingSpace("5") == 0;
    assert LeftMargin(s) == [0x1C as char];
    assert !IsIntSpace(LeftMargin(s)[0]);
  }

  /** Leading zeros are accepted and lost. */
  lemma ParseIntLeadingZeros()
    ensures ParseInt("007") == Some(7)
  {
    ParseIntDigits("007");
    assert "007"[..2] == "00" && "00"[..1] == "0" && "0"[..0] == [];
    assert DigitsValue("007") == 7;
  }

  /** A bare digit run is read as the number it spells. */
  lemma ParseIntDigits(t: string)
    requires IsDigitRun(t)
    ensures ParseInt(t) == Some(DigitsValue(t))
  {
    assert IsStripped(t);
    StripStripped(t);
    assert IntMargins(t);
  }

  /** A sign is accepted before the digits. */
  lemma ParseIntSigned()
    ensures ParseInt("-12") == Some(-12)
  {
    StripStripped("-12");
    assert "-12"[1..] == "12";
    assert IsDigitRun("12");
    ValueOfTwelve();
  }

  lemma ValueOfTwelve()
    ensures DigitsValue("12") == 12
  {
    assert "12"[..1] == "1" && "1"[..0] == [];
  }

  /** Underscores are accepted between digits. */
  lemma ParseIntUnderscore()
    ensures ParseInt("1_000") == Some(1000)
  {
    assert IsDigitRun("1_000");
    ParseIntDigits("1_000");
    ValueOfThousand();
  }

  lemma ValueOfThousand()
    ensures DigitsValue("1_000") == 1000
  {
    assert "1_000"[..4] == "1_00" && "1_00"[..3] == "1_0" && "1_0"[..2] == "1_";
    assert "1_"[..1] == "1" && "1"[..0] == [];
  }

  /** Two underscores in a row are rejected. */
  lemma ParseIntDoubleUnderscore()
    ensures ParseInt("1__0") == None
  {
    StripStripped("1__0");
    assert "1__0"[1] == '_' && "1__0"[2] == '_';
  }

  /** A space between the sign and the digits is rejected. */
  lemma ParseIntSpaceAfterSign()
    ensures ParseInt("- 5") == None
  {
    StripStripped("- 5");
    assert "- 5"[1..] == " 5";
    assert !IsDigit(" 5"[0]);
  }
}
