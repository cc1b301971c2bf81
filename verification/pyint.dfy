/** Python's `int(text)` on a field of a tab-separated line, and `str(n)` when an
    integer is written back out. */
module PyInt {
  import opened Wrappers

  /** The characters `int()` skips around a number. Below 128 these are only tab,
      line feed, vertical tab, form feed, carriage return and space: the separators
      0x1C-0x1F count as Unicode whitespace but are kept as they are, and rejected,
      when the text is converted to ASCII. Above 127 every Unicode whitespace
      character is turned into a space first: next line, no-break space, ogham space
      mark, the spaces 0x2000-0x200A, the line and paragraph separators, narrow
      no-break space, medium mathematical space and ideographic space. */
  predicate IsSpace(c: char) {
    ('\t' <= c <= '\r') || c == ' ' || ('\U{85}' <= c && IsWideSpace(c))
  }

  /** Unicode whitespace above 127. */
  predicate IsWideSpace(c: char) {
    c == '\U{85}' || c == '\U{A0}' || c == '\U{1680}' || ('\U{2000}' <= c <= '\U{200A}')
    || c == '\U{2028}' || c == '\U{2029}' || c == '\U{202F}' || c == '\U{205F}' || c == '\U{3000}'
  }

  predicate IsDigit(c: char) {
    '0' <= c <= '9'
  }

  /** One or more decimal digits. */
  predicate IsDigits(s: string) {
    |s| > 0 && forall i :: 0 <= i < |s| ==> IsDigit(s[i])
  }

  /** `s` with surrounding spaces removed: what is left comes from `s`, and what is
      dropped is space. */
  function TrimSpace(s: string): (r: string)
    ensures |r| <= |s|
    ensures r == [] || (!IsSpace(r[0]) && !IsSpace(r[|r| - 1]))
    decreases |s|
  {
    if |s| > 0 && IsSpace(s[0]) then TrimSpace(s[1..])
    else if |s| > 0 && IsSpace(s[|s| - 1]) then TrimSpace(s[..|s| - 1])
    else s
  }

  /** What trimming keeps comes from the text, and what it drops is space. */
  lemma {:induction false} TrimSpaceMembers(s: string)
    ensures forall c :: c in TrimSpace(s) ==> c in s
    ensures forall c :: c in s ==> c in TrimSpace(s) || IsSpace(c)
    decreases |s|
  {
    if |s| > 0 && IsSpace(s[0]) {
      TrimSpaceMembers(s[1..]);
      assert forall c :: c in s ==> c == s[0] || c in s[1..];
    } else if |s| > 0 && IsSpace(s[|s| - 1]) {
      TrimSpaceMembers(s[..|s| - 1]);
      assert forall c :: c in s ==> c == s[|s| - 1] || c in s[..|s| - 1];
    }
  }

  /** A text that neither starts nor ends with a space is left as it is. */
  lemma TrimSpaceUnpadded(s: string)
    requires |s| > 0 && !IsSpace(s[0]) && !IsSpace(s[|s| - 1])
    ensures TrimSpace(s) == s
  {
  }

  /** The value of a run of decimal digits, most significant first (leading zeros allowed). */
  function DigitsValue(s: string): nat
    requires forall i :: 0 <= i < |s| ==> IsDigit(s[i])
    decreases |s|
  {
    if |s| == 0 then 0
    else
      assert IsDigit(s[|s| - 1]);
      DigitsValue(s[..|s| - 1]) * 10 + (s[|s| - 1] as int - '0' as int)
  }

  /** `int(s)`: optional surrounding spaces, an optional sign, then one or more
      digits; anything else raises, modelled as `None`. A blank text raises, and a
      negative number needs a minus sign. */
  function ParseInt(s: string): (r: Option<int>)
    ensures TrimSpace(s) == [] ==> r.None?
    ensures r.Some? && r.value < 0 ==> '-' in s
  {
    TrimSpaceMembers(s);
    var t := TrimSpace(s);
    if |t| > 0 && (t[0] == '-' || t[0] == '+') then
      if IsDigits(t[1..]) then
        var v: int := DigitsValue(t[1..]);
        Some(if t[0] == '-' then -v else v)
      else None
    else if IsDigits(t) then Some(DigitsValue(t))
    else None
  }

  /** A text that reads as a number holds a digit, and nothing but spaces, digits
      and signs. */
  lemma ParseIntShape(s: string)
    ensures ParseInt(s).Some? ==> exists c :: c in s && IsDigit(c)
    ensures ParseInt(s).Some? ==> forall c :: c in s ==> IsSpace(c) || IsDigit(c) || c == '-' || c == '+'
  {
    if ParseInt(s).Some? {
      TrimSpaceMembers(s);
      var t := TrimSpace(s);
      assert t[|t| - 1] in t;
      if t[0] == '-' || t[0] == '+' {
        assert forall c :: c in t ==> c == t[0] || c in t[1..];
      }
    }
  }

  function DigitChar(d: nat): (c: char)
    requires d < 10
    ensures IsDigit(c)
  {
    (d + '0' as int) as char
  }

  /** `str(n)` for a natural number: digits without leading zeros. */
  function FormatNat(n: nat): (r: string)
    ensures IsDigits(r)
    ensures r[0] == '0' ==> n == 0 && |r| == 1
    decreases n
  {
    if n < 10 then [DigitChar(n)] else FormatNat(n / 10) + [DigitChar(n % 10)]
  }

  /** `str(n)`: a minus sign exactly for negative numbers, then digits without
      leading zeros. */
  function FormatInt(n: int): (r: string)
    ensures |r| > 0
    ensures (r[0] == '-') == (n < 0)
    ensures n < 0 ==> IsDigits(r[1..]) && r[1] != '0'
    ensures n >= 0 ==> IsDigits(r) && (r[0] == '0' ==> r == "0")
  {
    if n < 0 then "-" + FormatNat(-n) else FormatNat(n)
  }

  /** A written integer is a sign and digits, so it holds no newline. */
  lemma NoNewlineInNumber(n: int)
    ensures '\n' !in FormatInt(n)
  {
    var s := FormatInt(n);
    if n < 0 {
      assert s == [s[0]] + s[1..];
    }
  }

  lemma {:induction false} DigitsValueFormatNat(n: nat)
    ensures DigitsValue(FormatNat(n)) == n
    decreases n
  {
    if n >= 10 {
      DigitsValueFormatNat(n / 10);
      var s := FormatNat(n);
      assert s[..|s| - 1] == FormatNat(n / 10);
    }
  }

  /** A run of digits reads as its value. */
  lemma ParseIntDigits(s: string)
    requires IsDigits(s)
    ensures ParseInt(s) == Some(DigitsValue(s))
  {
    TrimSpaceUnpadded(s);
  }

  /** A minus sign followed by a run of digits reads as the negated value. */
  lemma ParseIntNegative(s: string, d: string)
    requires IsDigits(d) && s == "-" + d
    ensures ParseInt(s) == Some(-(DigitsValue(d) as int))
  {
    assert s[1..] == d;
    TrimSpaceUnpadded(s);
  }

  /** Reading back what `str` wrote gives the number: `int(str(n)) == n`. */
  lemma {:induction false} ParseFormatInt(n: int)
    ensures ParseInt(FormatInt(n)) == Some(n)
  {
    var s := FormatInt(n);
    if n < 0 {
      DigitsValueFormatNat(-n);
      ParseIntNegative(s, FormatNat(-n));
    } else {
      DigitsValueFormatNat(n);
      ParseIntDigits(s);
    }
  }

  /** Different numbers are written differently. */
  lemma FormatIntInjective(m: int, n: int)
    requires FormatInt(m) == FormatInt(n)
    ensures m == n
  {
    ParseFormatInt(m);
    ParseFormatInt(n);
  }
}
