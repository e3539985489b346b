/** The handful of `java.lang.String` / `Integer` operations the services
    rely on, restricted to the ASCII range: `Integer.parseInt`,
    `String.valueOf(int)`, `toLowerCase`, `equalsIgnoreCase`, `trim`,
    `contains` and the SQL `LIKE` used by the audit repositories. */
module Text {
  import opened Common

  /** Bounds of a Java `int`. */
  const IntMin: int := -0x8000_0000
  const IntMax: int := 0x7FFF_FFFF

  predicate IsInt32(n: int) {
    IntMin <= n <= IntMax
  }

  /** Two's-complement wrap-around of `int` arithmetic: the `int` congruent
      to `n` modulo 2^32. */
  function WrapInt32(n: int): (r: int)
    ensures IsInt32(r)
    ensures (r - n) % 0x1_0000_0000 == 0
    ensures IsInt32(n) ==> r == n
  {
    (n - IntMin) % 0x1_0000_0000 + IntMin
  }

  // ---------------------------------------------------------------------
  // Decimal numerals
  // ---------------------------------------------------------------------

  predicate IsDigit(c: char) {
    '0' <= c <= '9'
  }

  predicate AllDigits(s: string) {
    forall i :: 0 <= i < |s| ==> IsDigit(s[i])
  }

  function DigitValue(c: char): (d: nat)
    requires IsDigit(c)
    ensures d < 10
  {
    c as int - '0' as int
  }

  function DigitChar(d: nat): (c: char)
    requires d < 10
    ensures IsDigit(c)
    ensures DigitValue(c) == d
  {
    ('0' as int + d) as char
  }

  /** The number a run of decimal digits denotes, most significant first. */
  function DigitsValue(s: string): (n: nat)
    requires AllDigits(s)
    decreases |s|
  {
    if s == [] then 0
    else DigitsValue(s[..|s| - 1]) * 10 + DigitValue(s[|s| - 1])
  }

  /** The shortest decimal numeral of `n` (no leading zeros). */
  function NatToString(n: nat): (s: string)
    ensures |s| > 0
    ensures AllDigits(s)
    ensures |s| > 1 ==> s[0] != '0'
    decreases n
  {
    if n < 10 then [DigitChar(n)]
    else NatToString(n / 10) + [DigitChar(n % 10)]
  }

  /** `String.valueOf(int)`: an optional minus sign followed by the
      shortest numeral of the magnitude. */
  function IntToString(n: int): (s: string)
    ensures |s| > 0
    ensures s[0] == '-' <==> n < 0
  {
    if n < 0 then "-" + NatToString(-n) else NatToString(n)
  }

  /** `Integer.parseInt`: an optional `+` or `-`, then one or more digits,
      denoting a value inside the `int` range; anything else is a
      `NumberFormatException` (`None`). */
  function ParseInt(s: string): (r: Option<int>)
    ensures r.Some? ==> IsInt32(r.value)
    ensures r.Some? ==> |s| > 0 && (IsDigit(s[0]) || s[0] == '-' || s[0] == '+')
  {
    if |s| == 0 then None
    else
      var body := if s[0] == '-' || s[0] == '+' then s[1..] else s;
      if |body| == 0 || !AllDigits(body) then None
      else
        var magnitude: int := DigitsValue(body);
        var v := if s[0] == '-' then -magnitude else magnitude;
        if IsInt32(v) then Some(v) else None
  }

  lemma {:induction false} NatToStringValue(n: nat)
    ensures DigitsValue(NatToString(n)) == n
    decreases n
  {
    var s := NatToString(n);
    if n >= 10 {
      NatToStringValue(n / 10);
      assert s[..|s| - 1] == NatToString(n / 10);
    }
  }

  /** Every `int` printed by `String.valueOf` parses back to itself. */
  lemma ParseIntOfIntToString(n: int)
    requires IsInt32(n)
    ensures ParseInt(IntToString(n)) == Some(n)
  {
    var s := IntToString(n);
    if n < 0 {
      NatToStringValue(-n);
      assert s[1..] == NatToString(-n);
    } else {
      NatToStringValue(n);
    }
  }

  /** Distinct ids print differently (so a printed id names one record). */
  lemma IntToStringInjective(a: int, b: int)
    requires IsInt32(a) && IsInt32(b)
    requires IntToString(a) == IntToString(b)
    ensures a == b
  {
    ParseIntOfIntToString(a);
    ParseIntOfIntToString(b);
  }

  /** `parseInt` also accepts numerals `valueOf` never prints: a leading
      zero or a plus sign denote the same number as the canonical form. */
  lemma ParseIntAcceptsLeadingZero()
    ensures ParseInt("07") == Some(7)
    ensures ParseInt("+7") == Some(7)
    ensures IntToString(7) == "7"
  {
    assert DigitsValue("0") == 0 by { assert "0"[..0] == []; }
    assert DigitsValue("7") == 7 by { assert "7"[..0] == []; }
    assert DigitsValue("07") == 7 by { assert "07"[..1] == "0"; }
    assert "+7"[1..] == "7";
  }

  // ---------------------------------------------------------------------
  // Case
  // ---------------------------------------------------------------------

  predicate IsUpper(c: char) {
    'A' <= c <= 'Z'
  }

  /** `Character.toLowerCase` on the ASCII range. */
  function ToLower(c: char): (r: char)
    ensures !IsUpper(r)
    ensures !IsUpper(c) ==> r == c
    ensures IsUpper(c) ==> r as int == c as int + 32
  {
    if IsUpper(c) then (c as int + 32) as char else c
  }

  /** `String.toLowerCase` on the ASCII range. */
  function Lower(s: string): (r: string)
    ensures |r| == |s|
    ensures forall i :: 0 <= i < |s| ==> r[i] == ToLower(s[i])
  {
    seq(|s|, i requires 0 <= i < |s| => ToLower(s[i]))
  }

  /** `String.equalsIgnoreCase` on the ASCII range: same length and the
      same characters up to case. */
  predicate EqualsIgnoreCase(a: string, b: string) {
    Lower(a) == Lower(b)
  }

  /** Lower-casing twice changes nothing more. */
  lemma LowerIdempotent(s: string)
    ensures Lower(Lower(s)) == Lower(s)
  {
  }

  /** A lower-cased copy is equal to the original up to case, and
      `equalsIgnoreCase` is an equivalence. */
  lemma EqualsIgnoreCaseFacts(a: string, b: string, c: string)
    ensures EqualsIgnoreCase(a, Lower(a))
    ensures EqualsIgnoreCase(a, b) <==> EqualsIgnoreCase(b, a)
    ensures EqualsIgnoreCase(a, b) && EqualsIgnoreCase(b, c) ==> EqualsIgnoreCase(a, c)
    ensures EqualsIgnoreCase(a, b) ==> |a| == |b|
  {
    LowerIdempotent(a);
  }

  // ---------------------------------------------------------------------
  // Blank strings and trim
  // ---------------------------------------------------------------------

  /** `s.trim().isEmpty()`: every character is a control character or space. */
  predicate IsBlank(s: string) {
    forall i :: 0 <= i < |s| ==> s[i] <= ' '
  }

  /** Drops leading characters `<= ' '`. */
  function TrimStart(s: string): (r: string)
    ensures |r| <= |s| && r == s[|s| - |r|..]
    ensures r == [] || r[0] > ' '
    ensures IsBlank(s[..|s| - |r|])
    ensures r == [] <==> IsBlank(s)
    decreases |s|
  {
    if s == [] || s[0] > ' ' then s
    else
      var r := TrimStart(s[1..]);
      TrimStartStep(s, r);
      r
  }

  /** A blank first character joins the blank prefix the rest is trimmed of. */
  lemma TrimStartStep(s: string, r: string)
    requires s != [] && s[0] <= ' '
    requires |r| <= |s| - 1 && r == s[1..][|s| - 1 - |r|..]
    requires IsBlank(s[1..][..|s| - 1 - |r|])
    requires r == [] <==> IsBlank(s[1..])
    ensures r == s[|s| - |r|..]
    ensures IsBlank(s[..|s| - |r|])
    ensures r == [] <==> IsBlank(s)
  {
    var k := |s| - |r|;
    assert s[1..][|s| - 1 - |r|..] == s[k..];
    assert s[1..][..|s| - 1 - |r|] == s[1..k];
    assert s[..k] == [s[0]] + s[1..k];
    assert IsBlank(s) <==> IsBlank(s[1..]) by {
      assert forall i :: 1 <= i < |s| ==> s[i] == s[1..][i - 1];
    }
  }

  /** Drops trailing characters `<= ' '`. */
  function TrimEnd(s: string): (r: string)
    ensures |r| <= |s| && r == s[..|r|]
    ensures r == [] || r[|r| - 1] > ' '
    ensures IsBlank(s[|r|..])
    ensures r == [] <==> IsBlank(s)
    decreases |s|
  {
    if s == [] || s[|s| - 1] > ' ' then s
    else
      var r := TrimEnd(s[..|s| - 1]);
      TrimEndStep(s, r);
      r
  }

  /** A blank last character joins the blank suffix the rest is trimmed of. */
  lemma TrimEndStep(s: string, r: string)
    requires s != [] && s[|s| - 1] <= ' '
    requires |r| <= |s| - 1 && r == s[..|s| - 1][..|r|]
    requires IsBlank(s[..|s| - 1][|r|..])
    requires r == [] <==> IsBlank(s[..|s| - 1])
    ensures r == s[..|r|]
    ensures IsBlank(s[|r|..])
    ensures r == [] <==> IsBlank(s)
  {
    assert s[..|s| - 1][..|r|] == s[..|r|];
    assert s[..|s| - 1][|r|..] == s[|r|..|s| - 1];
    assert s[|r|..] == s[|r|..|s| - 1] + [s[|s| - 1]];
    assert IsBlank(s) <==> IsBlank(s[..|s| - 1]) by {
      assert forall i :: 0 <= i < |s| - 1 ==> s[i] == s[..|s| - 1][i];
    }
  }

  /** `r` is the infix of `s` at `i`, with only blank characters around it. */
  predicate StripsTo(s: string, r: string, i: int) {
    0 <= i <= |s| - |r| && r == s[i..i + |r|]
    && IsBlank(s[..i]) && IsBlank(s[i + |r|..])
  }

  /** `String.trim`: the infix that neither starts nor ends with a
      character `<= ' '`, obtained by removing only such characters. */
  function Trim(s: string): (r: string)
    ensures r == [] || (r[0] > ' ' && r[|r| - 1] > ' ')
    ensures exists i :: StripsTo(s, r, i)
  {
    TrimStrips(s);
    TrimEnd(TrimStart(s))
  }

  /** Trimming the end after the start leaves an infix with blanks only
      around it. */
  lemma TrimStrips(s: string)
    ensures StripsTo(s, TrimEnd(TrimStart(s)), |s| - |TrimStart(s)|)
  {
    var a := TrimStart(s);
    var r := TrimEnd(a);
    var i := |s| - |a|;
    assert IsBlank(s[..i]);
    assert IsBlank(a[|r|..]);
    assert a == s[i..];
    assert r == a[..|r|];
    assert s[i..i + |r|] == r by {
      assert s[i..][..|r|] == s[i..i + |r|];
    }
    assert s[i + |r|..] == a[|r|..] by {
      assert s[i..][|r|..] == s[i + |r|..];
    }
    assert 0 <= i <= |s| - |r|;
    assert IsBlank(s[i + |r|..]);
    assert StripsTo(s, r, i);
  }

  /** A string trims to nothing exactly when it is blank. */
  lemma TrimEmptyIffBlank(s: string)
    ensures Trim(s) == [] <==> IsBlank(s)
  {
    var a := TrimStart(s);
    assert a != [] ==> !IsBlank(a);
  }

  // ---------------------------------------------------------------------
  // Substrings and SQL LIKE
  // ---------------------------------------------------------------------

  predicate IsPrefix(p: string, s: string) {
    |p| <= |s| && s[..|p|] == p
  }

  /** `p` occurs in `s` at position `i`. */
  predicate OccursAt(s: string, p: string, i: int) {
    0 <= i <= |s| - |p| && s[i..i + |p|] == p
  }

  /** `p` occurs in `s` at some position. */
  predicate Contains(s: string, p: string) {
    exists i :: 0 <= i <= |s| && OccursAt(s, p, i)
  }

  /** The two wildcards of SQL `LIKE`. */
  predicate IsWildcard(c: char) {
    c == '%' || c == '_'
  }

  predicate NoWildcards(p: string) {
    forall i :: 0 <= i < |p| ==> !IsWildcard(p[i])
  }

  /** SQL `s LIKE pat`: `%` matches any run of characters, `_` any single
      character, every other character itself. */
  predicate Like(s: string, pat: string)
    decreases |pat|, |s|
  {
    if pat == [] then s == []
    else if pat[0] == '%' then
      Like(s, pat[1..]) || (s != [] && Like(s[1..], pat))
    else
      s != [] && (pat[0] == '_' || pat[0] == s[0]) && Like(s[1..], pat[1..])
  }

  /** A wildcard-free pattern followed by `%` matches exactly the strings it
      begins. */
  lemma {:induction false} LikePrefix(s: string, p: string)
    requires NoWildcards(p)
    ensures Like(s, p + "%") <==> IsPrefix(p, s)
    decreases |p|
  {
    if p == [] {
      assert p + "%" == "%";
      LikeAnything(s);
    } else {
      assert (p + "%")[1..] == p[1..] + "%";
      if s != [] {
        LikePrefix(s[1..], p[1..]);
        if IsPrefix(p, s) {
          assert s[1..][..|p| - 1] == s[..|p|][1..];
        }
        if IsPrefix(p[1..], s[1..]) && p[0] == s[0] {
          assert s[..|p|] == [s[0]] + s[1..][..|p| - 1];
        }
      }
    }
  }

  /** `%` alone matches every string. */
  lemma {:induction false} LikeAnything(s: string)
    ensures Like(s, "%")
    decreases |s|
  {
    assert "%"[1..] == [];
    if s != [] {
      LikeAnything(s[1..]);
    }
  }

  /** `% pat` matches `s` iff `pat` matches some suffix of `s`. */
  lemma {:induction false} LikeLeadingPercent(s: string, q: string)
    ensures Like(s, "%" + q) <==> exists i :: 0 <= i <= |s| && Like(s[i..], q)
    decreases |s|
  {
    var pat := "%" + q;
    assert pat[1..] == q;
    if s == [] {
      assert s[0..] == s;
      if Like(s, q) {
        assert 0 <= 0 <= |s| && Like(s[0..], q);
      }
    } else {
      LikeLeadingPercent(s[1..], q);
      assert Like(s, pat) <==> Like(s, q) || Like(s[1..], pat);
      if Like(s, pat) {
        if Like(s, q) {
          assert s[0..] == s;
          assert 0 <= 0 <= |s| && Like(s[0..], q);
        } else {
          var j :| 0 <= j <= |s[1..]| && Like(s[1..][j..], q);
          assert s[1..][j..] == s[j + 1..];
          assert 0 <= j + 1 <= |s| && Like(s[j + 1..], q);
        }
      }
      if exists i :: 0 <= i <= |s| && Like(s[i..], q) {
        var i :| 0 <= i <= |s| && Like(s[i..], q);
        if i > 0 {
          assert s[1..][i - 1..] == s[i..];
          assert 0 <= i - 1 <= |s[1..]| && Like(s[1..][i - 1..], q);
          assert Like(s[1..], pat);
        } else {
          assert s[0..] == s;
          assert Like(s, q);
        }
        assert Like(s, pat);
      }
    }
  }

  /** `'%' || p || '%'` with a wildcard-free `p` is a substring test. */
  lemma LikeContains(s: string, p: string)
    requires NoWildcards(p)
    ensures Like(s, "%" + p + "%") <==> Contains(s, p)
  {
    assert "%" + p + "%" == "%" + (p + "%");
    LikeLeadingPercent(s, p + "%");
    forall i | 0 <= i <= |s|
      ensures Like(s[i..], p + "%") <==> IsPrefix(p, s[i..])
    {
      LikePrefix(s[i..], p);
    }
    ContainsAsPrefix(s, p);
  }

  /** `p` occurs in `s` exactly when some suffix of `s` starts with `p`. */
  lemma ContainsAsPrefix(s: string, p: string)
    ensures Contains(s, p) <==> exists i :: 0 <= i <= |s| && IsPrefix(p, s[i..])
  {
    if Contains(s, p) {
      var i :| 0 <= i <= |s| && OccursAt(s, p, i);
      assert s[i..][..|p|] == s[i..i + |p|];
      assert IsPrefix(p, s[i..]);
    }
    if exists i :: 0 <= i <= |s| && IsPrefix(p, s[i..]) {
      var i :| 0 <= i <= |s| && IsPrefix(p, s[i..]);
      assert s[i..][..|p|] == s[i..i + |p|];
      assert OccursAt(s, p, i);
    }
  }
}
