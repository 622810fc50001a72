/**
 * The Python string primitives the rule engine relies on: `str.lower()`,
 * `str.replace`, the `in` substring test, `str.split(':')[1]` and `int(str)`.
 * Characters are Unicode scalar values; case mapping and whitespace are the
 * ASCII subset of Python's rules.
 */
module Text {
  import opened Common

  predicate IsUpper(c: char) {
    'A' <= c <= 'Z'
  }

  /** `str.lower()` on one character, ASCII letters only. */
  function LowerChar(c: char): char {
    if IsUpper(c) then (c as int + 32) as char else c
  }

  /** `a` and `b` are the same character up to the case of an ASCII letter. */
  predicate CaseAlike(a: char, b: char) {
    || a == b
    || (IsUpper(a) && b as int == a as int + 32)
    || (IsUpper(b) && a as int == b as int + 32)
  }

  /**
   * `str.lower()`, ASCII letters only: the result has no upper-case letter
   * left and differs from `s` only in letter case.
   */
  function Lower(s: string): (r: string)
    ensures |r| == |s|
    ensures forall i :: 0 <= i < |r| ==> !IsUpper(r[i]) && CaseAlike(s[i], r[i])
  {
    seq(|s|, i requires 0 <= i < |s| => LowerChar(s[i]))
  }

  /**
   * `str.replace(a, b)` for single characters `a` and `b`: every character
   * is kept or is an `a` turned into `b`, and no `a` is left.
   */
  function ReplaceChar(s: string, a: char, b: char): (r: string)
    ensures |r| == |s|
    ensures forall i :: 0 <= i < |r| ==> r[i] == s[i] || (s[i] == a && r[i] == b)
    ensures a != b ==> a !in r
  {
    seq(|s|, i requires 0 <= i < |s| => if s[i] == a then b else s[i])
  }

  /** Two strings lower-case alike exactly when they differ only in letter case. */
  lemma LowerAlike(a: string, b: string)
    ensures Lower(a) == Lower(b) <==> |a| == |b| && forall i :: 0 <= i < |a| ==> CaseAlike(a[i], b[i])
  {
    if |a| == |b| && forall i :: 0 <= i < |a| ==> CaseAlike(a[i], b[i]) {
      forall i | 0 <= i < |a|
        ensures Lower(a)[i] == Lower(b)[i]
      {
        assert CaseAlike(a[i], b[i]);
      }
    }
  }

  /** `needle` occurs in `hay` starting at index `i`. */
  ghost predicate OccursAt(needle: string, hay: string, i: int) {
    0 <= i && i + |needle| <= |hay| && hay[i..i + |needle|] == needle
  }

  /** Python's `needle in hay` for strings. */
  function IsSubstring(needle: string, hay: string): (r: bool)
    ensures r <==> exists i :: OccursAt(needle, hay, i)
    decreases |hay|
  {
    if needle <= hay then
      assert OccursAt(needle, hay, 0);
      true
    else if |hay| == 0 then
      false
    else
      var r := IsSubstring(needle, hay[1..]);
      assert r ==> exists i :: OccursAt(needle, hay, i) by {
        if r {
          var i :| OccursAt(needle, hay[1..], i);
          assert hay[1..][i..i + |needle|] == hay[i + 1..i + 1 + |needle|];
          assert OccursAt(needle, hay, i + 1);
        }
      }
      assert (exists i :: OccursAt(needle, hay, i)) ==> r by {
        if exists i :: OccursAt(needle, hay, i) {
          var i :| OccursAt(needle, hay, i);
          assert i != 0;
          assert hay[1..][i - 1..i - 1 + |needle|] == hay[i..i + |needle|];
          assert OccursAt(needle, hay[1..], i - 1);
        }
      }
      r
  }

  /** The text of `s` before the first `c`: `s.split(c)[0]`. */
  function UpTo(s: string, c: char): (r: string)
    ensures r <= s
    ensures c !in r
    ensures |r| < |s| ==> s[|r|] == c
  {
    if |s| == 0 || s[0] == c then [] else [s[0]] + UpTo(s[1..], c)
  }

  /**
   * The characters `int()` skips around a number among the ASCII ones: space,
   * tab, line feed, vertical tab, form feed and carriage return. The
   * separators 0x1C-0x1F, which `str.strip()` would drop, are not among them.
   */
  predicate IsSpace(c: char) {
    c == ' ' || '\t' <= c <= '\r'
  }

  /** Drops leading whitespace. */
  function StripLeft(s: string): (r: string)
    ensures |r| <= |s|
  {
    if |s| > 0 && IsSpace(s[0]) then StripLeft(s[1..]) else s
  }

  /** Drops trailing whitespace. */
  function StripRight(s: string): (r: string)
    ensures |r| <= |s|
  {
    if |s| > 0 && IsSpace(s[|s| - 1]) then StripRight(s[..|s| - 1]) else s
  }

  /** StripLeft keeps a suffix of `s` that starts with no whitespace and has only whitespace before it. */
  lemma {:induction false} StripLeftParts(s: string)
    ensures var r := StripLeft(s);
      && r == s[|s| - |r|..] && AllSpace(s[..|s| - |r|])
      && (|r| > 0 ==> !IsSpace(r[0]))
  {
    if |s| > 0 && IsSpace(s[0]) {
      StripLeftParts(s[1..]);
      var r := StripLeft(s);
      assert s[1..][|s| - 1 - |r|..] == s[|s| - |r|..];
      var front := s[1..][..|s| - 1 - |r|];
      assert s[..|s| - |r|] == [s[0]] + front;
    }
  }

  /** StripRight keeps a prefix of `s` that ends with no whitespace and has only whitespace after it. */
  lemma {:induction false} StripRightParts(s: string)
    ensures var r := StripRight(s);
      && r == s[..|r|] && AllSpace(s[|r|..])
      && (|r| > 0 ==> !IsSpace(r[|r| - 1]))
  {
    if |s| > 0 && IsSpace(s[|s| - 1]) {
      var s' := s[..|s| - 1];
      StripRightParts(s');
      var r := StripRight(s);
      assert s'[..|r|] == s[..|r|];
      assert s[|r|..] == s'[|r|..] + [s[|s| - 1]];
    }
  }

  /** The text `int()` reads between the whitespace it skips at both ends. */
  function Strip(s: string): string {
    StripRight(StripLeft(s))
  }

  predicate IsDigit(c: char) {
    '0' <= c <= '9'
  }

  function DigitValue(c: char): nat {
    if IsDigit(c) then c as int - '0' as int else 0
  }

  /**
   * The magnitude part of a base-10 integer literal as `int()` accepts it:
   * digits, with single underscores allowed between two digits.
   */
  predicate IsDigitRun(b: string) {
    && |b| > 0
    && IsDigit(b[0])
    && IsDigit(b[|b| - 1])
    && (forall i :: 0 <= i < |b| ==> IsDigit(b[i]) || b[i] == '_')
    && (forall i :: 0 <= i < |b| - 1 ==> b[i] == '_' ==> b[i + 1] != '_')
  }

  /** How many digits `b` holds, underscores and other characters not counted. */
  function DigitCount(b: string): (r: nat)
    ensures r <= |b|
  {
    if |b| == 0 then 0
    else DigitCount(b[..|b| - 1]) + (if IsDigit(b[|b| - 1]) then 1 else 0)
  }

  /**
   * CPython's default bound on the digits `int()` converts in base 10
   * (`sys.get_int_max_str_digits()`); longer text raises `ValueError`.
   */
  const MaxStrDigits: nat := 4300

  /** A digit run `int()` converts: well formed and within the digit bound. */
  predicate IsMagnitude(b: string) {
    IsDigitRun(b) && DigitCount(b) <= MaxStrDigits
  }

  /** The value of a digit run, underscores skipped. */
  function DigitsValue(b: string): nat {
    if |b| == 0 then 0
    else if b[|b| - 1] == '_' then DigitsValue(b[..|b| - 1])
    else DigitsValue(b[..|b| - 1]) * 10 + DigitValue(b[|b| - 1])
  }

  /**
   * Python's `int(s)` for a string `s` in base 10: surrounding whitespace is
   * ignored, one optional sign, then a digit run of at most MaxStrDigits
   * digits. `None` is the `ValueError`.
   */
  function ParseInt(s: string): (r: Option<int>)
    ensures r.Some? ==> exists i :: 0 <= i < |s| && IsDigit(s[i])
    ensures r.Some? ==> forall i :: 0 <= i < |s| ==> IsIntChar(s[i])
  {
    StrippedChars(s);
    ParseSigned(Strip(s))
  }

  /** What ParseSigned accepts after stripping bounds the characters of the whole text. */
  lemma StrippedChars(s: string)
    ensures ParseSigned(Strip(s)).Some? ==>
      (exists i :: 0 <= i < |s| && IsDigit(s[i])) && forall i :: 0 <= i < |s| ==> IsIntChar(s[i])
  {
    var t := Strip(s);
    if ParseSigned(t).Some? {
      StripParts(s);
      var a :| InsideSpaces(s, t, a);
      forall i | 0 <= i < |s|
        ensures IsIntChar(s[i])
      {
        if a <= i < a + |t| {
          assert s[i] == t[i - a];
        }
      }
      var j :| 0 <= j < |t| && IsDigit(t[j]);
      assert s[a + j] == t[j];
    }
  }

  /** `int()` on text already stripped: an optional sign, then a digit run within the bound. */
  function ParseSigned(t: string): (r: Option<int>)
    ensures r.Some? ==> exists i :: 0 <= i < |t| && IsDigit(t[i])
    ensures r.Some? ==> forall i :: 0 <= i < |t| ==> IsIntChar(t[i])
  {
    if |t| > 0 && (t[0] == '+' || t[0] == '-') then
      var magnitude: int := DigitsValue(t[1..]);
      if IsMagnitude(t[1..]) then
        assert IsDigit(t[1..][0]);
        Some(if t[0] == '-' then -magnitude else magnitude)
      else None
    else if IsMagnitude(t) then Some(DigitsValue(t))
    else None
  }

  /** The characters an accepted `int()` argument is made of. */
  predicate IsIntChar(c: char) {
    IsDigit(c) || IsSpace(c) || c == '_' || c == '+' || c == '-'
  }

  /** `t` sits in `s` at index `a`, with only whitespace around it. */
  ghost predicate InsideSpaces(s: string, t: string, a: int) {
    && 0 <= a && a + |t| <= |s|
    && t == s[a..a + |t|]
    && forall i :: 0 <= i < |s| && !(a <= i < a + |t|) ==> IsSpace(s[i])
  }

  /** `Strip(s)` sits inside `s` with only whitespace around it. */
  lemma StripParts(s: string)
    ensures exists a :: InsideSpaces(s, Strip(s), a)
  {
    var u := StripLeft(s);
    var t := StripRight(u);
    StripLeftParts(s);
    StripRightParts(u);
    assert Strip(s) == t;
    var a := |s| - |u|;
    assert u == s[a..];
    assert t == u[..|t|];
    assert t == s[a..a + |t|];
    var tail := u[|t|..];
    assert AllSpace(s[..a]) && AllSpace(tail);
    forall i | 0 <= i < |s| && !(a <= i < a + |t|)
      ensures IsSpace(s[i])
    {
      if i < a {
        assert s[..a][i] == s[i];
      } else {
        assert tail[i - a - |t|] == s[i];
      }
    }
    assert InsideSpaces(s, t, a);
  }


  function DigitChar(d: nat): char
    requires d < 10
  {
    ('0' as int + d) as char
  }

  /** Decimal text of a natural number, as Python's `str(n)`. */
  function ShowNat(n: nat): string
    decreases n
  {
    if n < 10 then [DigitChar(n)] else ShowNat(n / 10) + [DigitChar(n % 10)]
  }

  function Abs(n: int): nat {
    if n < 0 then -n else n
  }

  /** Decimal text of an integer, as Python's `str(n)`. */
  function ShowInt(n: int): string {
    if n < 0 then "-" + ShowNat(-n) else ShowNat(n)
  }

  predicate AllSpace(s: string) {
    forall i :: 0 <= i < |s| ==> IsSpace(s[i])
  }

  lemma {:induction false} ShowNatIsDigitRun(n: nat)
    ensures IsDigitRun(ShowNat(n))
    ensures forall i :: 0 <= i < |ShowNat(n)| ==> IsDigit(ShowNat(n)[i])
    ensures DigitsValue(ShowNat(n)) == n
    ensures DigitCount(ShowNat(n)) == |ShowNat(n)|
    decreases n
  {
    var s := ShowNat(n);
    if n >= 10 {
      ShowNatIsDigitRun(n / 10);
      var p := ShowNat(n / 10);
      assert s[..|s| - 1] == p;
    }
  }

  lemma {:induction false} StripLeftSpaces(p: string, s: string)
    requires AllSpace(p)
    requires |s| > 0 && !IsSpace(s[0])
    ensures StripLeft(p + s) == s
    decreases |p|
  {
    if |p| > 0 {
      assert (p + s)[1..] == p[1..] + s;
      StripLeftSpaces(p[1..], s);
    } else {
      assert p + s == s;
    }
  }

  lemma {:induction false} StripRightSpaces(s: string, q: string)
    requires AllSpace(q)
    requires |s| > 0 && !IsSpace(s[|s| - 1])
    ensures StripRight(s + q) == s
    decreases |q|
  {
    if |q| > 0 {
      assert (s + q)[..|s + q| - 1] == s + q[..|q| - 1];
      StripRightSpaces(s, q[..|q| - 1]);
    } else {
      assert s + q == s;
    }
  }

  /** A sign `int()` accepts in front of the digits: none, `+` or `-`. */
  predicate IsSign(sign: string) {
    sign == "" || sign == "+" || sign == "-"
  }

  /** The value of the digit run `b` behind `sign`. */
  function SignedValue(sign: string, b: string): int {
    var magnitude: int := DigitsValue(b);
    if sign == "-" then -magnitude else magnitude
  }

  /**
   * `s` is whitespace `p`, an optional sign, a well-formed digit run `b` and
   * whitespace `q`: the shape of an integer literal.
   */
  ghost predicate IntShape(s: string, p: string, sign: string, b: string, q: string) {
    AllSpace(p) && AllSpace(q) && IsSign(sign) && IsDigitRun(b) && s == p + sign + b + q
  }

  /** Stripping an integer literal leaves its sign and digits. */
  lemma StripShape(s: string, p: string, sign: string, b: string, q: string)
    requires IntShape(s, p, sign, b, q)
    ensures Strip(s) == sign + b
  {
    var x := sign + b;
    assert x[|x| - 1] == b[|b| - 1];
    assert s == p + (x + q);
    StripLeftSpaces(p, x + q);
    StripRightSpaces(x, q);
  }

  /**
   * `int()` of an integer literal: its signed value, or `ValueError` when it
   * has more than MaxStrDigits digits.
   */
  lemma ParseShape(s: string, p: string, sign: string, b: string, q: string)
    requires IntShape(s, p, sign, b, q)
    ensures ParseInt(s) == if DigitCount(b) <= MaxStrDigits then Some(SignedValue(sign, b)) else None
  {
    StripShape(s, p, sign, b, q);
    ParseSignedShape(sign, b);
  }

  /** ParseSigned of a sign and a digit run. */
  lemma ParseSignedShape(sign: string, b: string)
    requires IsSign(sign) && IsDigitRun(b)
    ensures ParseSigned(sign + b) == if DigitCount(b) <= MaxStrDigits then Some(SignedValue(sign, b)) else None
  {
    if sign == "" {
      assert sign + b == b;
    } else {
      assert (sign + b)[1..] == b;
    }
  }

  /** `s` is `Strip(s)` with whitespace `p` in front and `q` behind. */
  lemma StripSplit(s: string) returns (p: string, q: string)
    ensures AllSpace(p) && AllSpace(q) && s == p + Strip(s) + q
  {
    var u := StripLeft(s);
    var t := StripRight(u);
    StripLeftParts(s);
    StripRightParts(u);
    var k := |s| - |u|;
    p := s[..k];
    q := u[|t|..];
    assert u == s[k..];
    assert s == p + u;
    assert t == u[..|t|];
    assert u == t + q;
    assert Strip(s) == t;
    assert s == p + t + q;
  }

  /** A text ParseSigned accepts is a sign and a digit run within the bound. */
  lemma SignedOfParsed(t: string) returns (sign: string, b: string)
    requires ParseSigned(t).Some?
    ensures IsSign(sign) && IsDigitRun(b) && DigitCount(b) <= MaxStrDigits && t == sign + b
    ensures ParseSigned(t) == Some(SignedValue(sign, b))
  {
    if t[0] == '+' || t[0] == '-' {
      sign := [t[0]];
      b := t[1..];
    } else {
      sign := "";
      b := t;
    }
    assert t == sign + b;
  }

  /** Every text `int()` accepts is an integer literal within the digit bound. */
  lemma ShapeOfParsed(s: string) returns (p: string, sign: string, b: string, q: string)
    requires ParseInt(s).Some?
    ensures IntShape(s, p, sign, b, q) && DigitCount(b) <= MaxStrDigits
    ensures ParseInt(s) == Some(SignedValue(sign, b))
  {
    p, q := StripSplit(s);
    sign, b := SignedOfParsed(Strip(s));
    assert s == p + sign + b + q;
  }

  /**
   * The grammar of base-10 `int()`, stated without reference to stripping:
   * `int(s)` is `n` exactly when `s` is whitespace, an optional sign, a digit
   * run of at most MaxStrDigits digits whose signed value is `n`, and
   * whitespace.
   */
  lemma ParseIntGrammar(s: string, n: int)
    ensures ParseInt(s) == Some(n) <==>
      exists p, sign, b, q :: IntShape(s, p, sign, b, q) && DigitCount(b) <= MaxStrDigits && n == SignedValue(sign, b)
  {
    if ParseInt(s) == Some(n) {
      var p, sign, b, q := ShapeOfParsed(s);
    }
    if exists p, sign, b, q :: IntShape(s, p, sign, b, q) && DigitCount(b) <= MaxStrDigits && n == SignedValue(sign, b) {
      var p, sign, b, q :| IntShape(s, p, sign, b, q) && DigitCount(b) <= MaxStrDigits && n == SignedValue(sign, b);
      ParseShape(s, p, sign, b, q);
    }
  }

  /**
   * `int()` reads back the decimal text of every integer of at most
   * MaxStrDigits digits, whatever whitespace surrounds it, and raises on a
   * longer one: a JSON integer written as text parses to itself.
   */
  lemma {:induction false} ParseShowRoundTrip(n: int, p: string, q: string)
    requires AllSpace(p) && AllSpace(q)
    ensures ParseInt(p + ShowInt(n) + q) == if |ShowNat(Abs(n))| <= MaxStrDigits then Some(n) else None
  {
    var sign := if n < 0 then "-" else "";
    var b := ShowNat(Abs(n));
    ShowIntParts(n);
    var s := p + ShowInt(n) + q;
    assert s == p + sign + b + q;
    ParseShape(s, p, sign, b, q);
  }

  /** The text of `n` is its sign and the digits of its magnitude. */
  lemma ShowIntParts(n: int)
    ensures var sign := if n < 0 then "-" else "";
      && ShowInt(n) == sign + ShowNat(Abs(n))
      && IsDigitRun(ShowNat(Abs(n)))
      && DigitCount(ShowNat(Abs(n))) == |ShowNat(Abs(n))|
      && SignedValue(sign, ShowNat(Abs(n))) == n
  {
    ShowNatIsDigitRun(Abs(n));
  }


  /**
   * What `int()` rejects at the edges of its grammar: no text, a word, a
   * doubled or leading underscore, and a sign cut off by a space.
   */
  lemma ParseIntRejects()
    ensures ParseInt("") == None
    ensures ParseInt("ten") == None
    ensures ParseInt("1__0") == None
  {
    assert Strip("ten") == "ten";
    assert Strip("1__0") == "1__0";
    assert !IsDigitRun("1__0") by {
      assert "1__0"[1] == '_' && "1__0"[2] == '_';
    }
  }

  /**
   * A leading underscore, a space between the sign and the digits, and a
   * file separator (0x1C) in front of the digits are rejected.
   */
  lemma ParseIntRejectsSeparators()
    ensures ParseInt("_1") == None
    ensures ParseInt("- 1") == None
    ensures ParseInt("\U{1C}5") == None
  {
    assert Strip("_1") == "_1";
    assert Strip("- 1") == "- 1";
    assert "- 1"[1..] == " 1";
    assert Strip("\U{1C}5") == "\U{1C}5";
  }


  /**
   * What `int()` accepts at the edges of its grammar: single underscores
   * between digits, leading zeros, a sign, and surrounding whitespace.
   */
  lemma ParseIntAccepts()
    ensures ParseInt(" 1_000\n") == Some(1000)
    ensures ParseInt("-07") == Some(-7)
  {
    assert Strip(" 1_000\n") == "1_000" by {
      assert " 1_000\n" == " " + ("1_000" + "\n");
      StripLeftSpaces(" ", "1_000" + "\n");
      StripRightSpaces("1_000", "\n");
    }
    assert DigitsValue("1_000") == 1000 by {
      assert "1_000"[..4] == "1_00";
      assert "1_00"[..3] == "1_0";
      assert "1_0"[..2] == "1_";
      assert "1_"[..1] == "1";
      assert "1"[..0] == "";
    }
    assert Strip("-07") == "-07";
    assert "-07"[1..] == "07";
    assert DigitsValue("07") == 7 by {
      assert "07"[..1] == "0";
      assert "0"[..0] == "";
    }
  }
}
