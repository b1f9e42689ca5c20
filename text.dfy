/** String helpers shared by the browser page and the server: ASCII case
    folding, substring search, whitespace stripping and decimal numerals. */
module Text {

  /** ASCII version of `toLowerCase` on one character. */
  function LowerChar(c: char): char
  {
    if 'A' <= c <= 'Z' then (c as int + 32) as char else c
  }

  /** ASCII version of JavaScript's `String.prototype.toLowerCase`. */
  function Lower(s: string): (r: string)
    ensures |r| == |s|
    ensures forall i :: 0 <= i < |s| ==> r[i] == LowerChar(s[i])
  {
    seq(|s|, i requires 0 <= i < |s| => LowerChar(s[i]))
  }

  /** Lowercasing twice is lowercasing once. */
  lemma LowerIdempotent(s: string)
    ensures Lower(Lower(s)) == Lower(s)
  {
    forall i | 0 <= i < |s| ensures Lower(Lower(s))[i] == Lower(s)[i] {
      var c := s[i];
      if 'A' <= c <= 'Z' {
        assert !('A' <= LowerChar(c) <= 'Z');
      }
    }
  }

  /** `sub` sits in `s` starting at position `k`. */
  predicate OccursAt(s: string, sub: string, k: nat)
  {
    k + |sub| <= |s| && s[k..k + |sub|] == sub
  }

  /** JavaScript's `s.includes(sub)`, searched position by position. */
  predicate Contains(s: string, sub: string)
  {
    sub <= s || (s != [] && Contains(s[1..], sub))
  }

  /** `Contains` holds exactly when `sub` occurs at some position of `s`. */
  lemma {:induction false} ContainsIff(s: string, sub: string)
    ensures Contains(s, sub) <==> exists k: nat :: OccursAt(s, sub, k)
  {
    OccursAtStart(s, sub);
    if !(sub <= s) && s != [] {
      ContainsIff(s[1..], sub);
      forall k: nat | k > 0
        ensures OccursAt(s, sub, k) <==> OccursAt(s[1..], sub, k - 1)
      {
        OccursShift(s, sub, k);
      }
      if Contains(s[1..], sub) {
        var k: nat :| OccursAt(s[1..], sub, k);
        assert OccursAt(s, sub, k + 1);
      }
    }
  }

  lemma OccursAtStart(s: string, sub: string)
    ensures OccursAt(s, sub, 0) <==> sub <= s
  {
  }

  lemma OccursShift(s: string, sub: string, k: nat)
    requires s != [] && k > 0
    ensures OccursAt(s, sub, k) <==> OccursAt(s[1..], sub, k - 1)
  {
    if k + |sub| <= |s| {
      assert s[1..][k - 1..k - 1 + |sub|] == s[k..k + |sub|];
    }
  }

  /** Whose idea of white space a strip follows: JavaScript's
      `String.prototype.trim` or Python's `str.strip()` with no argument. */
  datatype Blanks = JsBlanks | PyBlanks

  /** The characters each strip removes. `trim` removes the ECMAScript
      WhiteSpace and LineTerminator characters; `strip` removes what
      `str.isspace` accepts. They differ in U+001C..U+001F and U+0085 (only
      Python) and U+FEFF (only JavaScript). */
  predicate IsSpace(b: Blanks, c: char)
  {
    var v := c as int;
    || 9 <= v <= 13 || v == 0x20 || v == 0xA0 || v == 0x1680 || 0x2000 <= v <= 0x200A
    || v == 0x2028 || v == 0x2029 || v == 0x202F || v == 0x205F || v == 0x3000
    || (b == JsBlanks && v == 0xFEFF)
    || (b == PyBlanks && (0x1C <= v <= 0x1F || v == 0x85))
  }

  /** Drops leading white space. */
  function StripStart(b: Blanks, s: string): (r: string)
    ensures |r| <= |s| && r == s[|s| - |r|..]
    ensures forall k :: 0 <= k < |s| - |r| ==> IsSpace(b, s[k])
    ensures r != [] ==> !IsSpace(b, r[0])
  {
    if s != [] && IsSpace(b, s[0]) then StripStart(b, s[1..]) else s
  }

  /** Drops trailing white space. */
  function StripEnd(b: Blanks, s: string): (r: string)
    ensures |r| <= |s| && r == s[..|r|]
    ensures forall k :: |r| <= k < |s| ==> IsSpace(b, s[k])
    ensures r != [] ==> !IsSpace(b, r[|r| - 1])
  {
    if s != [] && IsSpace(b, s[|s| - 1]) then StripEnd(b, s[..|s| - 1]) else s
  }

  /** `trim()` / `strip()`: the longest infix of `s` that neither starts nor
      ends with white space, obtained by removing only white space. */
  function Strip(b: Blanks, s: string): (r: string)
    ensures exists i, j :: 0 <= i <= j <= |s| && r == s[i..j]
                           && (forall k :: 0 <= k < i ==> IsSpace(b, s[k]))
                           && (forall k :: j <= k < |s| ==> IsSpace(b, s[k]))
    ensures r != [] ==> !IsSpace(b, r[0]) && !IsSpace(b, r[|r| - 1])
  {
    var t := StripStart(b, s);
    var r := StripEnd(b, t);
    StripBoth(b, s, t, r);
    r
  }

  /** Stripping the end after the start leaves an infix with removed white
      space on both sides. */
  lemma StripBoth(b: Blanks, s: string, t: string, r: string)
    requires |t| <= |s| && t == s[|s| - |t|..]
    requires forall k :: 0 <= k < |s| - |t| ==> IsSpace(b, s[k])
    requires |r| <= |t| && r == t[..|r|]
    requires forall k :: |r| <= k < |t| ==> IsSpace(b, t[k])
    ensures var i := |s| - |t|;
      && r == s[i..i + |r|]
      && (forall k :: 0 <= k < i ==> IsSpace(b, s[k]))
      && (forall k :: i + |r| <= k < |s| ==> IsSpace(b, s[k]))
  {
    var i := |s| - |t|;
    forall k | i + |r| <= k < |s| ensures IsSpace(b, s[k]) {
      assert s[k] == t[k - i];
    }
  }

  /** A two-character text loses its first character exactly when that one
      is white space. */
  lemma StripPair(b: Blanks, c: char, x: char)
    requires !IsSpace(b, x)
    ensures Strip(b, [c, x]) == if IsSpace(b, c) then [x] else [c, x]
  {
    var t := [c, x];
    assert t[1..] == [x] && [x][1..] == [];
    assert StripStart(b, [x]) == [x];
    var h := StripStart(b, t);
    assert h == if IsSpace(b, c) then [x] else t;
    assert h[|h| - 1] == x;
    assert StripEnd(b, h) == h;
  }

  /** The two strips disagree: the page keeps a U+001F that the server
      removes, and the server keeps a U+FEFF that the page removes. */
  lemma StripsDiffer()
    ensures Strip(JsBlanks, "\U{1F}a") == "\U{1F}a" && Strip(PyBlanks, "\U{1F}a") == "a"
    ensures Strip(PyBlanks, "\U{FEFF}a") == "\U{FEFF}a" && Strip(JsBlanks, "\U{FEFF}a") == "a"
  {
    var us, fe := '\U{1F}', '\U{FEFF}';
    assert !IsSpace(JsBlanks, 'a') && !IsSpace(PyBlanks, 'a');
    assert IsSpace(PyBlanks, us) && !IsSpace(JsBlanks, us);
    assert IsSpace(JsBlanks, fe) && !IsSpace(PyBlanks, fe);
    assert "\U{1F}a" == [us, 'a'] && "\U{FEFF}a" == [fe, 'a'];
    StripPair(JsBlanks, us, 'a');
    StripPair(PyBlanks, us, 'a');
    StripPair(JsBlanks, fe, 'a');
    StripPair(PyBlanks, fe, 'a');
  }

  predicate IsDigit(c: char)
  {
    '0' <= c <= '9'
  }

  function DigitChar(d: nat): (c: char)
    requires d < 10
    ensures IsDigit(c)
  {
    ('0' as int + d) as char
  }

  function DigitValue(c: char): nat
  {
    if IsDigit(c) then c as int - '0' as int else 0
  }

  /** The decimal numeral of `n`, as `String(n)` writes it: no sign, no
      leading zeros. */
  function Decimal(n: nat): (r: string)
    ensures |r| >= 1
    ensures forall i :: 0 <= i < |r| ==> IsDigit(r[i])
    ensures n >= 10 ==> r[0] != '0'
  {
    if n < 10 then [DigitChar(n)] else Decimal(n / 10) + [DigitChar(n % 10)]
  }

  /** The value of a numeral, read from the last digit backwards. */
  function ParseDecimal(s: string): nat
  {
    if s == [] then 0 else ParseDecimal(s[..|s| - 1]) * 10 + DigitValue(s[|s| - 1])
  }

  /** Reading the numeral back gives the number. */
  lemma {:induction false} DecimalRoundTrip(n: nat)
    ensures ParseDecimal(Decimal(n)) == n
  {
    if n >= 10 {
      DecimalRoundTrip(n / 10);
      var s := Decimal(n / 10) + [DigitChar(n % 10)];
      assert s[..|s| - 1] == Decimal(n / 10);
    }
  }

  /** The numeral has as many digits as the number's decimal order. */
  lemma {:induction false} DecimalLength(n: nat)
    ensures n < 10 ==> |Decimal(n)| == 1
    ensures 10 <= n < 100 ==> |Decimal(n)| == 2
    ensures 100 <= n < 1000 ==> |Decimal(n)| == 3
    ensures 1000 <= n < 10000 ==> |Decimal(n)| == 4
    ensures 10000 <= n ==> |Decimal(n)| >= 5
  {
    if n >= 10 {
      DecimalLength(n / 10);
    }
  }

  /** A leading zero does not change the value of a numeral. */
  lemma {:induction false} LeadingZero(s: string)
    ensures ParseDecimal(['0'] + s) == ParseDecimal(s)
    decreases |s|
  {
    if s != [] {
      var t := ['0'] + s;
      assert t[..|t| - 1] == ['0'] + s[..|s| - 1];
      LeadingZero(s[..|s| - 1]);
    }
  }

  /** `s.padStart(width, c)`. */
  function PadStart(s: string, width: nat, c: char): (r: string)
    ensures |r| == if |s| >= width then |s| else width
    ensures r[|r| - |s|..] == s
    ensures forall k :: 0 <= k < |r| - |s| ==> r[k] == c
  {
    if |s| >= width then s else seq(width - |s|, _ => c) + s
  }

  /** `String(n).padStart(2, '0')` for a number below 100: two digits whose
      value is `n`. */
  lemma TwoDigits(n: nat)
    requires n < 100
    ensures |PadStart(Decimal(n), 2, '0')| == 2
    ensures IsDigit(PadStart(Decimal(n), 2, '0')[0]) && IsDigit(PadStart(Decimal(n), 2, '0')[1])
    ensures ParseDecimal(PadStart(Decimal(n), 2, '0')) == n
  {
    DecimalLength(n);
    DecimalRoundTrip(n);
    if n < 10 {
      assert PadStart(Decimal(n), 2, '0') == ['0'] + Decimal(n);
      LeadingZero(Decimal(n));
    }
  }
}
