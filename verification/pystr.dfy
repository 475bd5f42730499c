/** Python string behaviour the converter relies on: the Unicode character
    classes `\d` and `\s`, `str.strip()`, `str(n)` for naturals,
    `sep.join(parts)` and `s.split(sep)`. */
module PyStr {

  datatype Option<T> = None | Some(value: T)

  /** Python 3's Unicode-aware character classes, kept abstract: `digit` is
      `\d` (Unicode category Nd) and `space` is `\s`, which for `str` patterns
      is the same predicate `str.isspace()` and `str.strip()` use. */
  datatype CharClasses = CharClasses(digit: char -> bool, space: char -> bool) {
    /** What Python guarantees about the two classes: every ASCII digit is a
        `\d`, and a whitespace character is neither a `\d` nor a printable
        ASCII character. */
    predicate Valid() {
      && (forall ch :: IsAsciiDigit(ch) ==> digit(ch))
      && (forall ch :: space(ch) ==> !digit(ch) && !IsAsciiGraphic(ch))
    }
  }

  predicate IsAsciiDigit(ch: char) { '0' <= ch <= '9' }

  /** Printable ASCII other than the blank: '!' through '~'. */
  predicate IsAsciiGraphic(ch: char) { '!' <= ch <= '~' }

  function AsciiDigitCount(s: string): (n: nat)
    ensures n <= |s|
  {
    if s == [] then 0
    else AsciiDigitCount(s[..|s| - 1]) + (if IsAsciiDigit(s[|s| - 1]) then 1 else 0)
  }

  lemma {:induction false} AsciiDigitCountAppend(a: string, b: string)
    ensures AsciiDigitCount(a + b) == AsciiDigitCount(a) + AsciiDigitCount(b)
    decreases |b|
  {
    if b == [] {
      assert a + b == a;
    } else {
      assert (a + b)[..|a + b| - 1] == a + b[..|b| - 1];
      AsciiDigitCountAppend(a, b[..|b| - 1]);
    }
  }

  lemma {:induction false} AsciiDigitCountAll(s: string)
    requires forall k | 0 <= k < |s| :: IsAsciiDigit(s[k])
    ensures AsciiDigitCount(s) == |s|
  {
    if s != [] {
      AsciiDigitCountAll(s[..|s| - 1]);
    }
  }

  // ---------------------------------------------------------------------
  // str.strip()

  /** `s.lstrip()`: drops the leading whitespace. */
  function StripLeft(cc: CharClasses, s: string): (r: string)
    ensures |r| <= |s| && r == s[|s| - |r|..]
    ensures forall k | 0 <= k < |s| - |r| :: cc.space(s[k])
    ensures r == [] || !cc.space(r[0])
  {
    if s != [] && cc.space(s[0]) then
      var r := StripLeft(cc, s[1..]);
      assert forall k | 1 <= k < |s| - |r| :: s[k] == s[1..][k - 1];
      r
    else s
  }

  /** `s.rstrip()`: drops the trailing whitespace. */
  function StripRight(cc: CharClasses, s: string): (r: string)
    ensures |r| <= |s| && r == s[..|r|]
    ensures forall k | |r| <= k < |s| :: cc.space(s[k])
    ensures r == [] || !cc.space(r[|r| - 1])
  {
    if s != [] && cc.space(s[|s| - 1]) then
      var r := StripRight(cc, s[..|s| - 1]);
      assert forall k | |r| <= k < |s| - 1 :: s[k] == s[..|s| - 1][k];
      r
    else s
  }

  /** `s.strip()`: the part of `s` between its leading and its trailing
      whitespace. */
  function Strip(cc: CharClasses, s: string): (r: string)
    ensures exists a: nat :: PaddedBy(cc, s, r, a)
    ensures r == [] || (!cc.space(r[0]) && !cc.space(r[|r| - 1]))
  {
    var left := StripLeft(cc, s);
    var r := StripRight(cc, left);
    StripWitness(cc, s, left, r);
    assert r == [] || r[0] == left[0];
    r
  }

  /** `s` is `r` at position `a`, with only whitespace before and after. */
  predicate PaddedBy(cc: CharClasses, s: string, r: string, a: nat) {
    && a + |r| <= |s| && r == s[a..a + |r|]
    && (forall k | 0 <= k < a :: cc.space(s[k]))
    && (forall k | a + |r| <= k < |s| :: cc.space(s[k]))
  }

  lemma StripWitness(cc: CharClasses, s: string, left: string, r: string)
    requires |left| <= |s| && left == s[|s| - |left|..]
    requires forall k | 0 <= k < |s| - |left| :: cc.space(s[k])
    requires |r| <= |left| && r == left[..|r|]
    requires forall k | |r| <= k < |left| :: cc.space(left[k])
    ensures PaddedBy(cc, s, r, |s| - |left|)
  {
    var a := |s| - |left|;
    SliceOfSuffix(s, a, |r|);
    forall k | a + |r| <= k < |s|
      ensures cc.space(s[k])
    {
      assert s[k] == left[k - a];
    }
  }

  lemma SliceOfSuffix(s: string, a: nat, n: nat)
    requires a + n <= |s|
    ensures s[a..][..n] == s[a..a + n]
  {
  }

  /** Stripping is the identity exactly on the texts that neither start nor
      end with whitespace. */
  lemma StripUnchanged(cc: CharClasses, s: string)
    ensures Strip(cc, s) == s <==> (s == [] || (!cc.space(s[0]) && !cc.space(s[|s| - 1])))
  {
    if s != [] && !cc.space(s[0]) && !cc.space(s[|s| - 1]) {
      assert s[0..0 + |s|] == s;
      StripPadded(cc, s, s, 0);
    }
  }

  /** The padding is unique: whenever `s` is a core that neither starts nor
      ends with whitespace, padded with whitespace, `Strip` gives back that
      core. */
  lemma StripPadded(cc: CharClasses, s: string, core: string, a: nat)
    requires PaddedBy(cc, s, core, a)
    requires core != [] && !cc.space(core[0]) && !cc.space(core[|core| - 1])
    ensures Strip(cc, s) == core
  {
    var left := StripLeft(cc, s);
    var b := |s| - |left|;
    assert s[a] == core[0];
    assert left != [] ==> s[b] == left[0];
    assert b == a;
    var r := StripRight(cc, left);
    assert left[|core| - 1] == core[|core| - 1];
    assert r != [] ==> r[|r| - 1] == left[|r| - 1] == s[a + |r| - 1];
    assert |r| <= |core|;
    assert r == left[..|core|];
    SliceOfSuffix(s, a, |core|);
  }

  // ---------------------------------------------------------------------
  // str(n) for a natural number

  function DigitChar(d: nat): (ch: char)
    requires d < 10
    ensures IsAsciiDigit(ch)
  {
    (('0' as int) + d) as char
  }

  function DigitValue(ch: char): (d: nat)
    requires IsAsciiDigit(ch)
    ensures d < 10
  {
    (ch as int) - ('0' as int)
  }

  /** `str(n)`: the decimal digits of `n`, most significant first. */
  function Decimal(n: nat): (r: string)
    ensures r != []
    ensures forall k | 0 <= k < |r| :: IsAsciiDigit(r[k])
    ensures r[0] == '0' ==> n == 0
    ensures |r| > 1 ==> r[0] != '0'
  {
    if n < 10 then [DigitChar(n)] else Decimal(n / 10) + [DigitChar(n % 10)]
  }

  /** `int(s)` for a string of ASCII digits. */
  function ParseDecimal(s: string): nat
    requires forall k | 0 <= k < |s| :: IsAsciiDigit(s[k])
  {
    if s == [] then 0 else ParseDecimal(s[..|s| - 1]) * 10 + DigitValue(s[|s| - 1])
  }

  lemma {:induction false} DecimalRoundTrip(n: nat)
    ensures ParseDecimal(Decimal(n)) == n
  {
    if n >= 10 {
      DecimalRoundTrip(n / 10);
      var r := Decimal(n);
      assert r[..|r| - 1] == Decimal(n / 10);
    }
  }

  /** Distinct numbers print differently. */
  lemma DecimalInjective(m: nat, n: nat)
    requires Decimal(m) == Decimal(n)
    ensures m == n
  {
    DecimalRoundTrip(m);
    DecimalRoundTrip(n);
  }

  // ---------------------------------------------------------------------
  // sep.join(parts) and s.split(sep)

  /** `sep.join(parts)`. */
  function Join(parts: seq<string>, sep: string): (r: string)
    ensures parts == [] ==> r == []
    ensures |parts| == 1 ==> r == parts[0]
  {
    if parts == [] then []
    else if |parts| == 1 then parts[0]
    else parts[0] + sep + Join(parts[1..], sep)
  }

  /** Joining two non-empty lists puts exactly one separator between them. */
  lemma {:induction false} JoinAppend(p: seq<string>, q: seq<string>, sep: string)
    requires p != [] && q != []
    ensures Join(p + q, sep) == Join(p, sep) + sep + Join(q, sep)
  {
    if |p| > 1 {
      assert (p + q)[1..] == p[1..] + q;
      JoinAppend(p[1..], q, sep);
    } else {
      assert (p + q)[1..] == q;
    }
  }

  /** `s.split(sep)` for a one-character separator. */
  function Split(s: string, sep: char): (r: seq<string>)
    ensures r != []
  {
    if s == [] then [[]]
    else
      var rest := Split(s[1..], sep);
      if s[0] == sep then [[]] + rest else [[s[0]] + rest[0]] + rest[1..]
  }

  lemma {:induction false} SplitWithout(s: string, sep: char)
    requires sep !in s
    ensures Split(s, sep) == [s]
  {
    if s != [] {
      SplitWithout(s[1..], sep);
      assert [s[0]] + s[1..] == s;
    }
  }

  lemma {:induction false} SplitAt(a: string, b: string, sep: char)
    requires sep !in a
    ensures Split(a + [sep] + b, sep) == [a] + Split(b, sep)
  {
    if a == [] {
      assert a + [sep] + b == [sep] + b;
      assert ([sep] + b)[1..] == b;
    } else {
      var s := a + [sep] + b;
      assert s[1..] == a[1..] + [sep] + b;
      SplitAt(a[1..], b, sep);
      assert [a[0]] + a[1..] == a;
    }
  }

  /** Splitting undoes joining when no part contains the separator. */
  lemma {:induction false} SplitJoin(parts: seq<string>, sep: char)
    requires parts != []
    requires forall k | 0 <= k < |parts| :: sep !in parts[k]
    ensures Split(Join(parts, [sep]), sep) == parts
  {
    if |parts| == 1 {
      SplitWithout(parts[0], sep);
    } else {
      SplitJoin(parts[1..], sep);
      SplitAt(parts[0], Join(parts[1..], [sep]), sep);
      assert [parts[0]] + parts[1..] == parts;
    }
  }
}
