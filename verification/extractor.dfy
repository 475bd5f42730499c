/** `extract_phone_numbers` (extract.py:30-35): `re.findall` with the phone
    pattern. The search tries the pattern at each position from the left;
    after a match it resumes at the match's end, so the matches are the
    leftmost non-overlapping ones. */
module Extractor {
  import opened PyStr
  import opened Regex

  /** The text `t[start..end]` of one match. */
  datatype Span = Span(start: nat, end: nat)

  /** The end of the match the pattern makes when tried at position `q`. */
  function MatchAt(cc: CharClasses, t: string, q: nat): (r: Option<nat>)
    requires q <= |t|
    ensures r.Some? ==> q + 3 <= r.value <= |t| && r.value <= q + 26
  {
    PhonePatternBounds();
    Match(cc, [], PhonePattern, t, q)
  }

  predicate NoMatchBetween(cc: CharClasses, t: string, lo: nat, hi: nat) {
    forall q | lo <= q < hi && q <= |t| :: MatchAt(cc, t, q).None?
  }

  /** Where the k-th gap between matches begins and ends (gap 0 precedes the
      first match; gap |r| follows the last and runs to the end of `t`). */
  function GapStart(p: nat, r: seq<Span>, k: nat): nat
    requires k <= |r|
  {
    if k == 0 then p else r[k - 1].end
  }

  function GapEnd(t: string, r: seq<Span>, k: nat): nat
    requires k <= |r|
  {
    if k < |r| then r[k].start else |t| + 1
  }

  /** `r` is the sequence of leftmost non-overlapping matches in `t` from
      position `p`: each is where the pattern matches, they go left to right
      without overlapping, and the pattern matches at no position in
      between. */
  predicate Leftmost(cc: CharClasses, t: string, p: nat, r: seq<Span>)
    requires p <= |t|
  {
    MatchesFrom(cc, t, p, r) && InOrder(r) && GapsClear(cc, t, p, r)
  }

  predicate MatchesFrom(cc: CharClasses, t: string, p: nat, r: seq<Span>) {
    forall k | 0 <= k < |r| :: p <= r[k].start <= |t| && MatchAt(cc, t, r[k].start) == Some(r[k].end)
  }

  predicate InOrder(r: seq<Span>) {
    forall k | 0 <= k < |r| - 1 :: r[k].end <= r[k + 1].start
  }

  predicate GapsClear(cc: CharClasses, t: string, p: nat, r: seq<Span>) {
    forall k | 0 <= k <= |r| :: NoMatchBetween(cc, t, GapStart(p, r, k), GapEnd(t, r, k))
  }

  /** The scanning loop of `re.findall` from position `p`. */
  function Scan(cc: CharClasses, t: string, p: nat): (r: seq<Span>)
    requires p <= |t|
    ensures Leftmost(cc, t, p, r)
    decreases |t| - p
  {
    match MatchAt(cc, t, p)
    case Some(e) =>
      var rest := Scan(cc, t, e);
      LeftmostCons(cc, t, p, e, rest);
      [Span(p, e)] + rest
    case None =>
      if p == |t| then []
      else
        var rest := Scan(cc, t, p + 1);
        LeftmostSkip(cc, t, p, rest);
        rest
  }

  lemma LeftmostCons(cc: CharClasses, t: string, p: nat, e: nat, rest: seq<Span>)
    requires p <= e <= |t| && MatchAt(cc, t, p) == Some(e)
    requires Leftmost(cc, t, e, rest)
    ensures Leftmost(cc, t, p, [Span(p, e)] + rest)
  {
    ConsMatches(cc, t, p, e, rest);
    ConsInOrder(p, e, rest);
    ConsGapsClear(cc, t, p, e, rest);
  }

  lemma ConsMatches(cc: CharClasses, t: string, p: nat, e: nat, rest: seq<Span>)
    requires p <= e <= |t| && MatchAt(cc, t, p) == Some(e)
    requires MatchesFrom(cc, t, e, rest)
    ensures MatchesFrom(cc, t, p, [Span(p, e)] + rest)
  {
    var r := [Span(p, e)] + rest;
    forall k | 0 <= k < |r|
      ensures p <= r[k].start <= |t| && MatchAt(cc, t, r[k].start) == Some(r[k].end)
    {
      if k > 0 {
        assert r[k] == rest[k - 1];
      }
    }
  }

  lemma ConsInOrder(p: nat, e: nat, rest: seq<Span>)
    requires InOrder(rest) && (rest != [] ==> e <= rest[0].start)
    ensures InOrder([Span(p, e)] + rest)
  {
    var r := [Span(p, e)] + rest;
    forall k | 0 <= k < |r| - 1
      ensures r[k].end <= r[k + 1].start
    {
      assert r[k + 1] == rest[k];
      if k > 0 {
        assert r[k] == rest[k - 1];
      }
    }
  }

  lemma ConsGapsClear(cc: CharClasses, t: string, p: nat, e: nat, rest: seq<Span>)
    requires GapsClear(cc, t, e, rest)
    ensures GapsClear(cc, t, p, [Span(p, e)] + rest)
  {
    var r := [Span(p, e)] + rest;
    forall k | 0 <= k <= |r|
      ensures NoMatchBetween(cc, t, GapStart(p, r, k), GapEnd(t, r, k))
    {
      if k > 0 {
        ConsGap(t, p, e, rest, k);
        assert NoMatchBetween(cc, t, GapStart(e, rest, k - 1), GapEnd(t, rest, k - 1));
      }
    }
  }

  lemma ConsGap(t: string, p: nat, e: nat, rest: seq<Span>, k: nat)
    requires 0 < k <= |rest| + 1
    ensures GapStart(p, [Span(p, e)] + rest, k) == GapStart(e, rest, k - 1)
    ensures GapEnd(t, [Span(p, e)] + rest, k) == GapEnd(t, rest, k - 1)
  {
    var r := [Span(p, e)] + rest;
    assert r[k - 1] == if k == 1 then Span(p, e) else rest[k - 2];
    if k < |r| {
      assert r[k] == rest[k - 1];
    }
  }

  lemma LeftmostSkip(cc: CharClasses, t: string, p: nat, rest: seq<Span>)
    requires p < |t| && MatchAt(cc, t, p).None?
    requires Leftmost(cc, t, p + 1, rest)
    ensures Leftmost(cc, t, p, rest)
  {
    forall k | 0 <= k <= |rest|
      ensures NoMatchBetween(cc, t, GapStart(p, rest, k), GapEnd(t, rest, k))
    {
      var hi := GapEnd(t, rest, k);
      assert NoMatchBetween(cc, t, GapStart(p + 1, rest, k), hi);
      if k == 0 {
        forall q | p <= q < hi && q <= |t|
          ensures MatchAt(cc, t, q).None?
        {
          if q > p {
            assert p + 1 <= q;
          }
        }
      }
    }
  }

  /** The match positions of `re.findall(pattern, t)`. */
  function Spans(cc: CharClasses, t: string): seq<Span> {
    Scan(cc, t, 0)
  }

  /** `extract_phone_numbers(t)`: the matched texts, left to right. Every
      result is a non-empty piece of the text at its span; the pieces come
      in strictly increasing position and do not overlap. */
  function FindAll(cc: CharClasses, t: string): (r: seq<string>)
    ensures var s := Spans(cc, t);
            && |r| == |s|
            && (forall k | 0 <= k < |s| :: s[k].start < s[k].end <= |t| && r[k] == t[s[k].start..s[k].end])
            && (forall k | 0 <= k < |s| - 1 :: s[k].end <= s[k + 1].start)
  {
    var s := Spans(cc, t);
    seq(|s|, k requires 0 <= k < |s| => t[s[k].start..s[k].end])
  }

  /** The shape every match has: 3 to 26 characters, at least three ASCII
      digits, an ASCII digit last, and '+', '(' or a digit first. */
  predicate PhoneShaped(cc: CharClasses, m: string) {
    && 3 <= |m| <= 26
    && AsciiDigitCount(m) >= 3
    && IsAsciiDigit(m[|m| - 1])
    && (m[0] == '+' || m[0] == '(' || cc.digit(m[0]) || IsAsciiDigit(m[0]))
  }

  /** The text the pattern matches at `i` has the phone shape. */
  lemma MatchAtShape(cc: CharClasses, t: string, i: nat)
    requires i <= |t| && MatchAt(cc, t, i).Some?
    ensures PhoneShaped(cc, t[i..MatchAt(cc, t, i).value])
  {
    var j := MatchAt(cc, t, i).value;
    MatchAtDigits(cc, t, i);
    MatchAtLast(cc, t, i);
    MatchAtFirst(cc, t, i);
    var m := t[i..j];
    assert m[0] == t[i] && m[|m| - 1] == t[j - 1];
  }

  lemma MatchAtDigits(cc: CharClasses, t: string, i: nat)
    requires i <= |t| && MatchAt(cc, t, i).Some?
    ensures AsciiDigitCount(t[i..MatchAt(cc, t, i).value]) >= 3
  {
    var r := Match(cc, [], PhonePattern, t, i);
    assert r == MatchAt(cc, t, i);
    PhonePatternBounds();
    MatchDigits(cc, [], PhonePattern, t, i);
    assert DigitsFrom(t, i, r, 3);
  }

  lemma MatchAtLast(cc: CharClasses, t: string, i: nat)
    requires i <= |t| && MatchAt(cc, t, i).Some?
    ensures IsAsciiDigit(t[MatchAt(cc, t, i).value - 1])
  {
    var r := Match(cc, [], PhonePattern, t, i);
    assert r == MatchAt(cc, t, i);
    PhonePatternLast();
    MatchLast(cc, [], PhonePattern, t, i, Atom(AsciiDigit, 1, 9));
    assert EndsIn(cc, AsciiDigit, t, i, r);
  }

  lemma MatchAtFirst(cc: CharClasses, t: string, i: nat)
    requires i <= |t| && MatchAt(cc, t, i).Some?
    ensures i < |t| && (t[i] == '+' || t[i] == '(' || cc.digit(t[i]) || IsAsciiDigit(t[i]))
  {
    MatchFirst(cc, [], PhonePattern, t, i);
    PhonePatternStart(cc, t[i]);
  }

  /** Every result of `extract_phone_numbers` has the phone shape. */
  lemma MatchShape(cc: CharClasses, t: string, k: nat)
    requires k < |FindAll(cc, t)|
    ensures PhoneShaped(cc, FindAll(cc, t)[k])
  {
    var s := Spans(cc, t);
    assert MatchesFrom(cc, t, 0, s);
    assert FindAll(cc, t)[k] == t[s[k].start..s[k].end];
    MatchAtShape(cc, t, s[k].start);
  }

  /** A text without ASCII digits, the empty text among them, yields no
      match. */
  lemma NoDigitsNoMatches(cc: CharClasses, t: string)
    requires forall k | 0 <= k < |t| :: !IsAsciiDigit(t[k])
    ensures FindAll(cc, t) == []
  {
    if FindAll(cc, t) != [] {
      MatchShape(cc, t, 0);
    }
  }

  /** A match neither starts nor ends with whitespace, so `number.strip()`
      leaves it as it is. */
  lemma MatchesAreStripped(cc: CharClasses, t: string, k: nat)
    requires cc.Valid()
    requires k < |FindAll(cc, t)|
    ensures Strip(cc, FindAll(cc, t)[k]) == FindAll(cc, t)[k]
  {
    MatchShape(cc, t, k);
    ShapedStripped(cc, FindAll(cc, t)[k]);
  }

  /** A phone-shaped text neither starts nor ends with whitespace. */
  lemma ShapedStripped(cc: CharClasses, m: string)
    requires cc.Valid() && PhoneShaped(cc, m)
    ensures Strip(cc, m) == m
  {
    assert IsAsciiGraphic('+') && IsAsciiGraphic('(');
    assert !cc.space(m[0]) && !cc.space(m[|m| - 1]);
    StripUnchanged(cc, m);
  }

  /** In terms of the pattern's language: each match is a string of the
      pattern ... */
  lemma MatchesInLanguage(cc: CharClasses, t: string)
    ensures var s := Spans(cc, t);
            forall k | 0 <= k < |s| :: Accepts(cc, [], PhonePattern, t, s[k].start, s[k].end)
  {
    var s := Spans(cc, t);
    forall k | 0 <= k < |s|
      ensures Accepts(cc, [], PhonePattern, t, s[k].start, s[k].end)
    {
      MatchSound(cc, [], PhonePattern, t, s[k].start);
    }
  }

  /** ... and no string of the pattern starts at any position the search
      passed over. */
  lemma GapsHoldNoMatch(cc: CharClasses, t: string, k: nat, q: nat, j: nat)
    requires var s := Spans(cc, t); k <= |s| && GapStart(0, s, k) <= q < GapEnd(t, s, k) && q <= j <= |t|
    ensures !Accepts(cc, [], PhonePattern, t, q, j)
  {
    var s := Spans(cc, t);
    assert NoMatchBetween(cc, t, GapStart(0, s, k), GapEnd(t, s, k));
    assert MatchAt(cc, t, q).None?;
    if Accepts(cc, [], PhonePattern, t, q, j) {
      MatchComplete(cc, [], PhonePattern, t, q, j);
    }
  }
}
