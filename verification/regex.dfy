/** The fragment of Python's `re` that the phone-number pattern of
    extract.py uses: greedy repetitions `c{lo,hi}` of a character set, and a
    greedy optional group `(?:...)?` of such repetitions. A pattern is data;
    `Match` is the engine's anchored backtracking attempt at one position,
    as `pattern.match(t, i)` makes it: it returns the first match end in
    priority order (more repetitions before fewer, the group before
    skipping it). `Accepts` is the language the pattern denotes. The search
    over positions is `Extractor.Scan`. */
module Regex {
  import opened PyStr

  /** The character sets the phone pattern uses. */
  datatype Class = Plus | OpenParen | CloseParen | Separator | UnicodeDigit | AsciiDigit

  predicate InClass(cc: CharClasses, c: Class, ch: char) {
    match c
    case Plus => ch == '+'
    case OpenParen => ch == '('
    case CloseParen => ch == ')'
    case Separator => ch == '-' || ch == '.' || cc.space(ch)   // [-.\s]
    case UnicodeDigit => cc.digit(ch)                            // \d
    case AsciiDigit => IsAsciiDigit(ch)                          // [0-9]
  }

  /** `cls{lo,hi}`, greedy. */
  datatype Atom = Atom(cls: Class, lo: nat, hi: nat)

  /** An element of a pattern: a single repetition, or `(?:body)?`. */
  datatype Item = One(atom: Atom) | OptGroup(body: seq<Atom>)

  /** The pattern of extract.py:33,
      `\+?(?:\d{1,3}[-.\s]?)?\(?[0-9]{1,4}\)?[-.\s]?[0-9]{1,4}[-.\s]?[0-9]{1,9}`. */
  const PhonePattern: seq<Item> := [
    One(Atom(Plus, 0, 1)),                                         // \+?
    OptGroup([Atom(UnicodeDigit, 1, 3), Atom(Separator, 0, 1)]),   // (?:\d{1,3}[-.\s]?)?
    One(Atom(OpenParen, 0, 1)),                                    // \(?
    One(Atom(AsciiDigit, 1, 4)),                                   // [0-9]{1,4}
    One(Atom(CloseParen, 0, 1)),                                   // \)?
    One(Atom(Separator, 0, 1)),                                    // [-.\s]?
    One(Atom(AsciiDigit, 1, 4)),                                   // [0-9]{1,4}
    One(Atom(Separator, 0, 1)),                                    // [-.\s]?
    One(Atom(AsciiDigit, 1, 9))                                    // [0-9]{1,9}
  ]

  // ---------------------------------------------------------------------
  // Length and digit bounds of a pattern. A pattern position is a list of
  // atoms still to match (`pending`, the rest of an entered group) followed
  // by the remaining items.

  function AtomsMin(atoms: seq<Atom>): nat {
    if atoms == [] then 0 else atoms[0].lo + AtomsMin(atoms[1..])
  }

  function AtomsMax(atoms: seq<Atom>): nat {
    if atoms == [] then 0 else atoms[0].hi + AtomsMax(atoms[1..])
  }

  /** The ASCII digits an atom must consume. */
  function AsciiLo(a: Atom): nat {
    if a.cls == AsciiDigit then a.lo else 0
  }

  function AtomsAsciiMin(atoms: seq<Atom>): nat {
    if atoms == [] then 0 else AsciiLo(atoms[0]) + AtomsAsciiMin(atoms[1..])
  }

  function ItemsMin(items: seq<Item>): nat {
    if items == [] then 0
    else (match items[0] case One(a) => a.lo case OptGroup(_) => 0) + ItemsMin(items[1..])
  }

  function ItemsMax(items: seq<Item>): nat {
    if items == [] then 0
    else (match items[0] case One(a) => a.hi case OptGroup(b) => AtomsMax(b)) + ItemsMax(items[1..])
  }

  function ItemsAsciiMin(items: seq<Item>): nat {
    if items == [] then 0
    else (match items[0] case One(a) => AsciiLo(a) case OptGroup(_) => 0) + ItemsAsciiMin(items[1..])
  }

  function MinLen(pending: seq<Atom>, items: seq<Item>): nat {
    AtomsMin(pending) + ItemsMin(items)
  }

  function MaxLen(pending: seq<Atom>, items: seq<Item>): nat {
    AtomsMax(pending) + ItemsMax(items)
  }

  function AsciiMin(pending: seq<Atom>, items: seq<Item>): nat {
    AtomsAsciiMin(pending) + ItemsAsciiMin(items)
  }

  // ---------------------------------------------------------------------
  // The backtracking matcher

  predicate AllIn(cc: CharClasses, c: Class, t: string, i: nat, j: nat)
    requires i <= j <= |t|
  {
    forall m | i <= m < j :: InClass(cc, c, t[m])
  }

  /** How many characters of class `c` a greedy `c{0,hi}` takes at `i`. */
  function Greedy(cc: CharClasses, c: Class, t: string, i: nat, hi: nat): (k: nat)
    requires i <= |t|
    ensures k <= hi && i + k <= |t|
    ensures AllIn(cc, c, t, i, i + k)
    ensures k == hi || i + k == |t| || !InClass(cc, c, t[i + k])
    decreases hi
  {
    if hi == 0 || i == |t| || !InClass(cc, c, t[i]) then 0
    else 1 + Greedy(cc, c, t, i + 1, hi - 1)
  }

  /** The end of the first match of `pending` then `items` at position `i`
      of `t`, in the order Python's backtracking engine tries them. */
  function Match(cc: CharClasses, pending: seq<Atom>, items: seq<Item>, t: string, i: nat): (r: Option<nat>)
    requires i <= |t|
    ensures r.Some? ==> i + MinLen(pending, items) <= r.value <= |t|
    ensures r.Some? ==> r.value <= i + MaxLen(pending, items)
    decreases |items|, |pending|, 1, 0
  {
    if pending != [] then
      var a := pending[0];
      TryCounts(cc, a, Greedy(cc, a.cls, t, i, a.hi), pending[1..], items, t, i)
    else if items == [] then Some(i)
    else match items[0]
      case One(a) => Match(cc, [a], items[1..], t, i)
      case OptGroup(body) =>
        var g := Match(cc, body, items[1..], t, i);
        if g.Some? then g else Match(cc, [], items[1..], t, i)
  }

  /** Tries the repetition counts `k`, `k - 1`, ..., `a.lo` of atom `a` at
      `i`, each followed by the rest of the pattern; the first that leads to
      a match wins. */
  function TryCounts(cc: CharClasses, a: Atom, k: nat, rest: seq<Atom>, items: seq<Item>, t: string, i: nat): (r: Option<nat>)
    requires i + k <= |t|
    ensures r.Some? ==> i + a.lo + MinLen(rest, items) <= r.value <= |t|
    ensures r.Some? ==> r.value <= i + k + MaxLen(rest, items)
    decreases |items|, |rest| + 1, 0, k
  {
    if k < a.lo then None
    else
      var m := Match(cc, rest, items, t, i + k);
      if m.Some? then m
      else if k == 0 then None
      else TryCounts(cc, a, k - 1, rest, items, t, i)
  }

  // ---------------------------------------------------------------------
  // The language of a pattern

  /** `t[i..j]` is a string of the pattern `pending` then `items`. */
  ghost predicate Accepts(cc: CharClasses, pending: seq<Atom>, items: seq<Item>, t: string, i: nat, j: nat)
    requires i <= j <= |t|
    decreases |items|, |pending|
  {
    if pending != [] then
      var a := pending[0];
      exists m | i + a.lo <= m <= i + a.hi && m <= j ::
        AllIn(cc, a.cls, t, i, m) && Accepts(cc, pending[1..], items, t, m, j)
    else if items == [] then i == j
    else match items[0]
      case One(a) => Accepts(cc, [a], items[1..], t, i, j)
      case OptGroup(body) => Accepts(cc, body, items[1..], t, i, j) || Accepts(cc, [], items[1..], t, i, j)
  }

  /** Whatever the matcher returns is a string of the pattern. */
  lemma {:induction false} MatchSound(cc: CharClasses, pending: seq<Atom>, items: seq<Item>, t: string, i: nat)
    requires i <= |t| && Match(cc, pending, items, t, i).Some?
    ensures Accepts(cc, pending, items, t, i, Match(cc, pending, items, t, i).value)
    decreases |items|, |pending|, 1, 0
  {
    if pending != [] {
      var a := pending[0];
      TrySound(cc, a, Greedy(cc, a.cls, t, i, a.hi), pending[1..], items, t, i);
      assert [a] + pending[1..] == pending;
    } else if items != [] {
      match items[0]
      case One(a) => MatchSound(cc, [a], items[1..], t, i);
      case OptGroup(body) =>
        if Match(cc, body, items[1..], t, i).Some? {
          MatchSound(cc, body, items[1..], t, i);
        } else {
          MatchSound(cc, [], items[1..], t, i);
        }
    }
  }

  lemma {:induction false} TrySound(cc: CharClasses, a: Atom, k: nat, rest: seq<Atom>, items: seq<Item>, t: string, i: nat)
    requires i + k <= |t| && k <= a.hi && AllIn(cc, a.cls, t, i, i + k)
    requires TryCounts(cc, a, k, rest, items, t, i).Some?
    ensures Accepts(cc, [a] + rest, items, t, i, TryCounts(cc, a, k, rest, items, t, i).value)
    decreases |items|, |rest| + 1, 0, k
  {
    var m := Match(cc, rest, items, t, i + k);
    var j := TryCounts(cc, a, k, rest, items, t, i).value;
    if m.Some? {
      MatchSound(cc, rest, items, t, i + k);
      assert ([a] + rest)[0] == a && ([a] + rest)[1..] == rest;
      assert AllIn(cc, a.cls, t, i, i + k) && Accepts(cc, rest, items, t, i + k, j);
    } else {
      TrySound(cc, a, k - 1, rest, items, t, i);
    }
  }

  /** A greedy count is the longest run of the class, up to `hi`. */
  lemma GreedyMaximal(cc: CharClasses, c: Class, t: string, i: nat, hi: nat, n: nat)
    requires i + n <= |t| && n <= hi && AllIn(cc, c, t, i, i + n)
    ensures n <= Greedy(cc, c, t, i, hi)
  {
  }

  /** Backtracking misses nothing: if some string of the pattern starts at
      `i`, the matcher finds a match at `i`. */
  lemma {:induction false} MatchComplete(cc: CharClasses, pending: seq<Atom>, items: seq<Item>, t: string, i: nat, j: nat)
    requires i <= j <= |t| && Accepts(cc, pending, items, t, i, j)
    ensures Match(cc, pending, items, t, i).Some?
    decreases |items|, |pending|, 1, 0
  {
    if pending != [] {
      var a := pending[0];
      var m :| i + a.lo <= m <= i + a.hi && m <= j
               && AllIn(cc, a.cls, t, i, m) && Accepts(cc, pending[1..], items, t, m, j);
      GreedyMaximal(cc, a.cls, t, i, a.hi, m - i);
      TryComplete(cc, a, Greedy(cc, a.cls, t, i, a.hi), pending[1..], items, t, i, m, j);
    } else if items != [] {
      match items[0]
      case One(a) => MatchComplete(cc, [a], items[1..], t, i, j);
      case OptGroup(body) =>
        if Accepts(cc, body, items[1..], t, i, j) {
          MatchComplete(cc, body, items[1..], t, i, j);
        } else {
          MatchComplete(cc, [], items[1..], t, i, j);
        }
    }
  }

  lemma {:induction false} TryComplete(cc: CharClasses, a: Atom, k: nat, rest: seq<Atom>, items: seq<Item>,
                                       t: string, i: nat, m: nat, j: nat)
    requires i + k <= |t| && i + a.lo <= m <= i + k && m <= j <= |t|
    requires Accepts(cc, rest, items, t, m, j)
    ensures TryCounts(cc, a, k, rest, items, t, i).Some?
    decreases |items|, |rest| + 1, 0, k
  {
    if Match(cc, rest, items, t, i + k).None? {
      if m == i + k {
        MatchComplete(cc, rest, items, t, m, j);
      } else {
        TryComplete(cc, a, k - 1, rest, items, t, i, m, j);
      }
    }
  }

  // ---------------------------------------------------------------------
  // Shape of a match: its ASCII digits, its last and its first character

  lemma {:induction false} MatchDigits(cc: CharClasses, pending: seq<Atom>, items: seq<Item>, t: string, i: nat)
    requires i <= |t| && Match(cc, pending, items, t, i).Some?
    ensures DigitsFrom(t, i, Match(cc, pending, items, t, i), AsciiMin(pending, items))
    decreases |items|, |pending|, 2, 0, 0
  {
    if pending != [] {
      var a := pending[0];
      TryDigits(cc, a, Greedy(cc, a.cls, t, i, a.hi), pending[1..], items, t, i);
    } else if items != [] {
      match items[0]
      case One(a) => MatchDigits(cc, [a], items[1..], t, i);
      case OptGroup(body) =>
        if Match(cc, body, items[1..], t, i).Some? {
          MatchDigits(cc, body, items[1..], t, i);
        } else {
          MatchDigits(cc, [], items[1..], t, i);
        }
    }
  }

  lemma {:induction false} TryDigits(cc: CharClasses, a: Atom, k: nat, rest: seq<Atom>, items: seq<Item>, t: string, i: nat)
    requires i + k <= |t| && AllIn(cc, a.cls, t, i, i + k)
    requires TryCounts(cc, a, k, rest, items, t, i).Some?
    ensures DigitsFrom(t, i, TryCounts(cc, a, k, rest, items, t, i), AsciiLo(a) + AsciiMin(rest, items))
    decreases |items|, |rest| + 1, 1, k, 1
  {
    if Match(cc, rest, items, t, i + k).Some? {
      TryDigitsHere(cc, a, k, rest, items, t, i);
    } else {
      assert TryCounts(cc, a, k, rest, items, t, i) == TryCounts(cc, a, k - 1, rest, items, t, i);
      TryDigits(cc, a, k - 1, rest, items, t, i);
    }
  }

  /** The case where the rest of the pattern matches after `k` repetitions. */
  lemma {:induction false} TryDigitsHere(cc: CharClasses, a: Atom, k: nat, rest: seq<Atom>, items: seq<Item>, t: string, i: nat)
    requires i + a.lo <= i + k <= |t| && AllIn(cc, a.cls, t, i, i + k)
    requires Match(cc, rest, items, t, i + k).Some?
    ensures DigitsFrom(t, i, Match(cc, rest, items, t, i + k), AsciiLo(a) + AsciiMin(rest, items))
    decreases |items|, |rest| + 1, 1, k, 0
  {
    MatchDigits(cc, rest, items, t, i + k);
    CountAfterRun(cc, a, t, i, i + k, Match(cc, rest, items, t, i + k).value);
  }

  /** `r` is a match from `i` holding at least `n` ASCII digits. */
  predicate DigitsFrom(t: string, i: nat, r: Option<nat>, n: nat) {
    r.Some? && i <= r.value <= |t| && AsciiDigitCount(t[i..r.value]) >= n
  }

  /** A run of atom `a` then anything: the ASCII digits of the whole are at
      least those the atom must consume plus those of the second part. */
  lemma CountAfterRun(cc: CharClasses, a: Atom, t: string, i: nat, m: nat, j: nat)
    requires i + a.lo <= m <= j <= |t| && AllIn(cc, a.cls, t, i, m)
    ensures AsciiDigitCount(t[i..j]) >= AsciiLo(a) + AsciiDigitCount(t[m..j])
  {
    assert t[i..j] == t[i..m] + t[m..j];
    AsciiDigitCountAppend(t[i..m], t[m..j]);
    if a.cls == AsciiDigit {
      AsciiDigitCountAll(t[i..m]);
    }
  }

  /** The atom a pattern ends with, when it ends with a single repetition. */
  function LastAtom(pending: seq<Atom>, items: seq<Item>): Option<Atom> {
    if items != [] then
      match items[|items| - 1]
      case One(a) => Some(a)
      case OptGroup(_) => None
    else if pending != [] then Some(pending[|pending| - 1])
    else None
  }

  lemma {:induction false} MatchLast(cc: CharClasses, pending: seq<Atom>, items: seq<Item>, t: string, i: nat, a: Atom)
    requires i <= |t| && Match(cc, pending, items, t, i).Some?
    requires LastAtom(pending, items) == Some(a) && a.lo >= 1
    ensures EndsIn(cc, a.cls, t, i, Match(cc, pending, items, t, i))
    decreases |items|, |pending|, 1, 0
  {
    if pending != [] {
      var b := pending[0];
      assert [b] + pending[1..] == pending;
      TryLast(cc, b, Greedy(cc, b.cls, t, i, b.hi), pending[1..], items, t, i, a);
    } else {
      if |items| >= 2 {
        LastAtomDrop(items);
      }
      match items[0]
      case One(b) =>
        assert Match(cc, [], items, t, i) == Match(cc, [b], items[1..], t, i);
        MatchLast(cc, [b], items[1..], t, i, a);
      case OptGroup(body) =>
        if |items| == 1 {
          assert false;
        } else if Match(cc, body, items[1..], t, i).Some? {
          assert Match(cc, [], items, t, i) == Match(cc, body, items[1..], t, i);
          MatchLast(cc, body, items[1..], t, i, a);
        } else {
          assert Match(cc, [], items, t, i) == Match(cc, [], items[1..], t, i);
          MatchLast(cc, [], items[1..], t, i, a);
        }
    }
  }

  /** `r` is a match from `i` whose last character is in class `c`. */
  predicate EndsIn(cc: CharClasses, c: Class, t: string, i: nat, r: Option<nat>) {
    r.Some? && i < r.value <= |t| && InClass(cc, c, t[r.value - 1])
  }

  /** With two items or more, the last atom is that of the items after the
      first, whatever comes before them. */
  lemma LastAtomDrop(items: seq<Item>)
    requires |items| >= 2
    ensures forall p: seq<Atom> :: LastAtom(p, items[1..]) == LastAtom([], items)
  {
    assert items[1..][|items| - 2] == items[|items| - 1];
  }

  lemma {:induction false} TryLast(cc: CharClasses, b: Atom, k: nat, rest: seq<Atom>, items: seq<Item>, t: string, i: nat, a: Atom)
    requires i + k <= |t| && AllIn(cc, b.cls, t, i, i + k)
    requires TryCounts(cc, b, k, rest, items, t, i).Some?
    requires LastAtom([b] + rest, items) == Some(a) && a.lo >= 1
    ensures EndsIn(cc, a.cls, t, i, TryCounts(cc, b, k, rest, items, t, i))
    decreases |items|, |rest| + 1, 0, k
  {
    var m := Match(cc, rest, items, t, i + k);
    if m.Some? {
      if rest == [] && items == [] {
        assert a == b && m.value == i + k && k >= 1;
        assert InClass(cc, b.cls, t[i + k - 1]);
      } else {
        if items == [] {
          assert ([b] + rest)[|rest|] == rest[|rest| - 1];
        }
        assert LastAtom(rest, items) == Some(a);
        MatchLast(cc, rest, items, t, i + k, a);
      }
    } else {
      TryLast(cc, b, k - 1, rest, items, t, i, a);
    }
  }

  /** `ch` can be the first character of a non-empty string of the pattern. */
  predicate CanStart(cc: CharClasses, pending: seq<Atom>, items: seq<Item>, ch: char)
    decreases |items|, |pending|
  {
    if pending != [] then
      InClass(cc, pending[0].cls, ch) || (pending[0].lo == 0 && CanStart(cc, pending[1..], items, ch))
    else if items == [] then false
    else match items[0]
      case One(a) => CanStart(cc, [a], items[1..], ch)
      case OptGroup(body) => CanStart(cc, body, items[1..], ch) || CanStart(cc, [], items[1..], ch)
  }

  lemma {:induction false} MatchFirst(cc: CharClasses, pending: seq<Atom>, items: seq<Item>, t: string, i: nat)
    requires i <= |t| && Match(cc, pending, items, t, i).Some?
    requires i < Match(cc, pending, items, t, i).value
    ensures CanStart(cc, pending, items, t[i])
    decreases |items|, |pending|, 1, 0
  {
    if pending != [] {
      var a := pending[0];
      TryFirst(cc, a, Greedy(cc, a.cls, t, i, a.hi), pending[1..], items, t, i);
    } else if items != [] {
      match items[0]
      case One(a) => MatchFirst(cc, [a], items[1..], t, i);
      case OptGroup(body) =>
        if Match(cc, body, items[1..], t, i).Some? {
          MatchFirst(cc, body, items[1..], t, i);
        } else {
          MatchFirst(cc, [], items[1..], t, i);
        }
    }
  }

  lemma {:induction false} TryFirst(cc: CharClasses, a: Atom, k: nat, rest: seq<Atom>, items: seq<Item>, t: string, i: nat)
    requires i + k <= |t| && AllIn(cc, a.cls, t, i, i + k)
    requires TryCounts(cc, a, k, rest, items, t, i).Some?
    requires i < TryCounts(cc, a, k, rest, items, t, i).value
    ensures InClass(cc, a.cls, t[i]) || (a.lo == 0 && CanStart(cc, rest, items, t[i]))
    decreases |items|, |rest| + 1, 0, k
  {
    var m := Match(cc, rest, items, t, i + k);
    if m.Some? {
      if k == 0 {
        MatchFirst(cc, rest, items, t, i);
      }
    } else {
      TryFirst(cc, a, k - 1, rest, items, t, i);
    }
  }

  // ---------------------------------------------------------------------
  // The phone pattern's bounds

  lemma PhonePatternBounds()
    ensures MinLen([], PhonePattern) == 3
    ensures MaxLen([], PhonePattern) == 26
    ensures AsciiMin([], PhonePattern) == 3
  {
  }

  lemma PhonePatternLast()
    ensures LastAtom([], PhonePattern) == Some(Atom(AsciiDigit, 1, 9))
  {
  }

  lemma PhonePatternStart(cc: CharClasses, ch: char)
    requires CanStart(cc, [], PhonePattern, ch)
    ensures ch == '+' || ch == '(' || cc.digit(ch) || IsAsciiDigit(ch)
  {
    var p := PhonePattern;
    assert CanStart(cc, [], p, ch) == (ch == '+' || CanStart(cc, [], p[1..], ch));
    assert CanStart(cc, [], p[1..], ch) == (cc.digit(ch) || CanStart(cc, [], p[2..], ch));
    assert CanStart(cc, [], p[2..], ch) == (ch == '(' || CanStart(cc, [], p[3..], ch));
    assert CanStart(cc, [], p[3..], ch) == IsAsciiDigit(ch);
  }
}
