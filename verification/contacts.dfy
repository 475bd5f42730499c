/** The contact builder (extract.py:69-74): one contact per extracted
    number, named after the file's root and the number's 1-based position,
    with the stripped number as its telephone value. */
module Contacts {
  import opened PyStr
  import Extractor

  /** A card with its FN and TEL values. */
  datatype Contact = Contact(fn: string, tel: string)

  /** `f"{root}-{n}"`: the root, a '-', then digits that read back as `n`. */
  function Label(root: string, n: nat): (l: string)
    ensures |l| > |root| + 1 && l[..|root| + 1] == root + "-"
    ensures forall k | |root| + 1 <= k < |l| :: IsAsciiDigit(l[k])
    ensures ParseDecimal(l[|root| + 1..]) == n
  {
    var l := root + "-" + Decimal(n);
    assert l[|root| + 1..] == Decimal(n);
    DecimalRoundTrip(n);
    l
  }

  /** The contacts the loop builds for `numbers`, in order: one per number,
      the k-th named `root-(k+1)` and holding the stripped k-th number. No
      two of them share a name. */
  function ContactsFor(cc: CharClasses, root: string, numbers: seq<string>): (cs: seq<Contact>)
    ensures |cs| == |numbers|
    ensures forall k | 0 <= k < |cs| :: cs[k].fn == Label(root, k + 1) && cs[k].tel == Strip(cc, numbers[k])
    ensures NamesDistinct(cs)
  {
    var cs := seq(|numbers|, k requires 0 <= k < |numbers| => Contact(Label(root, k + 1), Strip(cc, numbers[k])));
    LabelsDistinct(root);
    cs
  }

  /** The loop at extract.py:69-74, appending one contact per number. */
  method BuildContacts(cc: CharClasses, root: string, numbers: seq<string>) returns (contacts: seq<Contact>)
    ensures contacts == ContactsFor(cc, root, numbers)
  {
    ghost var all := ContactsFor(cc, root, numbers);
    contacts := [];
    for i := 0 to |numbers|
      invariant contacts == all[..i]
    {
      var contact := Contact(Label(root, i + 1), Strip(cc, numbers[i]));
      assert contact == all[i];
      PrefixStep(all, i);
      contacts := contacts + [contact];
    }
    PrefixStep(all, |numbers|);
  }

  lemma PrefixStep(s: seq<Contact>, i: nat)
    requires i <= |s|
    ensures i < |s| ==> s[..i + 1] == s[..i] + [s[i]]
    ensures i == |s| ==> s[..i] == s
  {
  }

  /** No two contacts share an FN value. */
  predicate NamesDistinct(cs: seq<Contact>) {
    forall i, j | 0 <= i < j < |cs| :: cs[i].fn != cs[j].fn
  }

  /** The labels under one root are pairwise distinct. */
  lemma LabelsDistinct(root: string)
    ensures forall m: nat, n: nat | m != n :: Label(root, m) != Label(root, n)
  {
    forall m: nat, n: nat | m != n
      ensures Label(root, m) != Label(root, n)
    {
      LabelInjective(root, m, n);
    }
  }

  /** Distinct numbers give distinct labels under the same root. */
  lemma LabelInjective(root: string, m: nat, n: nat)
    requires m != n
    ensures Label(root, m) != Label(root, n)
  {
    var lm, ln := Label(root, m), Label(root, n);
    assert ParseDecimal(lm[|root| + 1..]) != ParseDecimal(ln[|root| + 1..]);
  }

  /** For a file's text: one contact per match, the k-th named
      `root-(k+1)` and holding exactly the k-th match. */
  lemma ContactsOfText(cc: CharClasses, root: string, text: string)
    requires cc.Valid()
    ensures var ms := Extractor.FindAll(cc, text); var cs := ContactsFor(cc, root, ms);
            && |cs| == |ms|
            && forall k | 0 <= k < |cs| :: cs[k] == Contact(Label(root, k + 1), ms[k])
  {
    var ms := Extractor.FindAll(cc, text);
    forall k | 0 <= k < |ms|
      ensures Strip(cc, ms[k]) == ms[k]
    {
      Extractor.MatchesAreStripped(cc, text, k);
    }
    StrippedContacts(cc, root, ms);
  }

  lemma StrippedContacts(cc: CharClasses, root: string, ms: seq<string>)
    requires forall k | 0 <= k < |ms| :: Strip(cc, ms[k]) == ms[k]
    ensures var cs := ContactsFor(cc, root, ms);
            && |cs| == |ms|
            && forall k | 0 <= k < |cs| :: cs[k] == Contact(Label(root, k + 1), ms[k])
  {
  }
}
