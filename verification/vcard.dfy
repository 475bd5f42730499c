/** `vcf_serializer` (extract.py:15-16): the cards' texts joined by a single
    "\n". A card is rendered as the four-line envelope of RFC 6350: BEGIN and
    END (sections 6.1.1 and 6.1.2), FN (section 6.2.1) and TEL (section
    6.4.1), separated by "\n". */
module VCard {
  import opened PyStr
  import opened Contacts

  function CardLines(c: Contact): seq<string> {
    ["BEGIN:VCARD", "FN:" + c.fn, "TEL:" + c.tel, "END:VCARD"]
  }

  /** `contact.serialize()`, simplified to the four-line envelope. */
  function CardText(c: Contact): (r: string)
    ensures r == "BEGIN:VCARD\nFN:" + c.fn + "\nTEL:" + c.tel + "\nEND:VCARD"
  {
    var l := CardLines(c);
    assert Join(l, "\n") == l[0] + "\n" + Join(l[1..], "\n");
    assert Join(l[1..], "\n") == l[1] + "\n" + Join(l[2..], "\n");
    assert Join(l[2..], "\n") == l[2] + "\n" + Join(l[3..], "\n");
    Join(l, "\n")
  }

  /** `vcf_serializer(contacts)`: empty exactly when there is no contact. */
  function Serialize(cs: seq<Contact>): (r: string)
    ensures r == [] <==> cs == []
  {
    var cards := seq(|cs|, k requires 0 <= k < |cs| => CardText(cs[k]));
    if cs != [] then
      assert CardText(cs[0])[0] == 'B';
      JoinStart(cards, "\n");
      Join(cards, "\n")
    else
      Join(cards, "\n")
  }

  lemma JoinStart(parts: seq<string>, sep: string)
    requires parts != [] && parts[0] != []
    ensures Join(parts, sep) != [] && Join(parts, sep)[0] == parts[0][0]
  {
  }

  /** The lines of all cards, card after card. */
  function AllLines(cs: seq<Contact>): (r: seq<string>)
    ensures |r| == 4 * |cs|
  {
    if cs == [] then [] else CardLines(cs[0]) + AllLines(cs[1..])
  }

  lemma {:induction false} AllLinesAt(cs: seq<Contact>, k: nat)
    requires k < |cs|
    ensures AllLines(cs)[4 * k..4 * k + 4] == CardLines(cs[k])
  {
    if k > 0 {
      AllLinesAt(cs[1..], k - 1);
      assert AllLines(cs)[4 * k..4 * k + 4] == AllLines(cs[1..])[4 * (k - 1)..4 * (k - 1) + 4];
    }
  }

  lemma {:induction false} SerializeAsLines(cs: seq<Contact>)
    ensures Serialize(cs) == Join(AllLines(cs), "\n")
  {
    var cards := seq(|cs|, k requires 0 <= k < |cs| => CardText(cs[k]));
    assert Serialize(cs) == Join(cards, "\n");
    if cs == [] {
      assert AllLines(cs) == [];
    } else if |cs| == 1 {
      assert cs[1..] == [] && AllLines(cs[1..]) == [];
      assert AllLines(cs) == CardLines(cs[0]) + [] == CardLines(cs[0]);
      assert Join(cards, "\n") == cards[0] == CardText(cs[0]);
    } else {
      SerializeAsLines(cs[1..]);
      var rest := seq(|cs| - 1, k requires 0 <= k < |cs| - 1 => CardText(cs[1..][k]));
      assert cards[1..] == rest;
      assert Serialize(cs[1..]) == Join(rest, "\n");
      JoinAppend(CardLines(cs[0]), AllLines(cs[1..]), "\n");
    }
  }

  lemma {:induction false} LinesWithoutBreaks(cs: seq<Contact>)
    requires forall k | 0 <= k < |cs| :: '\n' !in cs[k].fn && '\n' !in cs[k].tel
    ensures forall m | 0 <= m < |AllLines(cs)| :: '\n' !in AllLines(cs)[m]
  {
    if cs != [] {
      LinesWithoutBreaks(cs[1..]);
      var c := cs[0];
      assert '\n' !in "FN:" + c.fn && '\n' !in "TEL:" + c.tel;
    }
  }

  /** Read back line by line, the output is the cards in order, four lines
      each: BEGIN:VCARD, FN:<name>, TEL:<number>, END:VCARD (so one
      BEGIN/END pair per contact), provided no name or number holds a line
      break. */
  lemma SerializeLines(cs: seq<Contact>)
    requires forall k | 0 <= k < |cs| :: '\n' !in cs[k].fn && '\n' !in cs[k].tel
    ensures cs != [] ==> Split(Serialize(cs), '\n') == AllLines(cs)
    ensures forall k | 0 <= k < |cs| :: AllLines(cs)[4 * k..4 * k + 4] == CardLines(cs[k])
  {
    forall k | 0 <= k < |cs|
      ensures AllLines(cs)[4 * k..4 * k + 4] == CardLines(cs[k])
    {
      AllLinesAt(cs, k);
    }
    if cs != [] {
      SerializeAsLines(cs);
      LinesWithoutBreaks(cs);
      SplitJoin(AllLines(cs), '\n');
    }
  }
}
