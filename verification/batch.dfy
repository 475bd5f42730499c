/** `main` (extract.py:38-90) over an abstract file system: the input
    directory is a map from entry name to what reading that entry gives, the
    output directory a map from file name to text. The run gate reads the run
    file; the batch then converts the entries in sorted order, writing one
    output per entry and accumulating two counters, and the first entry that
    cannot be read ends the batch, leaving earlier outputs in place. */
module Batch {
  import opened PyStr
  import opened Sorting
  import opened PyPath
  import Extractor
  import opened Contacts
  import opened VCard

  /** What reading a file gives: its text, or an error (not valid UTF-8, a
      directory, refused by the operating system). */
  datatype ReadResult = Text(content: string) | Unreadable

  /** The exception that ends a run. */
  datatype Failure = RunFileUnreadable | InputUnreadable(name: string)

  /** Denied: the gate printed its warning. Aborted: an exception reached
      the handler. Completed: the summary was printed with these counters. */
  datatype Outcome = Denied | Aborted(failure: Failure) | Completed(filesConverted: nat, totalContacts: nat)

  /** The run gate of extract.py:50-55. */
  function GateOpen(cc: CharClasses, content: string): (open: bool)
    ensures open ==> exists a: nat :: PaddedBy(cc, content, "True", a)
  {
    Strip(cc, content) == "True"
  }

  /** The gate opens exactly when the run file holds "True" with nothing but
      whitespace around it. */
  lemma GateOpenIff(cc: CharClasses, content: string)
    requires cc.Valid()
    ensures GateOpen(cc, content) <==> exists a: nat :: PaddedBy(cc, content, "True", a)
  {
    if exists a: nat :: PaddedBy(cc, content, "True", a) {
      var a: nat :| PaddedBy(cc, content, "True", a);
      PaddedTrueOpens(cc, content, a);
    }
  }

  lemma PaddedTrueOpens(cc: CharClasses, content: string, a: nat)
    requires cc.Valid() && PaddedBy(cc, content, "True", a)
    ensures GateOpen(cc, content)
  {
    assert IsAsciiGraphic('T') && IsAsciiGraphic('e');
    assert !cc.space('T') && !cc.space('e');
    StripPadded(cc, content, "True", a);
  }

  /** `os.path.join(vcf_dir, f"{os.path.splitext(name)[0]}.vcf")`, relative
      to the output directory. */
  function OutputName(name: string): (r: string)
    ensures |r| >= 4 && r[|r| - 4..] == ".vcf"
    ensures |r| - 4 <= |name| && r[..|r| - 4] == name[..|r| - 4]
  {
    Root(name) + ".vcf"
  }

  /** The text written for an input file of this name and content. */
  function FileText(cc: CharClasses, name: string, content: string): (r: string)
    ensures r == [] <==> Extractor.FindAll(cc, content) == []
  {
    Serialize(ContactsFor(cc, Root(name), Extractor.FindAll(cc, content)))
  }

  /** `listing` is what `os.listdir` gives for `dir`: each entry once, in
      some order. */
  predicate IsListing(listing: seq<string>, dir: map<string, ReadResult>) {
    && (forall i, j | 0 <= i < j < |listing| :: listing[i] != listing[j])
    && (forall m | 0 <= m < |listing| :: listing[m] in dir)
    && (forall n | n in dir :: n in listing)
  }

  predicate AllListed(dir: map<string, ReadResult>, names: seq<string>) {
    forall m | 0 <= m < |names| :: names[m] in dir
  }

  predicate AllReadable(dir: map<string, ReadResult>, names: seq<string>) {
    forall m | 0 <= m < |names| :: names[m] in dir && dir[names[m]].Text?
  }

  /** The position of the first entry of `names` that cannot be read, or
      `|names|` when all can. */
  function FirstUnreadable(dir: map<string, ReadResult>, names: seq<string>): (k: nat)
    requires AllListed(dir, names)
    ensures k <= |names|
    ensures AllReadable(dir, names[..k])
    ensures k == |names| ==> AllReadable(dir, names)
    ensures k < |names| ==> dir[names[k]].Unreadable?
  {
    if names == [] then 0
    else if dir[names[0]].Unreadable? then 0
    else
      var k := 1 + FirstUnreadable(dir, names[1..]);
      assert forall m | 1 <= m < k :: names[..k][m] == names[1..][..k - 1][m - 1];
      k
  }

  /** The first unreadable entry is the one that follows a readable
      prefix. */
  lemma FirstUnreadableAt(dir: map<string, ReadResult>, names: seq<string>, i: nat)
    requires AllListed(dir, names) && i <= |names| && AllReadable(dir, names[..i])
    requires i < |names| ==> dir[names[i]].Unreadable?
    ensures FirstUnreadable(dir, names) == i
  {
  }

  /** The output files written for `names`, in order (a later write to the
      same output name replaces an earlier one). */
  function Written(cc: CharClasses, dir: map<string, ReadResult>, names: seq<string>): (w: map<string, string>)
    requires AllReadable(dir, names)
    ensures w.Keys == OutputNames(names)
  {
    if names == [] then map[]
    else
      var last := names[|names| - 1];
      OutputNamesAppend(names);
      Written(cc, dir, names[..|names| - 1])[OutputName(last) := FileText(cc, last, dir[last].content)]
  }

  /** The sum of the match counts of `names`. */
  function ContactTotal(cc: CharClasses, dir: map<string, ReadResult>, names: seq<string>): (total: nat)
    requires AllReadable(dir, names)
    ensures total == 0 <==> forall m | 0 <= m < |names| :: Extractor.FindAll(cc, dir[names[m]].content) == []
  {
    if names == [] then 0
    else
      var n := |names| - 1;
      assert forall m | 0 <= m < n :: names[..n][m] == names[m];
      ContactTotal(cc, dir, names[..n]) + |Extractor.FindAll(cc, dir[names[n]].content)|
  }

  lemma SortedListingInDir(listing: seq<string>, dir: map<string, ReadResult>)
    requires IsListing(listing, dir)
    ensures AllListed(dir, Sort(listing))
  {
    var names := Sort(listing);
    forall m | 0 <= m < |names|
      ensures names[m] in dir
    {
      assert names[m] in multiset(names);
    }
  }

  /** `main`, from the gate check on: `runFile` is what reading the run
      file gives, `outputs0` the output directory before the run. */
  method Run(cc: CharClasses, runFile: ReadResult, dir: map<string, ReadResult>, listing: seq<string>,
             outputs0: map<string, string>)
    returns (outcome: Outcome, outputs: map<string, string>)
    requires IsListing(listing, dir)
    ensures runFile.Unreadable? ==> outcome == Aborted(RunFileUnreadable) && outputs == outputs0
    ensures runFile.Text? && !GateOpen(cc, runFile.content) ==> outcome == Denied && outputs == outputs0
    ensures runFile.Text? && GateOpen(cc, runFile.content) ==>
              var names := Sort(listing);
              AllListed(dir, names) &&
              var k := FirstUnreadable(dir, names);
              && outputs == outputs0 + Written(cc, dir, names[..k])
              && outcome == if k < |names| then Aborted(InputUnreadable(names[k]))
                            else Completed(|names|, ContactTotal(cc, dir, names))
  {
    if runFile.Unreadable? {
      return Aborted(RunFileUnreadable), outputs0;
    }
    if !GateOpen(cc, runFile.content) {
      return Denied, outputs0;
    }
    var names := Sort(listing);
    SortedListingInDir(listing, dir);
    outcome, outputs := ConvertAll(cc, dir, names, outputs0);
  }

  /** The batch loop of extract.py:58-83 over the sorted entry names. */
  method ConvertAll(cc: CharClasses, dir: map<string, ReadResult>, names: seq<string>, outputs0: map<string, string>)
    returns (outcome: Outcome, outputs: map<string, string>)
    requires AllListed(dir, names)
    ensures var k := FirstUnreadable(dir, names);
            && outputs == outputs0 + Written(cc, dir, names[..k])
            && outcome == if k < |names| then Aborted(InputUnreadable(names[k]))
                          else Completed(|names|, ContactTotal(cc, dir, names))
  {
    var filesConverted, totalContacts := 0, 0;
    outputs := outputs0;
    for i := 0 to |names|
      invariant filesConverted == i
      invariant AllReadable(dir, names[..i])
      invariant outputs == outputs0 + Written(cc, dir, names[..i])
      invariant totalContacts == ContactTotal(cc, dir, names[..i])
    {
      var name := names[i];
      var entry := dir[name];
      if entry.Unreadable? {
        FirstUnreadableAt(dir, names, i);
        return Aborted(InputUnreadable(name)), outputs;
      }
      var numbers := Extractor.FindAll(cc, entry.content);
      var contacts := BuildContacts(cc, Root(name), numbers);
      outputs := outputs[OutputName(name) := Serialize(contacts)];
      filesConverted := filesConverted + 1;
      totalContacts := totalContacts + |contacts|;
      ReadableAppend(dir, names, i);
      WrittenAppend(cc, dir, names, i);
      UnionUpdate(outputs0, Written(cc, dir, names[..i]), OutputName(name), Serialize(contacts));
    }
    assert names[..|names|] == names;
    FirstUnreadableAt(dir, names, |names|);
    outcome := Completed(filesConverted, totalContacts);
  }

  /** Appending a readable entry keeps every entry readable, writes its
      output over whatever was there, and adds its match count. */
  lemma ReadableAppend(dir: map<string, ReadResult>, names: seq<string>, i: nat)
    requires i < |names| && AllReadable(dir, names[..i]) && names[i] in dir && dir[names[i]].Text?
    ensures AllReadable(dir, names[..i + 1])
  {
  }

  lemma WrittenAppend(cc: CharClasses, dir: map<string, ReadResult>, names: seq<string>, i: nat)
    requires i < |names| && AllReadable(dir, names[..i + 1])
    ensures Written(cc, dir, names[..i + 1])
            == Written(cc, dir, names[..i])[OutputName(names[i]) := FileText(cc, names[i], dir[names[i]].content)]
    ensures ContactTotal(cc, dir, names[..i + 1])
            == ContactTotal(cc, dir, names[..i]) + |Extractor.FindAll(cc, dir[names[i]].content)|
  {
    var pre := names[..i + 1];
    assert pre[..i] == names[..i];
    assert pre[i] == names[i];
  }

  lemma UnionUpdate(m0: map<string, string>, w: map<string, string>, key: string, text: string)
    ensures m0 + w[key := text] == (m0 + w)[key := text]
  {
  }

  // ---------------------------------------------------------------------
  // What a run leaves behind

  /** The output names of a list of entries. */
  function OutputNames(names: seq<string>): set<string> {
    set m | 0 <= m < |names| :: OutputName(names[m])
  }

  lemma OutputNamesAppend(names: seq<string>)
    requires names != []
    ensures OutputNames(names) == OutputNames(names[..|names| - 1]) + {OutputName(names[|names| - 1])}
  {
    OutputNamesGrow(names);
    OutputNamesShrink(names);
  }

  lemma OutputNamesGrow(names: seq<string>)
    requires names != []
    ensures OutputNames(names[..|names| - 1]) + {OutputName(names[|names| - 1])} <= OutputNames(names)
  {
    var n := |names| - 1;
    var init := names[..n];
    forall key | key in OutputNames(init)
      ensures key in OutputNames(names)
    {
      var m :| 0 <= m < n && key == OutputName(init[m]);
      assert init[m] == names[m];
    }
  }

  lemma OutputNamesShrink(names: seq<string>)
    requires names != []
    ensures OutputNames(names) <= OutputNames(names[..|names| - 1]) + {OutputName(names[|names| - 1])}
  {
    var n := |names| - 1;
    var init := names[..n];
    forall key | key in OutputNames(names)
      ensures key in OutputNames(init) + {OutputName(names[n])}
    {
      var m :| 0 <= m < |names| && key == OutputName(names[m]);
      if m < n {
        assert init[m] == names[m];
      } else {
        assert m == n;
      }
    }
  }

  /** An entry's output holds its own cards unless a later entry in the
      batch has the same output name. */
  lemma {:induction false} WrittenLastWins(cc: CharClasses, dir: map<string, ReadResult>, names: seq<string>, i: nat)
    requires AllReadable(dir, names)
    requires i < |names|
    requires forall m | i < m < |names| :: OutputName(names[m]) != OutputName(names[i])
    ensures OutputName(names[i]) in Written(cc, dir, names)
    ensures Written(cc, dir, names)[OutputName(names[i])] == FileText(cc, names[i], dir[names[i]].content)
  {
    if i < |names| - 1 {
      var init := names[..|names| - 1];
      assert init[i] == names[i];
      WrittenLastWins(cc, dir, init, i);
    }
  }

  /** Sorting makes the batch independent of the order `os.listdir`
      happens to give: any two listings of a directory sort alike. */
  lemma ListingOrderIrrelevant(l1: seq<string>, l2: seq<string>, dir: map<string, ReadResult>)
    requires IsListing(l1, dir) && IsListing(l2, dir)
    ensures Sort(l1) == Sort(l2)
  {
    forall n
      ensures multiset(l1)[n] == multiset(l2)[n]
    {
      DistinctCount(l1, n);
      DistinctCount(l2, n);
    }
    assert multiset(l1) == multiset(l2);
    SortIndependent(l1, l2);
  }

  lemma {:induction false} DistinctCount(s: seq<string>, n: string)
    requires forall i, j | 0 <= i < j < |s| :: s[i] != s[j]
    ensures multiset(s)[n] == if n in s then 1 else 0
  {
    if s != [] {
      DistinctCount(s[1..], n);
      assert s == [s[0]] + s[1..];
      assert s[0] !in s[1..];
    }
  }

  /** A completed run counts every entry of the input directory. */
  lemma ListingSize(listing: seq<string>, dir: map<string, ReadResult>)
    requires IsListing(listing, dir)
    ensures |Sort(listing)| == |listing| == |dir|
  {
    assert |Sort(listing)| == |multiset(Sort(listing))| == |multiset(listing)| == |listing|;
    DistinctCard(listing);
    assert dir.Keys == set n | n in listing;
  }

  lemma {:induction false} DistinctCard(s: seq<string>)
    requires forall i, j | 0 <= i < j < |s| :: s[i] != s[j]
    ensures |set n | n in s| == |s|
  {
    if s != [] {
      DistinctCard(s[1..]);
      assert (set n | n in s) == (set n | n in s[1..]) + {s[0]};
      assert s[0] !in s[1..];
    }
  }
}
