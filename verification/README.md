# plain-text-2vcf, modelled in Dafny

`extract.py` turns a directory of plain-text files into vCard files. It
first creates the input and output directories. It then reads a run file
and stops unless that file's content, stripped of surrounding whitespace,
is exactly `True`. Every entry of the input directory is then scanned for
telephone numbers with one regular expression, whatever the entry's
extension. The entries are taken in sorted name order, and the matches
become contacts. Each contact is named after the entry's base name and its
position in the file (`notes-1`, `notes-2`, ...). The contacts of one entry
are written to `<base>.vcf`. The program counts the files converted and the
contacts written. The first error ends the batch.

The model has these modules:

- `PyStr` (`pystr.dfy`) holds the string behaviour the program relies on:
  - the Unicode classes `\d` and `\s`, kept abstract as a `CharClasses` value whose `Valid()` states what Python guarantees about them;
  - `str.strip()`;
  - `str(n)` and its inverse;
  - `sep.join` and `str.split`.
- `Regex` (`regex.dfy`) is the fragment of Python's backtracking `re` engine that the phone pattern uses, with the pattern as data. `Match` is the engine's anchored attempt at one position, as `pattern.match(t, i)` makes it: it returns the end of the first match in priority order. The search over positions is `Extractor.Scan`. `Accepts` is the pattern's language. The two are proved to agree.
- `Extractor` (`extractor.dfy`) models `extract_phone_numbers`: the scan of `re.findall` and the shape of its matches.
- `PyPath` (`pypath.dfy`) models POSIX `os.path.splitext`.
- `Sorting` (`sorting.dfy`) models `sorted` on names, under Python's code-point order on `str`.
- `Contacts` (`contacts.dfy`) models the contact-building loop.
- `VCard` (`vcard.dfy`) models `vcf_serializer`, with each card as the four-line envelope of RFC 6350: BEGIN and END (sections 6.1.1 and 6.1.2), FN (section 6.2.1) and TEL (section 6.4.1).
- `Batch` (`batch.dfy`) models `main` over an abstract file system:
  - the input directory is a map from entry name to what reading it gives (its text, or a failure);
  - `listing` is the order `os.listdir` returns;
  - the output directory is a map from file name to text, passed in and returned.

## Model

| member | source | states |
|---|---|---|
| Regex.Match | extract.py:33 | A match found at position i ends between i + MinLen and i + MaxLen of the pattern and within the text |
| Regex.MatchSound | extract.py:33 | Whatever the engine returns is a string of the pattern's language |
| Regex.MatchComplete | extract.py:33 | If the pattern's language holds any string at position i, the engine finds a match there |
| Regex.MatchDigits | extract.py:33 | A match holds at least as many ASCII digits as the `[0-9]` repetitions demand |
| Regex.MatchLast | extract.py:33 | A match's last character belongs to the class of the pattern's last atom |
| Regex.MatchFirst | extract.py:33 | A match's first character is one the pattern can start with |
| Regex.PhonePattern | extract.py:33 | The pattern transcribed atom by atom; what it admits is stated by `PhonePatternBounds`, `PhonePatternLast` and `PhonePatternStart` |
| Regex.PhonePatternBounds | extract.py:33 | The phone pattern matches 3 to 26 characters and needs at least 3 ASCII digits |
| Regex.PhonePatternLast | extract.py:33 | The phone pattern ends with `[0-9]{1,9}` |
| Regex.PhonePatternStart | extract.py:33 | The phone pattern can start only with '+', '(', a `\d` or an ASCII digit |
| Regex.Greedy | extract.py:33 | A greedy repetition takes the longest run of its class up to its bound |
| Extractor.MatchAt | extract.py:33-35 | A match at q spans 3 to 26 characters and stays inside the text |
| Extractor.Scan | extract.py:35 | The findall scan yields exactly the leftmost non-overlapping matches: each is a match of the pattern at its start, they go left to right without overlap, and the pattern matches nowhere in the gaps the scan skips |
| Extractor.FindAll | extract.py:30-35 | Every result is the text of its span; the spans are non-empty, inside the text, increasing and non-overlapping |
| Extractor.MatchAtShape | extract.py:33 | Wherever the pattern matches, the text it matches has 3 to 26 characters and at least three ASCII digits, ends with an ASCII digit, and starts with '+', '(' or a digit |
| Extractor.MatchShape | extract.py:33 | Every result has 3 to 26 characters and at least three ASCII digits, ends with an ASCII digit, and starts with '+', '(' or a digit |
| Extractor.NoDigitsNoMatches | extract.py:30-35 | A text without ASCII digits, the empty text among them, yields no result |
| Extractor.MatchesAreStripped | extract.py:33 | Stripping a result leaves it unchanged |
| Extractor.MatchesInLanguage | extract.py:35 | Every result is a string of the pattern's language |
| Extractor.GapsHoldNoMatch | extract.py:35 | No string of the pattern's language starts at any position the scan passed over |
| PyStr.Strip | extract.py:51 | The result is the text minus whitespace at both ends: it sits inside the text with only whitespace around it, and it neither starts nor ends with whitespace |
| PyStr.StripUnchanged | extract.py:73 | Stripping is the identity exactly on texts that neither start nor end with whitespace |
| PyStr.StripPadded | extract.py:51 | The padding is unique: for a core that neither starts nor ends with whitespace, placed anywhere in a text with only whitespace around it, stripping the text gives back that core |
| PyStr.Decimal | extract.py:72 | `str(n)` is non-empty, all ASCII digits, with no leading zero unless n is 0 |
| PyStr.DecimalRoundTrip | extract.py:72 | Parsing `str(n)` gives back n |
| PyStr.DecimalInjective | extract.py:72 | Distinct numbers print differently |
| PyStr.Join | extract.py:16 | Joining no parts gives the empty string, and joining one part gives that part |
| PyStr.JoinAppend | extract.py:16 | Joining two non-empty lists puts exactly one separator between their joins |
| PyStr.SplitJoin | extract.py:16 | Splitting on the separator undoes joining when no part contains it |
| PyPath.LastIndex | extract.py:72 | `rfind` gives the last index of the character, or -1 when it is absent |
| PyPath.Root | extract.py:72 | The root is a prefix of the path, and either is the whole path or is followed by a '.' |
| PyPath.SplitExt | extract.py:72 | Root and extension concatenate back to the path; the extension is empty or runs from the last '.' of the final component, provided a non-dot precedes that dot |
| Sorting.StrLe | extract.py:12 | Python's `<=` on `str`, code point by code point: a prefix comes first, and a non-empty string is at most another only if that one is non-empty and its first code point is not smaller |
| Sorting.StrLeTotal | extract.py:12 | Python's order on strings is total |
| Sorting.StrLeTransitive | extract.py:12 | Python's order on strings is transitive |
| Sorting.StrLeAntisymmetric | extract.py:12 | Python's order on strings is antisymmetric |
| Sorting.Sort | extract.py:12 | `sorted` returns the same names, as a multiset, in ascending order |
| Sorting.SortedUnique | extract.py:12 | Two sorted lists with the same elements are equal |
| Sorting.SortIndependent | extract.py:12 | Sorting gives the same list whatever order the names started in |
| Contacts.BuildContacts | extract.py:69-74 | The loop builds one contact per number: the k-th named `root-(k+1)`, holding the stripped k-th number |
| Contacts.Label | extract.py:72 | A label is the root, then '-', then ASCII digits that parse back to its number |
| Contacts.LabelInjective | extract.py:72 | Different numbers give different labels under the same root |
| Contacts.LabelsDistinct | extract.py:72 | The labels under one root are pairwise distinct |
| Contacts.ContactsFor | extract.py:69-74 | One contact per number, the k-th named `root-(k+1)` and holding the stripped k-th number; no two contacts share an FN value |
| Contacts.ContactsOfText | extract.py:67-74 | For a file's text there are as many contacts as matches, and the k-th is named `root-(k+1)` and holds the k-th match itself |
| VCard.CardText | extract.py:16 | A card's text is `BEGIN:VCARD`, `FN:<name>`, `TEL:<number>` and `END:VCARD`, separated by "\n" |
| VCard.Serialize | extract.py:16 | The output is empty exactly when there are no contacts |
| VCard.SerializeAsLines | extract.py:16 | The output is all the cards' lines, card after card, joined by one "\n" |
| VCard.SerializeLines | extract.py:16 | Read back line by line, the output is four lines per contact, in order: BEGIN:VCARD, FN, TEL, END:VCARD |
| Batch.GateOpen | extract.py:51 | An open gate means the run file holds "True" with only whitespace around it |
| Batch.GateOpenIff | extract.py:50-55 | The run proceeds exactly when the run file holds "True" with only whitespace around it |
| Batch.FirstUnreadable | extract.py:63-65 | The entries before the returned position are all readable, and the entry at that position is not |
| Batch.FirstUnreadableAt | extract.py:63-65 | The first failure is at the position that follows a readable prefix |
| Batch.Run | extract.py:49-83 | An unreadable run file aborts the run and a closed gate denies it, leaving the outputs untouched in both cases. Otherwise the entries are taken in sorted order, and every output of the entries before the first unreadable one is written. The run aborts naming that entry, or completes with the number of entries and the total match count |
| Batch.ConvertAll | extract.py:58-83 | The loop writes each entry's cards under `root + ".vcf"` until the first unreadable entry. It counts the files converted and the contacts |
| Batch.OutputName | extract.py:76 | An output name ends in ".vcf", and what precedes it is a prefix of the entry's name |
| Batch.WrittenAppend | extract.py:76-80 | One more entry writes its output over any earlier one of that name and adds its match count |
| Batch.FileText | extract.py:67-77 | The text written for an entry is empty exactly when its content holds no match |
| Batch.Written | extract.py:76-77 | The outputs written are exactly the `root + ".vcf"` names of the entries processed |
| Batch.ContactTotal | extract.py:80 | The contact total is zero exactly when no processed entry holds a match |
| Batch.WrittenLastWins | extract.py:63-77 | An entry's output holds its own cards unless a later entry in sorted order has the same output name |
| Batch.ListingOrderIrrelevant | extract.py:12 | Any two listings of the same directory sort to the same batch order |
| Batch.ListingSize | extract.py:63-79 | A completed run's file count equals the number of directory entries |

## Left out

- Real file-system I/O (`os.listdir`, `open`, `read`, `write`, `os.makedirs`) is left out. The input directory is a map, the listing a sequence, and the output directory a map.
- The input and output directories are taken to be different. The model reads every entry from the directory as it was before the run, so an output written during the run is never read back as input. In Python, when both paths name the same directory, an entry such as `x.vcf` that sorts after `x.txt` is read after `x.txt` has overwritten it.
- Failures when creating directories or writing an output file are left out. Only reads can fail in the model: the run file, or an input entry that is not UTF-8 or is a directory.
- `dotenv` and `os.getenv` are left out; they only choose the three paths.
- Everything `print` shows is left out: the listing, the progress lines, the summary and the bug-report text. The summary's two numbers are the fields of `Completed`.
- `vobject` is left out. A card is the simplified four-line envelope joined by "\n", with no VERSION line, no CRLF line endings and no line folding or escaping. No claim of byte equality with `vobject` output is made.
- `VCard.SerializeLines` requires that no name or number contains a line break. A match can contain one: it never starts or ends with whitespace, but a `\s` separator inside it can be "\n".
- The Unicode tables behind `\d`, `\s` and `str.strip()` are left out. The model takes the two predicates as parameters, and `CharClasses.Valid` states only what the proofs need: ASCII digits are `\d`, and whitespace is neither `\d` nor printable ASCII.
- `Sorting.Sort` gives the result of `sorted` but not its algorithm (Timsort). Any correct sort gives the same list, as `Sorting.SortedUnique` shows.
- `PyPath.SplitExt` models the POSIX `os.path.splitext` only: '/' is the only separator, and there are no drive letters.
- General Python `re` is left out. `Regex` covers only greedy bounded repetitions of a character set and optional groups of them, which is what the phone pattern uses.
