/** reeddatae2e.rb: the end-to-end script for one bulk file from the
    Reed Tech server. It picks the download path and output prefix from the
    file type, splits the unzipped bulk file into the documents that mention
    the NSF, and converts those documents to CSV rows. */
module ReedDataE2e {
  import opened Outcomes
  import opened Text
  import opened GovInterest
  import opened XmlModel
  import opened Extractors

  // ---------------------------------------------------------------------
  // Arguments

  /** Where a bulk file lives on the server and the prefix of the files
      written from it. */
  datatype Target = Target(path: string, prefix: string)

  const GrantPrefix := "NSFpatents"
  const ApplicationPrefix := "NSFapplications"

  /** Type `p` selects the grant folder and prefix; any other type, a
      missing one included, selects the application folder and prefix. The
      path ends in the year and the file name in either case. */
  function DownloadTarget(kind: string, fileyear: string, dlfile: string): (t: Target)
    ensures t.prefix == GrantPrefix <==> kind == "p"
    ensures t.prefix == ApplicationPrefix <==> kind != "p"
    ensures kind == "p" ==> t.path == "/downloads/GrantRedBookText/" + fileyear + "/" + dlfile
    ensures kind != "p" ==> t.path == "/downloads/ApplicationFullText/" + fileyear + "/" + dlfile
  {
    if kind == "p" then Target("/downloads/GrantRedBookText/" + fileyear + "/" + dlfile, GrantPrefix)
    else Target("/downloads/ApplicationFullText/" + fileyear + "/" + dlfile, ApplicationPrefix)
  }

  /** Ruby's `s[from..-4]`: nil when `from` is past the end, otherwise the
      characters from `from` up to, not including, the last three (empty
      when there are not that many). */
  function SliceDroppingLastThree(s: string, from: nat): (r: Option<string>)
    ensures r.Some? <==> from <= |s|
    ensures r.Some? && from + 3 <= |s| ==> r.value + s[|s| - 3..] == s[from..]
    ensures r.Some? && from + 3 > |s| ==> r.value == []
  {
    if from > |s| then None
    else if from + 3 <= |s| then Some(s[from..|s| - 3])
    else Some([])
  }

  /** The unzipped bulk file the splitter reads, and the file of NSF
      documents it appends to (which the CSV stage reads back). */
  datatype ExtractNames = ExtractNames(bulk: string, nsfDocuments: string)

  /** `dlfile[0..-4] + "xml"` and `dlfile[3..-4] + writefileprefix + ".xml"`;
      the second raises on a name shorter than three characters. */
  function ExtractNamesOf(dlfile: string, prefix: string): (r: Result<ExtractNames>)
    ensures r.Ok? <==> |dlfile| >= 3
  {
    var bulk := SliceDroppingLastThree(dlfile, 0);
    var stem := SliceDroppingLastThree(dlfile, 3);
    if stem.None? then Err("undefined method `+' for nil")
    else Ok(ExtractNames(bulk.value + "xml", stem.value + prefix + ".xml"))
  }

  /** For an archive `name.zip` the bulk file is `name.xml`, and the NSF
      file is the name without its first three characters, then a dot, the
      prefix and `.xml`. */
  lemma ZipArchiveNames(name: string, prefix: string)
    requires |name| >= 3
    ensures ExtractNamesOf(name + ".zip", prefix)
      == Ok(ExtractNames(name + ".xml", name[3..] + "." + prefix + ".xml"))
  {
    var dlfile := name + ".zip";
    assert dlfile[0..|dlfile| - 3] == name + ".";
    assert dlfile[3..|dlfile| - 3] == name[3..] + ".";
    assert name + "." + "xml" == name + ".xml";
    assert name[3..] + "." + prefix + ".xml" == (name[3..] + ".") + prefix + ".xml";
  }

  // ---------------------------------------------------------------------
  // Separating out the NSF documents (lines 53-97)

  /** A line that opens a new XML document inside the bulk file. */
  predicate IsDeclaration(line: string) {
    Contains(line, "<?xml version=") || Contains(line, "<!DOCTYPE ")
  }

  /** A document is flagged when one of its lines mentions the NSF. */
  predicate Flagged(group: seq<string>) {
    exists k | 0 <= k < |group| :: MentionsNsfLoosely(group[k])
  }

  /** What the first two lines contribute: a declaration among them is
      copied, and `<root>` follows one in the second line. */
  function Header(lines: seq<string>): (r: seq<string>)
    ensures |r| <= 3
    ensures |lines| >= 1 && IsDeclaration(lines[0]) ==> |r| >= 1 && r[0] == lines[0]
    ensures |lines| >= 2 && IsDeclaration(lines[1]) ==> |r| >= 2 && r[|r| - 2..] == [lines[1], "<root>"]
    ensures |lines| >= 2 && !IsDeclaration(lines[0]) && !IsDeclaration(lines[1]) ==> r == []
  {
    (if |lines| >= 1 && IsDeclaration(lines[0]) then [lines[0]] else [])
    + (if |lines| >= 2 && IsDeclaration(lines[1]) then [lines[1], "<root>"] else [])
  }

  /** The documents the bulk file has been cut into after `lines`: the
      closed ones, each ended by a declaration from the third line on, and
      the open one still being gathered. A declaration in the first two
      lines is never part of a document. */
  function Groups(lines: seq<string>): (g: (seq<seq<string>>, seq<string>))
    decreases |lines|
  {
    if lines == [] then ([], [])
    else
      var (closed, open) := Groups(lines[..|lines| - 1]);
      var line := lines[|lines| - 1];
      if !IsDeclaration(line) then (closed, open + [line])
      else if |lines| - 1 < 2 then (closed, open)
      else (closed + [open], [])
  }

  /** The text of each flagged document, in order. */
  function Selected(groups: seq<seq<string>>): (r: seq<string>)
    ensures |r| <= |groups|
  {
    if groups == [] then []
    else (if Flagged(groups[0]) then [Flatten(groups[0])] else []) + Selected(groups[1..])
  }

  lemma {:induction false} SelectedAppend(groups: seq<seq<string>>, g: seq<string>)
    ensures Selected(groups + [g]) == Selected(groups) + (if Flagged(g) then [Flatten(g)] else [])
  {
    if groups == [] {
      assert [g][1..] == [];
    } else {
      assert (groups + [g])[1..] == groups[1..] + [g];
      SelectedAppend(groups[1..], g);
    }
  }

  /** A document is written exactly when it is flagged. */
  lemma {:induction false} SelectedMembers(groups: seq<seq<string>>, text: string)
    ensures text in Selected(groups) <==> exists k | 0 <= k < |groups| :: Flagged(groups[k]) && Flatten(groups[k]) == text
  {
    if groups != [] {
      SelectedMembers(groups[1..], text);
      if text in Selected(groups[1..]) {
        var k :| 0 <= k < |groups[1..]| && Flagged(groups[1..][k]) && Flatten(groups[1..][k]) == text;
        assert groups[k + 1] == groups[1..][k];
      }
      if exists k | 0 <= k < |groups| :: Flagged(groups[k]) && Flatten(groups[k]) == text {
        var k :| 0 <= k < |groups| && Flagged(groups[k]) && Flatten(groups[k]) == text;
        if k > 0 {
          assert groups[1..][k - 1] == groups[k];
        }
      }
    }
  }

  /** Everything the splitter hands to `puts`, in order: the header, each
      flagged closed document, and the closing tag. */
  function SplitOutput(lines: seq<string>): seq<string> {
    Header(lines) + Selected(Groups(lines).0) + ["</root>"]
  }

  /** One more line: a declaration in the first two lines is copied (with
      `<root>` after the second); nothing else adds to the header. */
  lemma HeaderStep(lines: seq<string>, i: nat)
    requires i < |lines|
    ensures Header(lines[..i + 1]) == Header(lines[..i])
      + (if i < 2 && IsDeclaration(lines[i]) then [lines[i]] + (if i == 1 then ["<root>"] else []) else [])
  {
    if i == 0 {
      HeaderOfFirst(lines);
    } else if i == 1 {
      HeaderOfSecond(lines);
    } else {
      HeaderAfterSecond(lines[..i], lines[..i + 1]);
    }
  }

  lemma HeaderOfFirst(lines: seq<string>)
    requires |lines| >= 1
    ensures Header(lines[..1]) == Header(lines[..0]) + (if IsDeclaration(lines[0]) then [lines[0]] + [] else [])
  {
    var one := lines[..1];
    assert lines[..0] == [] && |one| == 1 && one[0] == lines[0];
    assert Header(lines[..0]) == [];
    assert Header(one) == (if IsDeclaration(lines[0]) then [lines[0]] else []) + [];
  }

  lemma HeaderOfSecond(lines: seq<string>)
    requires |lines| >= 2
    ensures Header(lines[..2]) == Header(lines[..1]) + (if IsDeclaration(lines[1]) then [lines[1]] + ["<root>"] else [])
  {
    var one, two := lines[..1], lines[..2];
    assert |one| == 1 && one[0] == lines[0];
    assert |two| == 2 && two[0] == lines[0] && two[1] == lines[1];
    var first := if IsDeclaration(lines[0]) then [lines[0]] else [];
    assert Header(one) == first + [];
    assert Header(two) == first + (if IsDeclaration(lines[1]) then [lines[1], "<root>"] else []);
    assert [lines[1]] + ["<root>"] == [lines[1], "<root>"];
  }

  /** Only the first two lines count. */
  lemma HeaderAfterSecond(prev: seq<string>, next: seq<string>)
    requires |prev| >= 2 && |next| >= 2 && next[0] == prev[0] && next[1] == prev[1]
    ensures Header(next) == Header(prev)
  {
  }

  /** One more line: a line that is not a declaration joins the open
      document; a later declaration closes it. */
  lemma GroupsStep(lines: seq<string>, i: nat)
    requires i < |lines|
    ensures var (closed, open) := Groups(lines[..i]);
      Groups(lines[..i + 1])
        == if !IsDeclaration(lines[i]) then (closed, open + [lines[i]])
           else if i < 2 then (closed, open)
           else (closed + [open], [])
  {
    assert lines[..i + 1][..i] == lines[..i];
    assert lines[..i + 1][i] == lines[i];
  }

  lemma FlaggedSnoc(group: seq<string>, line: string)
    ensures Flagged(group + [line]) <==> Flagged(group) || MentionsNsfLoosely(line)
  {
    assert (group + [line])[|group|] == line;
    assert forall k | 0 <= k < |group| :: (group + [line])[k] == group[k];
  }

  lemma FlattenSnoc(group: seq<string>, line: string)
    ensures Flatten(group + [line]) == Flatten(group) + line
  {
    FlattenAppend(group, [line]);
    assert Flatten([line]) == line + Flatten([line][1..]);
    assert [line][1..] == [];
  }

  /** The variables of the splitting loop: `iter`, what has been written
      so far, and the text and flag of the open document. */
  datatype Splitter = Splitter(iter: nat, written: seq<string>, currdoc: string, flag: bool)

  /** The loop's variables after the first `i` lines: `iter` equals `i` on
      the first two lines and is at least two after them. */
  ghost predicate SplitState(lines: seq<string>, i: nat, st: Splitter) {
    && i <= |lines|
    && (i <= 2 ==> st.iter == i && Groups(lines[..i]).0 == [])
    && (i >= 2 ==> st.iter >= 2)
    && (st.written, st.currdoc, st.flag) == SplitProgress(lines[..i])
  }

  /** What has been written after `seen`, and the text and flag of the
      open document. */
  ghost function SplitProgress(seen: seq<string>): (seq<string>, string, bool) {
    var (closed, open) := Groups(seen);
    (Header(seen) + Selected(closed), Flatten(open), Flagged(open))
  }

  /** A declaration in the first two lines is copied, followed by `<root>`
      in the second. */
  lemma EarlyDeclarationStep(lines: seq<string>, i: nat, st: Splitter, next: Splitter)
    requires SplitState(lines, i, st)
    requires i < |lines| && st.iter < 2 && IsDeclaration(lines[i])
    requires next == st.(iter := st.iter + 1, written := st.written + [lines[i]] + (if st.iter == 1 then ["<root>"] else []))
    ensures SplitState(lines, i + 1, next)
  {
    HeaderStep(lines, i);
    GroupsStep(lines, i);
    var (closed, open) := Groups(lines[..i]);
    assert i < 2 && st.iter == i && closed == [];
    var root := if st.iter == 1 then ["<root>"] else [];
    var extra := [lines[i]] + root;
    assert Groups(lines[..i + 1]) == (closed, open);
    assert Header(lines[..i + 1]) == Header(lines[..i]) + extra;
    assert st.written == Header(lines[..i]);
    ConcatAssoc(st.written, [lines[i]], root);
    assert Selected(closed) == [];
    assert Header(lines[..i + 1]) + Selected(closed) == next.written;
    assert SplitProgress(lines[..i + 1]) == (next.written, next.currdoc, next.flag);
  }

  /** A later declaration writes the open document when it is flagged,
      then starts a new one. */
  lemma LateDeclarationStep(lines: seq<string>, i: nat, st: Splitter, next: Splitter)
    requires SplitState(lines, i, st)
    requires i < |lines| && st.iter >= 2 && IsDeclaration(lines[i])
    requires next == st.(written := st.written + (if st.flag then [st.currdoc] else []), currdoc := "", flag := false)
    ensures SplitState(lines, i + 1, next)
  {
    HeaderStep(lines, i);
    GroupsStep(lines, i);
    var (closed, open) := Groups(lines[..i]);
    assert i >= 2;
    assert Groups(lines[..i + 1]) == (closed + [open], []);
    assert Header(lines[..i + 1]) == Header(lines[..i]);
    SelectedAppend(closed, open);
    var emitted := if st.flag then [st.currdoc] else [];
    ConcatAssoc(Header(lines[..i]), Selected(closed), emitted);
    assert Flatten<char>([]) == "" && !Flagged([]);
    assert SplitProgress(lines[..i + 1]) == (next.written, "", false);
  }

  /** Any other line joins the open document and flags it when the line
      mentions the NSF. */
  lemma BodyLineStep(lines: seq<string>, i: nat, st: Splitter, next: Splitter)
    requires SplitState(lines, i, st)
    requires i < |lines| && !IsDeclaration(lines[i])
    requires next == st.(iter := st.iter + 1, currdoc := st.currdoc + lines[i], flag := st.flag || MentionsNsfLoosely(lines[i]))
    ensures SplitState(lines, i + 1, next)
  {
    HeaderStep(lines, i);
    GroupsStep(lines, i);
    var (closed, open) := Groups(lines[..i]);
    FlattenSnoc(open, lines[i]);
    FlaggedSnoc(open, lines[i]);
    assert SplitProgress(lines[..i + 1]) == (next.written, next.currdoc, next.flag);
  }

  /** Before the first line nothing has been written. */
  lemma SplitStart(lines: seq<string>)
    ensures SplitState(lines, 0, Splitter(0, [], "", false))
  {
    assert lines[..0] == [];
    assert Flatten<char>([]) == "" && !Flagged([]);
  }

  /** After the last line, what has been written is the output without
      its closing tag. */
  lemma SplitDone(lines: seq<string>, st: Splitter)
    requires SplitState(lines, |lines|, st)
    ensures st.written + ["</root>"] == SplitOutput(lines)
  {
    assert lines[..|lines|] == lines;
  }

  /** The splitting loop over the lines of the bulk file. */
  method SplitNsfDocuments(lines: seq<string>) returns (written: seq<string>)
    ensures written == SplitOutput(lines)
  {
    var flag := false;
    var currdoc: string := "";
    var iter := 0;
    written := [];
    var i := 0;
    SplitStart(lines);
    while i < |lines|
      invariant SplitState(lines, i, Splitter(iter, written, currdoc, flag))
    {
      ghost var st := Splitter(iter, written, currdoc, flag);
      var data := lines[i];
      if IsDeclaration(data) && iter < 2 {
        written := written + [data] + (if iter == 1 then ["<root>"] else []);
        iter := iter + 1;
        EarlyDeclarationStep(lines, i, st, Splitter(iter, written, currdoc, flag));
      } else if IsDeclaration(data) {
        written := written + (if flag then [currdoc] else []);
        flag := false;
        currdoc := "";
        LateDeclarationStep(lines, i, st, Splitter(iter, written, currdoc, flag));
      } else {
        currdoc := currdoc + data;
        flag := flag || MentionsNsfLoosely(data);
        iter := iter + 1;
        BodyLineStep(lines, i, st, Splitter(iter, written, currdoc, flag));
      }
      i := i + 1;
    }
    SplitDone(lines, Splitter(iter, written, currdoc, flag));
    written := written + ["</root>"];
  }

  /** Lines after the last declaration change nothing that is written: the
      final document is never emitted, flagged or not. */
  lemma FinalDocumentDropped(lines: seq<string>, rest: seq<string>)
    requires |lines| >= 2
    requires forall k | 0 <= k < |rest| :: !IsDeclaration(rest[k])
    ensures SplitOutput(lines + rest) == SplitOutput(lines)
  {
    ClosedGroupsUnchanged(lines, rest);
    assert (lines + rest)[..2] == lines[..2];
  }

  lemma {:induction false} ClosedGroupsUnchanged(lines: seq<string>, rest: seq<string>)
    requires forall k | 0 <= k < |rest| :: !IsDeclaration(rest[k])
    ensures Groups(lines + rest).0 == Groups(lines).0
    decreases |rest|
  {
    if rest != [] {
      var init := rest[..|rest| - 1];
      assert (lines + rest)[..|lines + rest| - 1] == lines + init;
      assert (lines + rest)[|lines + rest| - 1] == rest[|rest| - 1];
      ClosedGroupsUnchanged(lines, init);
    } else {
      assert lines + rest == lines;
    }
  }

  /** The lines the documents are made of: every line that is not a
      declaration, in order. */
  function BodyLines(lines: seq<string>): (r: seq<string>)
    ensures forall k | 0 <= k < |r| :: !IsDeclaration(r[k])
    decreases |lines|
  {
    if lines == [] then []
    else if IsDeclaration(lines[|lines| - 1]) then BodyLines(lines[..|lines| - 1])
    else BodyLines(lines[..|lines| - 1]) + [lines[|lines| - 1]]
  }

  /** The documents, closed and open, partition the non-declaration lines:
      each such line lands in exactly one document, in order. */
  lemma {:induction false} GroupsPartitionBody(lines: seq<string>)
    ensures Flatten(Groups(lines).0) + Groups(lines).1 == BodyLines(lines)
    decreases |lines|
  {
    if lines != [] {
      var init := lines[..|lines| - 1];
      var line := lines[|lines| - 1];
      GroupsPartitionBody(init);
      var (closed, open) := Groups(init);
      if IsDeclaration(line) && |lines| - 1 >= 2 {
        FlattenAppend(closed, [open]);
        assert Flatten([open]) == open + Flatten([open][1..]);
        assert [open][1..] == [];
      }
    }
  }

  /** No document holds a declaration line. */
  lemma NoDeclarationInDocuments(lines: seq<string>)
    ensures forall k | 0 <= k < |Groups(lines).1| :: !IsDeclaration(Groups(lines).1[k])
    ensures forall j | 0 <= j < |Groups(lines).0| ::
      forall k | 0 <= k < |Groups(lines).0[j]| :: !IsDeclaration(Groups(lines).0[j][k])
  {
    var (closed, open) := Groups(lines);
    GroupsPartitionBody(lines);
    var body := BodyLines(lines);
    forall k | 0 <= k < |open| ensures !IsDeclaration(open[k]) {
      assert open[k] == body[|Flatten(closed)| + k];
    }
    forall j, k | 0 <= j < |closed| && 0 <= k < |closed[j]| ensures !IsDeclaration(closed[j][k]) {
      assert closed == closed[..j] + closed[j..];
      FlattenAppend(closed[..j], closed[j..]);
      assert closed[j..] == [closed[j]] + closed[j + 1..];
      FlattenAppend([closed[j]], closed[j + 1..]);
      assert Flatten([closed[j]]) == closed[j] + Flatten([closed[j]][1..]);
      assert [closed[j]][1..] == [];
      assert closed[j][k] == Flatten(closed)[|Flatten(closed[..j])| + k];
      assert Flatten(closed)[|Flatten(closed[..j])| + k] == body[|Flatten(closed[..j])| + k];
    }
  }

  // ---------------------------------------------------------------------
  // Converting the NSF documents to CSV (lines 99-388)

  predicate IsSpace(c: char) {
    c == ' ' || c == '\t' || c == '\n' || c == '\U{0B}' || c == '\U{0C}' || c == '\r'
  }

  function SkipSpaces(s: string): (r: string)
    ensures |r| <= |s| && r == s[|s| - |r|..]
    ensures r != [] ==> !IsSpace(r[0])
  {
    if s != [] && IsSpace(s[0]) then SkipSpaces(s[1..]) else s
  }

  /** `String#to_i`: leading whitespace, an optional sign, then the digits
      that follow; 0 when there are none. */
  function ToI(s: string): int {
    var t := SkipSpaces(s);
    if t != [] && t[0] == '-' then var v: int := DigitsValue(DigitPrefix(t[1..])); -v
    else if t != [] && t[0] == '+' then DigitsValue(DigitPrefix(t[1..]))
    else DigitsValue(DigitPrefix(t))
  }

  /** A year written out in digits reads back as that year. */
  lemma ToIOfDigits(n: nat)
    ensures ToI(NatToString(n)) == n
  {
    var s := NatToString(n);
    assert !IsSpace(s[0]) && s[0] != '-' && s[0] != '+';
    assert SkipSpaces(s) == s;
    DigitPrefixOf(s, "");
    assert s + "" == s;
  }

  /** How a CSV column is computed from one document. */
  datatype Column =
    | Path(path: string)
    | FirstPath(path: string)
    | Inventors
    | Assignees
    | CrossRef
    | GovInt
    | PctNumber

  /** What tells the application and grant conversions apart: the path of
      the documents, the two marker pairs, and the FIELDS row with the
      column computed under each name. */
  datatype Layout = Layout(nodeTag: string, govLead: string, govTail: string, xrefLead: string, xrefTail: string,
                           fields: seq<string>, columns: seq<Column>)

  const CrossRefSiblingPath := CrossRefHeadingPath + "/following-sibling::*[1]/text()"
  const PctCountryPath := ".//pct-or-regional-filing-data/document-id/country/text()"

  const ApplicationLayout := Layout(
    ".//us-patent-application", AppLead, AppTail, AppXrefLead, AppXrefTail,
    ["appno", "pubdate", "pubnum", "title", "abstract", "invs", "assignee", "xref", "filedate", "govint",
     "parentcase", "childcase", "date371", "pctpubno"],
    [Path(AppNoPath), Path(PubDatePath), Path(PubNumPath), Path(TitlePath), Path(AbstractPath), Inventors,
     Assignees, CrossRef, Path(FileDatePath), GovInt, FirstPath(ParentCasePath),
     FirstPath(ChildCasePath), Path(Date371Path), PctNumber])

  const GrantLayout := Layout(
    ".//us-patent-grant", GrantLead, GrantTail, GrantXrefLead, GrantXrefTail,
    ["patentno", "patpubdate", "title", "appno", "priorpub", "priorpubdate", "abstract", "invs", "assignee",
     "xref", "filedate", "govint", "parentcase", "childcase", "date371", "pctpubno"],
    [Path(PubDocNumberPath), Path(PubDatePath), Path(TitlePath), Path(AppNoPath), Path(PriorPubPath),
     Path(PriorPubDatePath), Path(AbstractPath), Inventors, Assignees, CrossRef, Path(FileDatePath),
     GovInt, FirstPath(ParentCasePath), FirstPath(ChildCasePath), Path(Date371Path), PctNumber])

  /** Inventors are read from the applicants before 2007 and from the
      inventors' address books from 2007 on. */
  function InventorPath(year: int): (p: string)
    ensures p == ApplicantPath <==> year < 2007
  {
    if year < 2007 then ApplicantPath else InventorAddressPath
  }

  /** The value of one column for a document whose government-interest text
      is `govint`. */
  function ColumnValue(col: Column, layout: Layout, year: int, node: Node, paragraphText: string -> string, govint: string)
    : string
  {
    match col
    case Path(path) => TextOf(node.texts(path))
    case FirstPath(path) => FirstText(node.texts(path))
    case Inventors => BracketJoin(PersonNames(node.elements(InventorPath(year))))
    case Assignees => BracketJoin(OrgNames(node.elements(AssigneePath)))
    case CrossRef =>
      (match CaptureBetween(node.markup, layout.xrefLead, layout.xrefTail)
       case Some(captured) => paragraphText(captured)
       case None => TextOf(node.texts(CrossRefSiblingPath)))
    case GovInt => govint
    case PctNumber =>
      if TextOf(node.texts(PctCountryPath)) == "WO" then TextOf(node.texts(PctPubNoPath)) else ""
  }

  /** The values of the columns, in order. */
  function ColumnValues(cols: seq<Column>, layout: Layout, year: int, node: Node, paragraphText: string -> string,
                        govint: string): (r: seq<string>)
    ensures |r| == |cols|
    ensures forall j | 0 <= j < |cols| :: r[j] == ColumnValue(cols[j], layout, year, node, paragraphText, govint)
  {
    if cols == [] then []
    else
      [ColumnValue(cols[0], layout, year, node, paragraphText, govint)]
      + ColumnValues(cols[1..], layout, year, node, paragraphText, govint)
  }

  /** The row of one document, or nothing when the document is skipped: it
      lacks the government-interest marker pair, or the text between them
      does not mention the NSF. */
  function Row(layout: Layout, year: int, node: Node, paragraphText: string -> string): (r: Option<seq<string>>)
    ensures r.Some? ==> |r.value| == |layout.columns|
  {
    match CaptureBetween(node.markup, layout.govLead, layout.govTail)
    case None => None
    case Some(captured) =>
      var govint := paragraphText(captured);
      if !MentionsNsfLoosely(govint) then None
      else Some(ColumnValues(layout.columns, layout, year, node, paragraphText, govint))
  }

  /** A document is skipped exactly when it lacks the government-interest
      marker pair or the text between them does not mention the NSF; the
      government interest column of its row holds that text. */
  lemma RowSkipsUnlessNsf(layout: Layout, year: int, node: Node, paragraphText: string -> string)
    ensures var r := Row(layout, year, node, paragraphText);
      && (r.Some? <==>
            && HasMarkerPair(node.markup, layout.govLead, layout.govTail)
            && MentionsNsfLoosely(paragraphText(CaptureBetween(node.markup, layout.govLead, layout.govTail).value)))
      && (r.Some? ==> forall k | 0 <= k < |layout.columns| && layout.columns[k] == GovInt :: MentionsNsfLoosely(r.value[k]))
  {
    match CaptureBetween(node.markup, layout.govLead, layout.govTail)
    case None =>
    case Some(captured) =>
      var govint := paragraphText(captured);
      if MentionsNsfLoosely(govint) {
        var values := ColumnValues(layout.columns, layout, year, node, paragraphText, govint);
        assert Row(layout, year, node, paragraphText) == Some(values);
        forall k | 0 <= k < |layout.columns| && layout.columns[k] == GovInt ensures MentionsNsfLoosely(values[k]) {
          assert values[k] == ColumnValue(GovInt, layout, year, node, paragraphText, govint);
        }
      }
  }

  /** The values `f` gives for the items it does not skip, in order. */
  function Kept<N, T>(items: seq<N>, f: N -> Option<T>): (r: seq<T>)
    ensures |r| <= |items|
    decreases |items|
  {
    if items == [] then []
    else
      var init := Kept(items[..|items| - 1], f);
      match f(items[|items| - 1])
      case None => init
      case Some(v) => init + [v]
  }

  /** Keeping the values from the back agrees with `FilterMap`, which
      keeps them from the front: the values come in item order. */
  lemma {:induction false} KeptIsFilterMap<N, T>(items: seq<N>, f: N -> Option<T>)
    ensures Kept(items, f) == FilterMap(items, f)
    decreases |items|
  {
    if items != [] {
      var init, last := items[..|items| - 1], items[|items| - 1];
      KeptIsFilterMap(init, f);
      assert init + [last] == items;
      FilterMapSnoc(init, last, f);
    }
  }

  /** A value is kept exactly when some item gives it. */
  lemma {:induction false} KeptMembers<N, T>(items: seq<N>, f: N -> Option<T>, v: T)
    ensures v in Kept(items, f) <==> exists k | 0 <= k < |items| :: f(items[k]) == Some(v)
    decreases |items|
  {
    if items != [] {
      var init := items[..|items| - 1];
      KeptMembers(init, f, v);
      if exists k | 0 <= k < |init| :: f(init[k]) == Some(v) {
        var k :| 0 <= k < |init| && f(init[k]) == Some(v);
        assert items[k] == init[k];
      }
      if exists k | 0 <= k < |items| :: f(items[k]) == Some(v) {
        var k :| 0 <= k < |items| && f(items[k]) == Some(v);
        if k < |init| {
          assert init[k] == items[k];
        }
      }
    }
  }

  /** The rows of the documents that are not skipped, in document order. */
  function Rows(layout: Layout, year: int, nodes: seq<Node>, paragraphText: string -> string): (rows: seq<seq<string>>)
    ensures |rows| <= |nodes|
  {
    Kept(nodes, node => Row(layout, year, node, paragraphText))
  }

  /** One row per document that is not skipped, in document order. */
  lemma RowsInOrder(layout: Layout, year: int, nodes: seq<Node>, paragraphText: string -> string)
    ensures var written := Filter(nodes, node => Row(layout, year, node, paragraphText).Some?);
      && |Rows(layout, year, nodes, paragraphText)| == |written|
      && forall k | 0 <= k < |written| ::
        Row(layout, year, written[k], paragraphText) == Some(Rows(layout, year, nodes, paragraphText)[k])
  {
    KeptIsFilterMap(nodes, node => Row(layout, year, node, paragraphText));
    FilterMapInOrder(nodes, node => Row(layout, year, node, paragraphText), node => Row(layout, year, node, paragraphText).Some?);
  }

  /** A row is written for a document exactly when the document is not
      skipped. */
  lemma RowsMembers(layout: Layout, year: int, nodes: seq<Node>, paragraphText: string -> string, row: seq<string>)
    ensures row in Rows(layout, year, nodes, paragraphText) <==>
      exists k | 0 <= k < |nodes| :: Row(layout, year, nodes[k], paragraphText) == Some(row)
  {
    KeptMembers(nodes, node => Row(layout, year, node, paragraphText), row);
  }

  /** Every written row has one value per column, and its government
      interest column mentions the NSF. */
  lemma RowsAreNsfDocuments(layout: Layout, year: int, nodes: seq<Node>, paragraphText: string -> string,
                            row: seq<string>, k: nat)
    requires row in Rows(layout, year, nodes, paragraphText)
    requires k < |layout.columns| && layout.columns[k] == GovInt
    ensures |row| == |layout.columns| && MentionsNsfLoosely(row[k])
  {
    RowsMembers(layout, year, nodes, paragraphText, row);
    var n :| 0 <= n < |nodes| && Row(layout, year, nodes[n], paragraphText) == Some(row);
    RowSkipsUnlessNsf(layout, year, nodes[n], paragraphText);
  }

  /** Each layout names every column it computes, with the government
      interest under `govint`. */
  lemma LayoutsAgree()
    ensures |ApplicationLayout.fields| == |ApplicationLayout.columns| == 14
    ensures |GrantLayout.fields| == |GrantLayout.columns| == 16
    ensures ApplicationLayout.fields[9] == "govint" && ApplicationLayout.columns[9] == GovInt
    ensures GrantLayout.fields[11] == "govint" && GrantLayout.columns[11] == GovInt
  {
  }

  /** The PCT number is written only for a document whose PCT country is
      exactly `WO`. */
  lemma PctNumberNeedsWO(layout: Layout, year: int, node: Node, paragraphText: string -> string, govint: string)
    ensures var v := ColumnValue(PctNumber, layout, year, node, paragraphText, govint);
      && (TextOf(node.texts(PctCountryPath)) == "WO" ==> v == TextOf(node.texts(PctPubNoPath)))
      && (TextOf(node.texts(PctCountryPath)) != "WO" ==> v == "")
  {
  }

  /** The inventor column reads back as the names of the year's inventors,
      in document order, when no name holds a closing bracket. */
  lemma InventorsReadBack(layout: Layout, year: int, node: Node, paragraphText: string -> string, govint: string)
    requires forall i | 0 <= i < |node.elements(InventorPath(year))| ::
      Excludes(PersonName(node.elements(InventorPath(year))[i]), ']')
    ensures Unbracket(ColumnValue(Inventors, layout, year, node, paragraphText, govint))
      == Some(PersonNames(node.elements(InventorPath(year))))
  {
    var names := PersonNames(node.elements(InventorPath(year)));
    UnbracketBracketJoin(names);
  }

  /** `invs_loop = invs_loop + "[" + first + " " + last + "]"` over the
      inventors. */
  method AccumulateInventors(es: seq<Element>) returns (acc: string)
    ensures acc == BracketJoin(PersonNames(es))
  {
    acc := "";
    for k := 0 to |es|
      invariant acc == BracketJoin(PersonNames(es[..k]))
    {
      var name := TextOf(es[k].texts(FirstNamePath)) + " " + TextOf(es[k].texts(LastNamePath));
      assert PersonNames(es[..k + 1]) == PersonNames(es[..k]) + [name];
      BracketJoinSnoc(PersonNames(es[..k]), name);
      acc := acc + "[" + name + "]";
    }
    assert es[..|es|] == es;
  }

  /** `assignee_loop = assignee_loop + "[" + orgname + "]"` over the
      assignees. */
  method AccumulateAssignees(es: seq<Element>) returns (acc: string)
    ensures acc == BracketJoin(OrgNames(es))
  {
    acc := "";
    for k := 0 to |es|
      invariant acc == BracketJoin(OrgNames(es[..k]))
    {
      var name := TextOf(es[k].texts(OrgNamePath));
      assert OrgNames(es[..k + 1]) == OrgNames(es[..k]) + [name];
      BracketJoinSnoc(OrgNames(es[..k]), name);
      acc := acc + "[" + name + "]";
    }
    assert es[..|es|] == es;
  }

  /** The per-document body of the conversion loop: skip the document, or
      build its row one column at a time. */
  method BuildRow(layout: Layout, year: int, node: Node, paragraphText: string -> string)
    returns (row: Option<seq<string>>)
    ensures row == Row(layout, year, node, paragraphText)
  {
    var captured := CaptureBetween(node.markup, layout.govLead, layout.govTail);
    if captured.None? {
      return None;
    }
    var govint := paragraphText(captured.value);
    if !MentionsNsfLoosely(govint) {
      return None;
    }
    var values := BuildColumns(layout, year, node, paragraphText, govint);
    return Some(values);
  }

  /** `patentapps << appno`, `patentapps << pubdate`, ...: the row built one
      column at a time, the name columns by their accumulation loops. */
  method BuildColumns(layout: Layout, year: int, node: Node, paragraphText: string -> string, govint: string)
    returns (values: seq<string>)
    ensures values == ColumnValues(layout.columns, layout, year, node, paragraphText, govint)
  {
    values := [];
    for k := 0 to |layout.columns|
      invariant |values| == k
      invariant forall j | 0 <= j < k :: values[j] == ColumnValue(layout.columns[j], layout, year, node, paragraphText, govint)
    {
      var v: string;
      match layout.columns[k] {
        case Inventors =>
          v := AccumulateInventors(node.elements(InventorPath(year)));
        case Assignees =>
          v := AccumulateAssignees(node.elements(AssigneePath));
        case _ =>
          v := ColumnValue(layout.columns[k], layout, year, node, paragraphText, govint);
      }
      values := values + [v];
    }
  }

  /** `doc.xpath(...).each do |papp| ... end` */
  method ConvertNodes(layout: Layout, year: int, nodes: seq<Node>, paragraphText: string -> string)
    returns (rows: seq<seq<string>>)
    ensures rows == Rows(layout, year, nodes, paragraphText)
  {
    rows := [];
    for i := 0 to |nodes|
      invariant rows == Rows(layout, year, nodes[..i], paragraphText)
    {
      assert nodes[..i + 1][..i] == nodes[..i];
      assert nodes[..i + 1][i] == nodes[i];
      var row := BuildRow(layout, year, nodes[i], paragraphText);
      if row.Some? {
        rows := rows + [row.value];
      }
    }
    assert nodes[..|nodes|] == nodes;
  }

  /** The CSV file the stage writes and its rows, header first. */
  datatype CsvOutput = CsvOutput(filename: string, table: seq<seq<string>>)

  function LayoutOf(kind: string): Layout {
    if kind == "a" then ApplicationLayout else GrantLayout
  }

  /** The CSV stage once the type has chosen a layout and a prefix: years
      2002 to 2004 reach the undefined `foo`; a file name too short to
      slice raises; years other than 2012 to 2014 reach `csv << FIELDS`
      with FIELDS never assigned; 2012 to 2014 give the header and a row
      per NSF document. */
  function Conversion(layout: Layout, prefix: string, year: int, dlfile: string, doc: Document,
                      paragraphText: string -> string): (r: Result<CsvOutput>)
    ensures r.Ok? <==> 2012 <= year <= 2014 && |dlfile| >= 3
    ensures r.Ok? ==>
      && |r.value.table| >= 1 && r.value.table[0] == layout.fields
      && |r.value.table| <= |doc.nodes(layout.nodeTag)| + 1
      && r.value.table[1..] == Rows(layout, year, doc.nodes(layout.nodeTag), paragraphText)
  {
    if 2002 <= year <= 2004 then Err("undefined local variable or method `foo' for main:Object")
    else
      var stem := SliceDroppingLastThree(dlfile, 3);
      if stem.None? then Err("undefined method `+' for nil:NilClass")
      else if !(2012 <= year <= 2014) then Err("uninitialized constant FIELDS")
      else Ok(CsvOutput(stem.value + prefix + ".csv", [layout.fields] + Rows(layout, year, doc.nodes(layout.nodeTag), paragraphText)))
  }

  /** The CSV stage: nothing for a type other than `a` or `p`; otherwise
      the conversion with the type's layout and prefix, gated by the year
      read from the third argument. */
  function CsvStage(kind: string, fileyear: string, dlfile: string, doc: Document, paragraphText: string -> string)
    : (r: Result<Option<CsvOutput>>)
    ensures kind != "a" && kind != "p" ==> r == Ok(None)
    ensures (kind == "a" || kind == "p") ==> (r.Ok? <==> 2012 <= ToI(fileyear) <= 2014 && |dlfile| >= 3)
    ensures r.Ok? && r.value.Some? ==> |r.value.value.table| >= 1 && r.value.value.table[0] == LayoutOf(kind).fields
    ensures r.Ok? && r.value.Some? ==>
      r.value.value.table[1..] == Rows(LayoutOf(kind), ToI(fileyear), doc.nodes(LayoutOf(kind).nodeTag), paragraphText)
  {
    if kind != "a" && kind != "p" then Ok(None)
    else
      var out :- Conversion(LayoutOf(kind), DownloadTarget(kind, fileyear, dlfile).prefix, ToI(fileyear), dlfile, doc,
                            paragraphText);
      Ok(Some(out))
  }

  /** The conversion as the script runs it. */
  method RunConversion(layout: Layout, prefix: string, year: int, dlfile: string, doc: Document,
                       paragraphText: string -> string) returns (r: Result<CsvOutput>)
    ensures r == Conversion(layout, prefix, year, dlfile, doc, paragraphText)
  {
    if 2002 <= year <= 2004 {
      return Err("undefined local variable or method `foo' for main:Object");
    }
    var stem := SliceDroppingLastThree(dlfile, 3);
    if stem.None? {
      return Err("undefined method `+' for nil:NilClass");
    }
    if !(2012 <= year <= 2014) {
      return Err("uninitialized constant FIELDS");
    }
    var outputfile := stem.value + prefix + ".csv";
    var rows := ConvertNodes(layout, year, doc.nodes(layout.nodeTag), paragraphText);
    return Ok(CsvOutput(outputfile, [layout.fields] + rows));
  }

  /** The CSV stage as the script runs it. */
  method RunCsvStage(kind: string, fileyear: string, dlfile: string, doc: Document, paragraphText: string -> string)
    returns (r: Result<Option<CsvOutput>>)
    ensures r == CsvStage(kind, fileyear, dlfile, doc, paragraphText)
  {
    if kind != "a" && kind != "p" {
      return Ok(None);
    }
    var out := RunConversion(LayoutOf(kind), DownloadTarget(kind, fileyear, dlfile).prefix, ToI(fileyear), dlfile, doc,
                             paragraphText);
    if out.Err? {
      return Err(out.msg);
    }
    return Ok(Some(out.value));
  }
}
