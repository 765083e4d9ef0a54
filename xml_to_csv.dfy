/** miscFiles/PatentXMLtoCSV.rb: repairs a concatenated application file
    into one XML document under a `<root>` element, then writes a CSV row of
    twelve fields for every application that carries a federal research
    statement. */
module PatentXmlToCsv {
  import opened Outcomes
  import opened Text
  import opened GovInterest
  import opened XmlModel
  import opened Extractors
  import opened ReedDataE2e

  // ---------------------------------------------------------------------
  // The output file (line 35)

  /** `arg[0..12] + "s.csv"`: the first thirteen characters of the
      argument, or all of it when shorter, then `s.csv`. */
  function OutputFilename(arg: string): (r: string)
    ensures |arg| >= 13 ==> r == arg[..13] + "s.csv"
    ensures |arg| < 13 ==> r == arg + "s.csv"
  {
    (if |arg| >= 13 then arg[..13] else arg) + "s.csv"
  }

  // ---------------------------------------------------------------------
  // Repairing the concatenated file (lines 39-55)

  /** A line the repair drops after the first two. */
  predicate IsDeclarationLine(line: string) {
    Contains(line, "<?xml version=") || Contains(line, "<!DOCTYPE")
  }

  /** The lines that are not declarations, in order. */
  function Undeclared(lines: seq<string>): seq<string>
    decreases |lines|
  {
    if lines == [] then []
    else
      var init := Undeclared(lines[..|lines| - 1]);
      if IsDeclarationLine(lines[|lines| - 1]) then init else init + [lines[|lines| - 1]]
  }

  /** A line survives exactly when it is in the input and is not a
      declaration, and survivors keep their order. */
  lemma {:induction false} UndeclaredMembers(lines: seq<string>)
    ensures forall x :: x in Undeclared(lines) <==> x in lines && !IsDeclarationLine(x)
    ensures forall i, j | 0 <= i < j < |lines| && !IsDeclarationLine(lines[i]) && !IsDeclarationLine(lines[j]) ::
      exists a, b | 0 <= a < b < |Undeclared(lines)| :: Undeclared(lines)[a] == lines[i] && Undeclared(lines)[b] == lines[j]
    decreases |lines|
  {
    if lines != [] {
      var init := lines[..|lines| - 1];
      var last := lines[|lines| - 1];
      UndeclaredMembers(init);
      assert lines == init + [last];
      forall i, j | 0 <= i < j < |lines| && !IsDeclarationLine(lines[i]) && !IsDeclarationLine(lines[j])
        ensures exists a, b | 0 <= a < b < |Undeclared(lines)| :: Undeclared(lines)[a] == lines[i] && Undeclared(lines)[b] == lines[j]
      {
        assert lines[i] == init[i];
        if j < |init| {
          assert lines[j] == init[j];
          var a, b :| 0 <= a < b < |Undeclared(init)| && Undeclared(init)[a] == init[i] && Undeclared(init)[b] == init[j];
          assert Undeclared(lines)[a] == lines[i] && Undeclared(lines)[b] == lines[j];
        } else {
          assert init[i] in Undeclared(init);
          var a :| 0 <= a < |Undeclared(init)| && Undeclared(init)[a] == init[i];
          var b := |Undeclared(init)|;
          assert Undeclared(lines)[a] == lines[i] && Undeclared(lines)[b] == lines[j];
        }
      }
    }
  }

  /** The repaired document: the first line as it is, `<root>` in place of
      the second line whatever it holds, then every later line that is not
      a declaration; no closing `</root>` follows. */
  function FixedDocument(lines: seq<string>): string {
    if lines == [] then ""
    else if |lines| == 1 then lines[0]
    else lines[0] + "<root>" + Flatten(Undeclared(lines[2..]))
  }

  /** The repaired document opens with the first line verbatim, and
      `<root>` follows it whenever there is a second line. */
  lemma FixedDocumentHead(lines: seq<string>)
    ensures var r := FixedDocument(lines);
      && (lines != [] ==> |r| >= |lines[0]| && r[..|lines[0]|] == lines[0])
      && (|lines| >= 2 ==> |r| >= |lines[0]| + 6 && r[|lines[0]|..|lines[0]| + 6] == "<root>")
  {
    if |lines| >= 2 {
      var r := FixedDocument(lines);
      assert r == lines[0] + "<root>" + Flatten(Undeclared(lines[2..]));
      assert r[|lines[0]|..|lines[0]| + 6] == "<root>";
    }
  }

  /** `f.each_with_index do |line, j| ... end` accumulating `xmldocstr`. */
  method FixUp(lines: seq<string>) returns (xmldocstr: string)
    ensures xmldocstr == FixedDocument(lines)
  {
    xmldocstr := "";
    for j := 0 to |lines|
      invariant xmldocstr == FixedDocument(lines[..j])
    {
      var line := lines[j];
      if j == 0 {
        xmldocstr := xmldocstr + line;
        assert lines[..1] == [line];
        continue;
      } else if j == 1 {
        xmldocstr := xmldocstr + "<root>";
        assert lines[..2][2..] == [];
        continue;
      }
      FixedDocumentStep(lines, j);
      if IsDeclarationLine(line) {
        continue;
      } else {
        xmldocstr := xmldocstr + line;
      }
    }
    assert lines[..|lines|] == lines;
  }

  /** What a line after the second adds to the repaired document. */
  lemma FixedDocumentStep(lines: seq<string>, j: nat)
    requires 2 <= j < |lines|
    ensures FixedDocument(lines[..j + 1])
      == FixedDocument(lines[..j]) + (if IsDeclarationLine(lines[j]) then "" else lines[j])
  {
    var rest := lines[2..j];
    var line := lines[j];
    assert lines[..j + 1][2..] == rest + [line];
    assert lines[..j][2..] == rest;
    UndeclaredSnoc(rest, line);
  }

  lemma UndeclaredSnoc(rest: seq<string>, line: string)
    ensures Flatten(Undeclared(rest + [line])) == Flatten(Undeclared(rest)) + (if IsDeclarationLine(line) then "" else line)
  {
    assert (rest + [line])[..|rest|] == rest;
    if !IsDeclarationLine(line) {
      FlattenAppend(Undeclared(rest), [line]);
      assert Flatten([line]) == line + Flatten([line][1..]) && [line][1..] == [];
    }
  }

  /** No line after the second that holds a declaration reaches the
      repaired document as a line of its own, and every other one does. */
  lemma FixedDocumentLines(lines: seq<string>)
    requires |lines| >= 2
    ensures FixedDocument(lines) == lines[0] + "<root>" + Flatten(Undeclared(lines[2..]))
    ensures forall x :: x in Undeclared(lines[2..]) <==> x in lines[2..] && !IsDeclarationLine(x)
  {
    UndeclaredMembers(lines[2..]);
  }

  // ---------------------------------------------------------------------
  // Rows (lines 9-33 and 62-133)

  const Fields := ["pubdate", "title", "appno", "abstract", "invs", "xref", "filedate", "govint", "relpatdocs",
                   "parentcase", "date371", "pctpubno"]

  /** The columns in FIELDS order: the related publication is read from its
      document number, and the whole parent case text is kept. */
  const Columns := [Path(PubDatePath), Path(TitlePath), Path(AppNoPath), Path(AbstractPath), Inventors, CrossRef,
                    Path(FileDatePath), GovInt, Path(PriorPubPath), Path(ParentCasePath), Path(Date371Path),
                    PctNumber]

  /** The script reads inventors from the applicants, as the CSV stage of
      reeddatae2e.rb does for files before 2007; this year selects that. */
  const ApplicantYear := 2006

  const ApplicationsLayout := Layout(".//us-patent-application", AppLead, AppTail, AppXrefLead, AppXrefTail,
                                     Fields, Columns)

  /** The row of one application, or nothing when it has no federal
      research statement marker pair. */
  function Row(node: Node, paragraphText: string -> string): (r: Option<seq<string>>)
    ensures r.Some? <==> HasMarkerPair(node.markup, AppLead, AppTail)
    ensures r.Some? ==> |r.value| == |Fields| == 12
  {
    match CaptureBetween(node.markup, AppLead, AppTail)
    case None => None
    case Some(captured) =>
      Some(ColumnValues(Columns, ApplicationsLayout, ApplicantYear, node, paragraphText, paragraphText(captured)))
  }

  /** What each column of a row holds: the inventors from the applicants
      as `[first last]` items, the government interest as the paragraph
      text between the markers, the parent case as all of its text, and the
      PCT number only for a `WO` filing. */
  lemma RowColumns(node: Node, paragraphText: string -> string)
    requires HasMarkerPair(node.markup, AppLead, AppTail)
    ensures var row := Row(node, paragraphText).value;
      && row[0] == TextOf(node.texts(PubDatePath))
      && row[2] == TextOf(node.texts(AppNoPath))
      && row[4] == BracketJoin(PersonNames(node.elements(ApplicantPath)))
      && row[7] == paragraphText(CaptureBetween(node.markup, AppLead, AppTail).value)
      && row[8] == TextOf(node.texts(PriorPubPath))
      && row[9] == TextOf(node.texts(ParentCasePath))
      && (TextOf(node.texts(PctCountryPath)) == "WO" ==> row[11] == TextOf(node.texts(PctPubNoPath)))
      && (TextOf(node.texts(PctCountryPath)) != "WO" ==> row[11] == "")
  {
    ColumnsAt();
  }

  lemma ColumnsAt()
    ensures |Columns| == 12
    ensures Columns[0] == Path(PubDatePath) && Columns[2] == Path(AppNoPath) && Columns[4] == Inventors
    ensures Columns[7] == GovInt && Columns[8] == Path(PriorPubPath) && Columns[9] == Path(ParentCasePath)
    ensures Columns[11] == PctNumber
    ensures InventorPath(ApplicantYear) == ApplicantPath
  {
  }

  /** The rows of the applications that are not skipped, in order. */
  function Rows(nodes: seq<Node>, paragraphText: string -> string): (rows: seq<seq<string>>)
    ensures |rows| <= |nodes|
  {
    Kept(nodes, node => Row(node, paragraphText))
  }

  /** One row per application that gives one, in document order. */
  lemma RowsInOrder(nodes: seq<Node>, paragraphText: string -> string)
    ensures var written := Filter(nodes, node => Row(node, paragraphText).Some?);
      && |Rows(nodes, paragraphText)| == |written|
      && forall k | 0 <= k < |written| :: Row(written[k], paragraphText) == Some(Rows(nodes, paragraphText)[k])
  {
    KeptIsFilterMap(nodes, node => Row(node, paragraphText));
    FilterMapInOrder(nodes, node => Row(node, paragraphText), node => Row(node, paragraphText).Some?);
  }

  /** A row is written exactly for the applications with the marker pair,
      and every row has the twelve fields. */
  lemma RowsMembers(nodes: seq<Node>, paragraphText: string -> string, row: seq<string>)
    ensures row in Rows(nodes, paragraphText) <==>
      exists k | 0 <= k < |nodes| :: HasMarkerPair(nodes[k].markup, AppLead, AppTail) && Row(nodes[k], paragraphText) == Some(row)
    ensures row in Rows(nodes, paragraphText) ==> |row| == 12
  {
    KeptMembers(nodes, node => Row(node, paragraphText), row);
  }

  /** `doc.xpath('.//us-patent-application').each do |papp| ... end` */
  method ConvertApplications(nodes: seq<Node>, paragraphText: string -> string) returns (rows: seq<seq<string>>)
    ensures rows == Rows(nodes, paragraphText)
  {
    rows := [];
    for i := 0 to |nodes|
      invariant rows == Rows(nodes[..i], paragraphText)
    {
      assert nodes[..i + 1][..i] == nodes[..i];
      assert nodes[..i + 1][i] == nodes[i];
      var captured := CaptureBetween(nodes[i].markup, AppLead, AppTail);
      if captured.None? {
        continue;
      }
      var govint := paragraphText(captured.value);
      var values := BuildColumns(ApplicationsLayout, ApplicantYear, nodes[i], paragraphText, govint);
      rows := rows + [values];
    }
    assert nodes[..|nodes|] == nodes;
  }

  // ---------------------------------------------------------------------
  // The script

  /** The output file and its rows: the header, then a row per application
      of the repaired document that has a federal research statement. */
  function Script(arg: string, lines: seq<string>, parse: string -> Document, paragraphText: string -> string)
    : (r: CsvOutput)
    ensures |r.table| >= 1 && r.table[0] == Fields
    ensures |r.table| <= |parse(FixedDocument(lines)).nodes(".//us-patent-application")| + 1
    ensures forall k | 1 <= k < |r.table| :: |r.table[k]| == 12
    ensures r.table[1..] == Rows(parse(FixedDocument(lines)).nodes(".//us-patent-application"), paragraphText)
  {
    var rows := Rows(parse(FixedDocument(lines)).nodes(".//us-patent-application"), paragraphText);
    RowsWidth(parse(FixedDocument(lines)).nodes(".//us-patent-application"), paragraphText);
    CsvOutput(OutputFilename(arg), [Fields] + rows)
  }

  lemma RowsWidth(nodes: seq<Node>, paragraphText: string -> string)
    ensures forall row | row in Rows(nodes, paragraphText) :: |row| == 12
  {
    forall row | row in Rows(nodes, paragraphText) ensures |row| == 12 {
      RowsMembers(nodes, paragraphText, row);
    }
  }

  method RunScript(arg: string, lines: seq<string>, parse: string -> Document, paragraphText: string -> string)
    returns (r: CsvOutput)
    ensures r == Script(arg, lines, parse, paragraphText)
  {
    var outputfile := OutputFilename(arg);
    var xmldocstr := FixUp(lines);
    var doc := parse(xmldocstr);
    var rows := ConvertApplications(doc.nodes(".//us-patent-application"), paragraphText);
    return CsvOutput(outputfile, [Fields] + rows);
  }
}
