/** The extractor registry and the CSV report of processFile.rb: each report
    is an ordered list of (field name, rule) pairs run against every
    application or grant node of an extracted file. */
module Extractors {
  import opened Outcomes
  import opened Text
  import opened GovInterest
  import opened ArchiveNames
  import opened XmlModel

  /** How an extractor computes its value from one node. */
  datatype Rule =
    | Simple(path: string)
    | FirstOf(path: string)
    | InventorNames
    | AssigneeNames
    | CrossReference(instruction: string, lead: string, tail: string)
    | GovernmentInterest(lead: string, tail: string)

  datatype Extractor = Extractor(fieldName: string, rule: Rule)

  const ApplicantPath := ".//applicant"
  const InventorAddressPath := ".//inventor/addressbook"
  const AssigneePath := ".//assignees/assignee"
  const CrossRefHeadingPath :=
    ".//description/heading[contains(.,'CROSS-REFERENCE') or contains(.,'CROSSREF') or contains(.,'CROSS REFERENCE')]"

  const AppXrefInstruction := "cross-reference-to-related-applications"
  const AppXrefLead := "<?cross-reference-to-related-applications description=\"Cross Reference To Related Applications\" end=\"lead\"?>"
  const AppXrefTail := "<?cross-reference-to-related-applications description=\"Cross Reference To Related Applications\" end=\"tail\"?>"
  const GrantXrefInstruction := "RELAPP"
  const GrantXrefLead := "<?RELAPP description=\"Other Patent Relations\" end=\"lead\"?>"
  const GrantXrefTail := "<?RELAPP description=\"Other Patent Relations\" end=\"tail\"?>"

  const AppNoPath := ".//application-reference/document-id/doc-number/text()"
  const PubDatePath := ".//publication-reference/document-id/date/text()"
  const PubNumPath := "./us-bibliographic-data-application/publication-reference/document-id/doc-number/text()"
  const PubDocNumberPath := ".//publication-reference/document-id/doc-number/text()"
  const TitlePath := ".//invention-title/text()"
  const AbstractPath := ".//abstract/p/text()"
  const FileDatePath := ".//application-reference/document-id/date/text()"
  const PriorPubPath := ".//related-publication/document-id/doc-number/text()"
  const PriorPubDatePath := ".//related-publication/document-id/date/text()"
  const ParentCasePath := ".//us-related-documents//parent-doc/document-id/doc-number/text()"
  const ChildCasePath := ".//us-related-documents//child-doc/document-id/doc-number/text()"
  const Date371Path := ".//us-371c124-date/date/text()"
  const PctPubNoPath := ".//pct-or-regional-filing-data/document-id/doc-number/text()"

  /** The fourteen application extractors, in column order. */
  const AppExtractors: seq<Extractor> := [
    Extractor("appno", Simple(AppNoPath)),
    Extractor("pubdate", Simple(PubDatePath)),
    Extractor("pubnum", Simple(PubNumPath)),
    Extractor("title", Simple(TitlePath)),
    Extractor("abstract", Simple(AbstractPath)),
    Extractor("invs", InventorNames),
    Extractor("assignee", AssigneeNames),
    Extractor("xref", CrossReference(AppXrefInstruction, AppXrefLead, AppXrefTail)),
    Extractor("filedate", Simple(FileDatePath)),
    Extractor("govint", GovernmentInterest(AppLead, AppTail)),
    Extractor("parentcase", FirstOf(ParentCasePath)),
    Extractor("childcase", FirstOf(ChildCasePath)),
    Extractor("date371", Simple(Date371Path)),
    Extractor("pctpubno", Simple(PctPubNoPath))
  ]

  /** The sixteen grant extractors, in column order. */
  const GrantExtractors: seq<Extractor> := [
    Extractor("patentno", Simple(PubDocNumberPath)),
    Extractor("patpubdate", Simple(PubDatePath)),
    Extractor("title", Simple(TitlePath)),
    Extractor("appno", Simple(AppNoPath)),
    Extractor("priorpub", Simple(PriorPubPath)),
    Extractor("priorpubdate", Simple(PriorPubDatePath)),
    Extractor("abstract", Simple(AbstractPath)),
    Extractor("invs", InventorNames),
    Extractor("assignee", AssigneeNames),
    Extractor("xref", CrossReference(GrantXrefInstruction, GrantXrefLead, GrantXrefTail)),
    Extractor("filedate", Simple(FileDatePath)),
    Extractor("govint", GovernmentInterest(GrantLead, GrantTail)),
    Extractor("parentcase", FirstOf(ParentCasePath)),
    Extractor("childcase", FirstOf(ChildCasePath)),
    Extractor("date371", Simple(Date371Path)),
    Extractor("pctpubno", Simple(PctPubNoPath))
  ]

  /** `extractors.collect { |e| e.field_name }` */
  function FieldNames(extractors: seq<Extractor>): (r: seq<string>)
    ensures |r| == |extractors| && forall i | 0 <= i < |extractors| :: r[i] == extractors[i].fieldName
  {
    if extractors == [] then [] else [extractors[0].fieldName] + FieldNames(extractors[1..])
  }

  // ---------------------------------------------------------------------
  // get_inventors_tag

  /** `get_inventors_tag(full_year)`: the inventor path for a year, or the
      error raised for a year before 2007. */
  function InventorsTag(fullYear: int): (r: Result<string>)
    ensures r == Ok(ApplicantPath) <==> 2007 <= fullYear <= 2011
    ensures r == Ok(InventorAddressPath) <==> fullYear >= 2012
    ensures r.Err? <==> fullYear < 2007
    ensures r.Err? ==> r.msg == "cannot process data from year " + IntToString(fullYear)
  {
    if 2007 <= fullYear <= 2011 then Ok(ApplicantPath)
    else if fullYear >= 2012 then Ok(InventorAddressPath)
    else Err("cannot process data from year " + IntToString(fullYear))
  }

  // ---------------------------------------------------------------------
  // Running the extractors

  /** `Extractor#process(node, filename)`. `paragraphText` stands for parsing
      a captured string as a fragment and taking the text of its top-level
      paragraphs; a nil capture gives an empty fragment. The inventor and
      assignee rules both read the date fields of the file name, which
      raises when it holds none. The cross-reference rule tests the whole
      document for its processing instruction, as the `//` path does, but
      captures from the node's own markup. */
  function FieldValue(rule: Rule, node: Node, doc: Document, filename: string, paragraphText: string -> string)
    : (r: Result<string>)
    ensures (rule.InventorNames? || rule.AssigneeNames?) && GetDateFields(filename).Err? ==> r.Err?
    ensures !rule.InventorNames? && !rule.AssigneeNames? ==> r.Ok?
  {
    match rule
    case Simple(path) => Ok(TextOf(node.texts(path)))
    case FirstOf(path) => Ok(FirstText(node.texts(path)))
    case InventorNames =>
      var date :- GetDateFields(filename);
      var path :- InventorsTag(date.year);
      Ok(BracketJoin(PersonNames(node.elements(path))))
    case AssigneeNames =>
      var date :- GetDateFields(filename);
      Ok(BracketJoin(OrgNames(node.elements(AssigneePath))))
    case CrossReference(instruction, lead, tail) =>
      if instruction in doc.instructions then
        match CaptureBetween(node.markup, lead, tail)
        case None => Ok([])
        case Some(captured) => Ok(paragraphText(captured))
      else Ok(TextOf(node.texts(CrossRefHeadingPath)))
    case GovernmentInterest(lead, tail) =>
      match CaptureBetween(node.markup, lead, tail)
      case None => Ok([])
      case Some(captured) => Ok(paragraphText(captured))
  }

  /** The inventor field lists the people at the year's inventor path, each
      as `[first last]`, in document order. */
  lemma InventorsByYear(node: Node, doc: Document, filename: string, paragraphText: string -> string)
    requires GetDateFields(filename).Ok?
    ensures var year := GetDateFields(filename).value.year;
      var r := FieldValue(InventorNames, node, doc, filename, paragraphText);
      && (year < 2007 <==> r.Err?)
      && (2007 <= year <= 2011 ==> r == Ok(BracketJoin(PersonNames(node.elements(ApplicantPath)))))
      && (year >= 2012 ==> r == Ok(BracketJoin(PersonNames(node.elements(InventorAddressPath)))))
  {
  }

  /** The outcome of each extractor on one node, in order. */
  function FieldResults(extractors: seq<Extractor>, node: Node, doc: Document, filename: string,
                        paragraphText: string -> string): (rs: seq<Result<string>>)
    ensures |rs| == |extractors|
    ensures forall i | 0 <= i < |extractors| :: rs[i] == FieldValue(extractors[i].rule, node, doc, filename, paragraphText)
  {
    if extractors == [] then []
    else
      [FieldValue(extractors[0].rule, node, doc, filename, paragraphText)]
      + FieldResults(extractors[1..], node, doc, filename, paragraphText)
  }

  /** `extractors.collect { |e| e.process(node, filename) }`: all fields in
      order, or the error of the first extractor that raises. */
  function ExtractRow(extractors: seq<Extractor>, node: Node, doc: Document, filename: string, paragraphText: string -> string)
    : Result<seq<string>>
  {
    Collect(FieldResults(extractors, node, doc, filename, paragraphText))
  }

  /** A row holds one value per extractor, each the value of its rule, and
      there is a row exactly when no rule raises. */
  lemma RowFollowsExtractors(extractors: seq<Extractor>, node: Node, doc: Document, filename: string,
                             paragraphText: string -> string)
    ensures var r := ExtractRow(extractors, node, doc, filename, paragraphText);
      && (r.Ok? <==> forall i | 0 <= i < |extractors| :: FieldValue(extractors[i].rule, node, doc, filename, paragraphText).Ok?)
      && (r.Ok? ==>
            && |r.value| == |extractors|
            && forall i | 0 <= i < |extractors| :: FieldValue(extractors[i].rule, node, doc, filename, paragraphText) == Ok(r.value[i]))
  {
    var rs := FieldResults(extractors, node, doc, filename, paragraphText);
    var r := Collect(rs);
    assert r == ExtractRow(extractors, node, doc, filename, paragraphText);
  }

  /** The rows of the kept nodes, or the error of the first row that raises.
      The skip test asks the whole document for the marker, so either every
      node is kept (`keep`) or none is. */
  function KeptRows<N>(nodes: seq<N>, keep: bool, extract: N -> Result<seq<string>>): (r: Result<seq<seq<string>>>)
    ensures !keep ==> r == Ok([])
    ensures keep ==> (r.Ok? <==> forall i | 0 <= i < |nodes| :: extract(nodes[i]).Ok?)
    ensures r.Ok? && keep ==> |r.value| == |nodes| && forall i | 0 <= i < |nodes| :: extract(nodes[i]) == Ok(r.value[i])
  {
    if !keep then Ok([]) else Collect(Map(nodes, extract))
  }

  /** The loop over the kind's nodes: each node is skipped unless the
      document holds the marker, and the loop stops at the first node whose
      extractors raise. */
  method CollectExtracts<N>(nodes: seq<N>, keep: bool, extract: N -> Result<seq<string>>)
    returns (r: Result<seq<seq<string>>>)
    ensures r == KeptRows(nodes, keep, extract)
  {
    ghost var rows := Map(nodes, extract);
    var allExtracts: seq<seq<string>> := [];
    var i := 0;
    while i < |nodes|
      invariant 0 <= i <= |nodes|
      invariant !keep ==> allExtracts == []
      invariant keep ==> |allExtracts| == i && forall j | 0 <= j < i :: rows[j] == Ok(allExtracts[j])
    {
      if !keep {
        i := i + 1;
        continue;
      }
      var row := extract(nodes[i]);
      if row.Err? {
        ghost var c := Collect(rows);
        ghost var k :| 0 <= k < |rows| && rows[k] == Err(c.msg) && forall j | 0 <= j < k :: rows[j].Ok?;
        assert k == i;
        return Err(row.msg);
      }
      allExtracts := allExtracts + [row.value];
      i := i + 1;
    }
    if keep {
      assert Collect(rows).value == allExtracts;
    }
    return Ok(allExtracts);
  }

  // ---------------------------------------------------------------------
  // write_csv and the two reports

  /** `write_csv`: the field names as the header, then every row with each
      newline in each value replaced by a space. */
  function WriteCsv(allExtracts: seq<seq<string>>, colnames: seq<string>): (table: seq<seq<string>>)
    ensures |table| == |allExtracts| + 1 && table[0] == colnames
    ensures forall i | 0 <= i < |allExtracts| ::
      (&& |table[i + 1]| == |allExtracts[i]|
       && forall j | 0 <= j < |allExtracts[i]| :: NoNewline(table[i + 1][j]) && |table[i + 1][j]| == |allExtracts[i][j]|)
    ensures forall i, j | 0 <= i < |allExtracts| && 0 <= j < |allExtracts[i]| ::
      table[i + 1][j] == NewlinesToSpaces(allExtracts[i][j])
  {
    [colnames] + seq(|allExtracts|, i requires 0 <= i < |allExtracts| =>
      seq(|allExtracts[i]|, j requires 0 <= j < |allExtracts[i]| => NewlinesToSpaces(allExtracts[i][j])))
  }

  /** A value without newlines reaches the report unchanged. */
  lemma PlainValuesUnchanged(allExtracts: seq<seq<string>>, colnames: seq<string>, i: nat, j: nat)
    requires i < |allExtracts| && j < |allExtracts[i]| && NoNewline(allExtracts[i][j])
    ensures WriteCsv(allExtracts, colnames)[i + 1][j] == allExtracts[i][j]
  {
    var v := allExtracts[i][j];
    assert forall k | 0 <= k < |v| :: v[k] != '\n';
  }

  /** What tells the two reports apart: the file-name mark a file of the
      kind carries, the path of its nodes, the processing instruction
      without which every node is skipped, and its extractors. */
  datatype ReportKind = ReportKind(nameMark: string, nodeTag: string, skipMarker: string, extractors: seq<Extractor>)

  /** `produce_applications_report` */
  const Applications := ReportKind("ipa", ".//us-patent-application", "federal-research-statement", AppExtractors)

  /** `produce_grants_report` */
  const Grants := ReportKind("ipg", ".//us-patent-grant", "GOVINT", GrantExtractors)

  /** The rows of one report, one per node of the kind, when the document
      holds the kind's marker. */
  function ReportRows(kind: ReportKind, extractFilename: string, doc: Document, paragraphText: string -> string)
    : Result<seq<seq<string>>>
  {
    KeptRows(doc.nodes(kind.nodeTag), kind.skipMarker in doc.instructions,
             node => ExtractRow(kind.extractors, node, doc, extractFilename, paragraphText))
  }

  /** What `produce_applications_report` and `produce_grants_report` write:
      nothing for a file of the other kind; otherwise the date fields of the
      file name are read (and raise when absent), the extractors run over
      the kind's nodes, and the report is the header and one row per kept
      node. */
  function Report(kind: ReportKind, extractFilename: string, doc: Document, paragraphText: string -> string)
    : (r: Result<Option<seq<seq<string>>>>)
    ensures !Contains(extractFilename, kind.nameMark) ==> r == Ok(None)
    ensures Contains(extractFilename, kind.nameMark) ==> r != Ok(None)
    ensures Contains(extractFilename, kind.nameMark) && GetDateFields(extractFilename).Err? ==> r.Err?
  {
    if !Contains(extractFilename, kind.nameMark) then Ok(None)
    else
      var date :- GetDateFields(extractFilename);
      var allExtracts :- ReportRows(kind, extractFilename, doc, paragraphText);
      Ok(Some(WriteCsv(allExtracts, FieldNames(kind.extractors))))
  }

  /** A written report starts with the field names; it has either no rows
      or one per node of the kind, the latter only when the document holds
      the marker; and every row is as wide as the header, with newlines
      gone from every cell. */
  lemma ReportShape(kind: ReportKind, extractFilename: string, doc: Document, paragraphText: string -> string)
    requires Report(kind, extractFilename, doc, paragraphText).Ok?
    requires Report(kind, extractFilename, doc, paragraphText).value.Some?
    ensures var table := Report(kind, extractFilename, doc, paragraphText).value.value;
      && |table| >= 1 && table[0] == FieldNames(kind.extractors)
      && (|table| == 1 || |table| == |doc.nodes(kind.nodeTag)| + 1)
      && (|table| > 1 ==> kind.skipMarker in doc.instructions)
      && (forall i | 0 <= i < |table| :: |table[i]| == |kind.extractors|)
      && forall i, j | 1 <= i < |table| && 0 <= j < |kind.extractors| :: NoNewline(table[i][j])
  {
    var rows := ReportRows(kind, extractFilename, doc, paragraphText);
    assert Report(kind, extractFilename, doc, paragraphText) == Ok(Some(WriteCsv(rows.value, FieldNames(kind.extractors))));
    RowsShape(kind, extractFilename, doc, paragraphText);
    TableShape(rows.value, FieldNames(kind.extractors));
  }

  /** The kept rows: none, or one per node when the document holds the
      marker, each as wide as the extractors. */
  lemma RowsShape(kind: ReportKind, extractFilename: string, doc: Document, paragraphText: string -> string)
    requires ReportRows(kind, extractFilename, doc, paragraphText).Ok?
    ensures var rows := ReportRows(kind, extractFilename, doc, paragraphText).value;
      && (|rows| == 0 || |rows| == |doc.nodes(kind.nodeTag)|)
      && (|rows| > 0 ==> kind.skipMarker in doc.instructions)
      && forall i | 0 <= i < |rows| :: |rows[i]| == |kind.extractors|
  {
    var nodes := doc.nodes(kind.nodeTag);
    var rows := ReportRows(kind, extractFilename, doc, paragraphText).value;
    forall i | 0 <= i < |rows| ensures |rows[i]| == |kind.extractors| {
      RowFollowsExtractors(kind.extractors, nodes[i], doc, extractFilename, paragraphText);
    }
  }

  /** The written table is as wide as its header wherever the rows are. */
  lemma TableShape(rows: seq<seq<string>>, colnames: seq<string>)
    requires forall i | 0 <= i < |rows| :: |rows[i]| == |colnames|
    ensures var table := WriteCsv(rows, colnames);
      && (forall i | 0 <= i < |table| :: |table[i]| == |colnames|)
      && forall i, j | 1 <= i < |table| && 0 <= j < |colnames| :: NoNewline(table[i][j])
  {
    var table := WriteCsv(rows, colnames);
    forall i, j | 1 <= i < |table| && 0 <= j < |colnames| ensures NoNewline(table[i][j]) {
      assert table[(i - 1) + 1][j] == table[i][j];
    }
  }

  /** With the marker present, a report of the right kind is written exactly
      when every node's extractors all succeed. */
  lemma ReportNeedsEveryRow(kind: ReportKind, extractFilename: string, doc: Document, paragraphText: string -> string)
    requires Contains(extractFilename, kind.nameMark) && GetDateFields(extractFilename).Ok?
    requires kind.skipMarker in doc.instructions
    ensures Report(kind, extractFilename, doc, paragraphText).Ok? <==>
      forall i | 0 <= i < |doc.nodes(kind.nodeTag)| ::
        ExtractRow(kind.extractors, doc.nodes(kind.nodeTag)[i], doc, extractFilename, paragraphText).Ok?
  {
    var rows := ReportRows(kind, extractFilename, doc, paragraphText);
    assert Report(kind, extractFilename, doc, paragraphText).Ok? <==> rows.Ok?;
  }

  /** `produce_applications_report` and `produce_grants_report`. */
  method ProduceReport(kind: ReportKind, extractFilename: string, doc: Document, paragraphText: string -> string)
    returns (r: Result<Option<seq<seq<string>>>>)
    ensures r == Report(kind, extractFilename, doc, paragraphText)
  {
    if !Contains(extractFilename, kind.nameMark) {
      return Ok(None);
    }
    var date := GetDateFields(extractFilename);
    if date.Err? {
      return Err(date.msg);
    }
    var extractors := kind.extractors;
    var allExtracts := CollectExtracts(doc.nodes(kind.nodeTag), kind.skipMarker in doc.instructions,
                                       node => ExtractRow(extractors, node, doc, extractFilename, paragraphText));
    if allExtracts.Err? {
      return Err(allExtracts.msg);
    }
    var table := WriteCsv(allExtracts.value, FieldNames(extractors));
    return Ok(Some(table));
  }

  /** An application file dated before 2007 that has any node to report
      cannot be reported: the inventor rule raises on the first node. */
  lemma EarlyApplicationsFail(extractFilename: string, doc: Document, paragraphText: string -> string)
    requires Contains(extractFilename, Applications.nameMark) && GetDateFields(extractFilename).Ok?
    requires GetDateFields(extractFilename).value.year < 2007
    requires Applications.skipMarker in doc.instructions && doc.nodes(Applications.nodeTag) != []
    ensures Report(Applications, extractFilename, doc, paragraphText).Err?
  {
    var node := doc.nodes(Applications.nodeTag)[0];
    assert AppExtractors[5].rule == InventorNames;
    InventorsByYear(node, doc, extractFilename, paragraphText);
    RuleFailsRow(AppExtractors, node, doc, extractFilename, paragraphText, 5);
    FailingRowFailsReport(Applications, extractFilename, doc, paragraphText, 0);
  }

  /** One rule that raises makes its node's row raise. */
  lemma RuleFailsRow(extractors: seq<Extractor>, node: Node, doc: Document, filename: string,
                     paragraphText: string -> string, k: nat)
    requires k < |extractors| && FieldValue(extractors[k].rule, node, doc, filename, paragraphText).Err?
    ensures ExtractRow(extractors, node, doc, filename, paragraphText).Err?
  {
    RowFollowsExtractors(extractors, node, doc, filename, paragraphText);
  }

  /** One node whose extractors raise makes the whole report raise. */
  lemma FailingRowFailsReport(kind: ReportKind, extractFilename: string, doc: Document, paragraphText: string -> string, i: nat)
    requires Contains(extractFilename, kind.nameMark) && GetDateFields(extractFilename).Ok?
    requires kind.skipMarker in doc.instructions && i < |doc.nodes(kind.nodeTag)|
    requires ExtractRow(kind.extractors, doc.nodes(kind.nodeTag)[i], doc, extractFilename, paragraphText).Err?
    ensures Report(kind, extractFilename, doc, paragraphText).Err?
  {
    ReportNeedsEveryRow(kind, extractFilename, doc, paragraphText);
  }
}
