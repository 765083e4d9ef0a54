/** fixCsvCols.rb: prints a CSV file as aligned text. A fold over the rows,
    header first, finds the widest cell of each column; the widths become a
    `%Ns, %Ns, ...` format that right-aligns every row. */
module FixCsvCols {
  import opened Outcomes
  import opened Text

  /** A parsed CSV field: nil for an empty unquoted field. */
  type Cell = Option<string>

  /** `elem ||= ""`, and `nil.to_s` when formatting: a nil cell is empty. */
  function CellText(c: Cell): string {
    match c
    case None => ""
    case Some(s) => s
  }

  // ---------------------------------------------------------------------
  // The parsed table (line 5)

  /** `csv.to_a` for a file parsed with headers: the header row, then each
      record padded with nil up to the header's length, as `CSV::Row` pairs
      the fields with the headers. */
  function Table(header: seq<Cell>, records: seq<seq<Cell>>): (t: seq<seq<Cell>>)
    ensures |t| == |records| + 1 && t[0] == header
    ensures forall k | 0 <= k < |records| :: t[k + 1] == PadRecord(records[k], |header|)
    ensures forall k | 0 <= k < |t| :: |t[k]| >= |header|
  {
    var rest := Padded(records, |header|);
    assert forall k | 0 <= k < |records| :: ([header] + rest)[k + 1] == rest[k];
    [header] + rest
  }

  function Padded(records: seq<seq<Cell>>, n: nat): (r: seq<seq<Cell>>)
    ensures |r| == |records|
    ensures forall k | 0 <= k < |records| :: r[k] == PadRecord(records[k], n)
    ensures forall k | 0 <= k < |r| :: |r[k]| >= n
  {
    if records == [] then [] else [PadRecord(records[0], n)] + Padded(records[1..], n)
  }

  function PadRecord(fields: seq<Cell>, n: nat): (r: seq<Cell>)
    ensures |r| == (if |fields| < n then n else |fields|)
    ensures r[..|fields|] == fields && forall i | |fields| <= i < |r| :: r[i] == None
  {
    if |fields| < n then fields + Nils(n - |fields|) else fields
  }

  function Nils(n: nat): (r: seq<Cell>)
    ensures |r| == n && forall i | 0 <= i < n :: r[i] == None
  {
    if n == 0 then [] else Nils(n - 1) + [None]
  }

  // ---------------------------------------------------------------------
  // Column widths (lines 6-14)

  /** The widest cell of column `i` over the rows, a nil or missing cell
      counting as empty. */
  function ColumnWidth(table: seq<seq<Cell>>, i: nat): nat
    decreases |table|
  {
    if table == [] then 0
    else
      var before := ColumnWidth(table[..|table| - 1], i);
      var last := table[|table| - 1];
      if i < |last| && |CellText(last[i])| > before then |CellText(last[i])| else before
  }

  /** The width is at least every cell of the column, and either 0 or the
      length of one of them. */
  lemma {:induction false} ColumnWidthIsWidest(table: seq<seq<Cell>>, i: nat)
    ensures var w := ColumnWidth(table, i);
      && (forall k | 0 <= k < |table| && i < |table[k]| :: |CellText(table[k][i])| <= w)
      && (w == 0 || exists k | 0 <= k < |table| && i < |table[k]| :: w == |CellText(table[k][i])|)
    decreases |table|
  {
    if table != [] {
      var init := table[..|table| - 1];
      ColumnWidthIsWidest(init, i);
      assert forall k | 0 <= k < |init| :: init[k] == table[k];
    }
  }

  /** The width of every column of the header. */
  function Widths(table: seq<seq<Cell>>, n: nat): (ws: seq<nat>)
    ensures |ws| == n && forall i | 0 <= i < n :: ws[i] == ColumnWidth(table, i)
  {
    if n == 0 then []
    else
      var init := Widths(table, n - 1);
      var ws := init + [ColumnWidth(table, n - 1)];
      assert forall i | 0 <= i < n - 1 :: ws[i] == init[i];
      ws
  }

  /** A sequence holding the width of each of its columns is `Widths`. */
  ghost predicate WidthsOf(result: seq<nat>, rows: seq<seq<Cell>>) {
    forall i | 0 <= i < |result| :: result[i] == ColumnWidth(rows, i)
  }

  lemma WidthsOfIsWidths(result: seq<nat>, table: seq<seq<Cell>>)
    requires WidthsOf(result, table)
    ensures result == Widths(table, |result|)
  {
  }

  /** One more row raises a column's width to that row's cell when the cell
      is longer. */
  lemma ColumnWidthSnoc(table: seq<seq<Cell>>, k: nat, i: nat)
    requires k < |table|
    ensures ColumnWidth(table[..k + 1], i)
      == if i < |table[k]| && |CellText(table[k][i])| > ColumnWidth(table[..k], i) then |CellText(table[k][i])|
         else ColumnWidth(table[..k], i)
  {
    assert table[..k + 1][..k] == table[..k];
  }

  /** The fold's state part-way through row `k`: columns before `idx`
      account for rows `0..k`, the others for rows `0..k-1`. */
  ghost predicate WidthsSoFar(result: seq<nat>, table: seq<seq<Cell>>, k: nat, idx: nat)
    requires k < |table|
  {
    forall i | 0 <= i < |result| ::
      result[i] == if i < idx then ColumnWidth(table[..k + 1], i) else ColumnWidth(table[..k], i)
  }

  lemma WidthsStep(result: seq<nat>, table: seq<seq<Cell>>, k: nat, idx: nat)
    requires k < |table| && idx < |table[k]| && idx < |result| && WidthsSoFar(result, table, k, idx)
    ensures var size := |CellText(table[k][idx])|;
      WidthsSoFar(result[idx := if size > result[idx] then size else result[idx]], table, k, idx + 1)
  {
    ColumnWidthSnoc(table, k, idx);
  }

  lemma WidthsRowDone(result: seq<nat>, table: seq<seq<Cell>>, k: nat)
    requires k < |table| && |table[k]| <= |result| && WidthsSoFar(result, table, k, |table[k]|)
    ensures WidthsOf(result, table[..k + 1])
  {
    forall i | |table[k]| <= i < |result| ensures result[i] == ColumnWidth(table[..k + 1], i) {
      ColumnWidthSnoc(table, k, i);
    }
  }

  const NilComparison := "comparison of Integer with nil failed"

  /** The `inject` fold: `result` starts as `n` zeros, and each cell of
      each row raises it to the cell's length. A cell past the header's
      width compares with the nil `result[idx]` and raises. */
  method ColumnWidths(table: seq<seq<Cell>>, n: nat) returns (r: Result<seq<nat>>)
    ensures r.Ok? <==> RowsFit(table, n)
    ensures r.Ok? ==> r.value == Widths(table, n)
    ensures r.Err? ==> r.msg == NilComparison
  {
    var result := new nat[n](_ => 0);
    for k := 0 to |table|
      invariant RowsFit(table[..k], n)
      invariant WidthsOf(result[..], table[..k])
    {
      var row := table[k];
      for idx := 0 to |row|
        invariant idx <= n && WidthsSoFar(result[..], table, k, idx)
      {
        if idx >= n {
          return Err(NilComparison);
        }
        var size := |CellText(row[idx])|;
        WidthsStep(result[..], table, k, idx);
        if size > result[idx] {
          result[idx] := size;
        }
      }
      WidthsRowDone(result[..], table, k);
      assert RowsFit(table[..k + 1], n) by {
        assert forall j | 0 <= j < k :: table[..k + 1][j] == table[..k][j];
      }
    }
    assert table[..|table|] == table;
    WidthsOfIsWidths(result[..], table);
    return Ok(result[..]);
  }

  // ---------------------------------------------------------------------
  // The format (line 16)

  /** `"#{cw}s"` */
  function Spec(w: nat): string {
    NatToString(w) + "s"
  }

  function Specs(ws: seq<nat>): seq<string> {
    Map(ws, Spec)
  }

  /** `"%" + column_widths.collect { |cw| "#{cw}s" }.join(", %")` */
  function FormatString(ws: seq<nat>): string {
    "%" + Join(Specs(ws), ", %")
  }

  // ---------------------------------------------------------------------
  // `String#%` for literal characters and `%<width>s` directives

  const TooFewArguments := "too few arguments"
  const IncompleteSpecifier := "incomplete format specifier; use %% (double %) instead"

  /** Spaces in front of `s` up to `w` characters; a longer `s` is kept
      whole. */
  function PadLeft(s: string, w: nat): (r: string)
    ensures |r| == (if |s| < w then w else |s|)
    ensures r[|r| - |s|..] == s && forall i | 0 <= i < |r| - |s| :: r[i] == ' '
  {
    if |s| < w then Spaces(w - |s|) + s else s
  }

  function Spaces(n: nat): (r: string)
    ensures |r| == n && forall i | 0 <= i < n :: r[i] == ' '
  {
    if n == 0 then [] else Spaces(n - 1) + " "
  }

  /** `fmt % args`: literal characters are copied, and `%` followed by a
      width and `s` right-aligns the next argument to that width; arguments
      left over are ignored. */
  function Format(fmt: string, args: seq<Cell>): Result<string>
    decreases |fmt|
  {
    if fmt == [] then Ok([])
    else if fmt[0] != '%' then
      var rest :- Format(fmt[1..], args);
      Ok([fmt[0]] + rest)
    else
      var width := DigitPrefix(fmt[1..]);
      if 1 + |width| < |fmt| && fmt[1 + |width|] == 's' then
        if args == [] then Err(TooFewArguments)
        else
          var rest :- Format(fmt[2 + |width|..], args[1..]);
          Ok(PadLeft(CellText(args[0]), DigitsValue(width)) + rest)
      else Err(IncompleteSpecifier)
  }

  /** Each of the first `|ws|` arguments right-aligned to its width. */
  function Aligned(ws: seq<nat>, args: seq<Cell>): (r: seq<string>)
    requires |args| >= |ws|
    ensures |r| == |ws| && forall i | 0 <= i < |ws| :: r[i] == PadLeft(CellText(args[i]), ws[i])
  {
    if ws == [] then [] else [PadLeft(CellText(args[0]), ws[0])] + Aligned(ws[1..], args[1..])
  }

  /** What the built format prints for a row: the row's cells right-aligned
      to the widths and separated by `, `; too few cells raise, and so does
      the bare `%` of an empty header. */
  function Formatted(ws: seq<nat>, args: seq<Cell>): Result<string> {
    if ws == [] then Err(IncompleteSpecifier)
    else if |args| < |ws| then Err(TooFewArguments)
    else Ok(Join(Aligned(ws, args), ", "))
  }

  /** The format built from the widths does what it is meant to. */
  lemma FormatStringAligns(ws: seq<nat>, args: seq<Cell>)
    ensures Format(FormatString(ws), args) == Formatted(ws, args)
  {
    if ws == [] {
      assert FormatString(ws) == "%";
      assert DigitPrefix("") == "";
    } else {
      FormatSpecs(ws, args);
    }
  }

  lemma {:induction false} FormatSpecs(ws: seq<nat>, args: seq<Cell>)
    requires ws != []
    ensures Format("%" + Join(Specs(ws), ", %"), args) == Formatted(ws, args)
    decreases |ws|
  {
    if |ws| == 1 {
      FormatOneSpec(ws, args);
    } else if args == [] {
      SpecsJoinHead(ws);
      FormatDirective(ws[0], ", " + ("%" + Join(Specs(ws[1..]), ", %")), args);
    } else {
      FormatSpecs(ws[1..], args[1..]);
      FormatSpecsStep(ws, args);
    }
  }

  lemma FormatOneSpec(ws: seq<nat>, args: seq<Cell>)
    requires |ws| == 1
    ensures Format("%" + Join(Specs(ws), ", %"), args) == Formatted(ws, args)
  {
    assert Specs(ws) == [Spec(ws[0])];
    assert "%" + Join(Specs(ws), ", %") == "%" + Spec(ws[0]) + "";
    FormatDirective(ws[0], "", args);
    if args != [] {
      var padded := PadLeft(CellText(args[0]), ws[0]);
      assert Format("", args[1..]) == Ok([]);
      assert padded + [] == padded;
      assert Join(Aligned(ws, args), ", ") == padded;
    }
  }

  lemma FormatSpecsStep(ws: seq<nat>, args: seq<Cell>)
    requires |ws| >= 2 && args != []
    requires Format("%" + Join(Specs(ws[1..]), ", %"), args[1..]) == Formatted(ws[1..], args[1..])
    ensures Format("%" + Join(Specs(ws), ", %"), args) == Formatted(ws, args)
  {
    var inner := "%" + Join(Specs(ws[1..]), ", %");
    var padded := PadLeft(CellText(args[0]), ws[0]);
    SpecsJoinHead(ws);
    FormatDirective(ws[0], ", " + inner, args);
    FormatSeparator(inner, args[1..]);
    FormattedCons(ws, args);
    var rest := Format(inner, args[1..]);
    var sep := Format(", " + inner, args[1..]);
    var whole := Format("%" + Spec(ws[0]) + (", " + inner), args);
    if rest.Err? {
      assert sep == Err(rest.msg);
      assert whole == Err(rest.msg);
    } else {
      assert sep == Ok(", " + rest.value);
      assert whole == Ok(padded + (", " + rest.value));
      ConcatAssoc(padded, ", ", rest.value);
    }
  }

  /** With two widths or more, the format opens with the first directive,
      then `, ` and the format of the other widths. */
  lemma SpecsJoinHead(ws: seq<nat>)
    requires |ws| >= 2
    ensures "%" + Join(Specs(ws), ", %") == "%" + Spec(ws[0]) + (", " + ("%" + Join(Specs(ws[1..]), ", %")))
  {
    var specs := Specs(ws);
    assert specs[1..] == Specs(ws[1..]);
    assert Join(specs, ", %") == specs[0] + ", %" + Join(specs[1..], ", %");
    Regroup(specs[0], Join(specs[1..], ", %"));
  }

  lemma Regroup(a: string, j: string)
    ensures "%" + (a + ", %" + j) == "%" + a + (", " + ("%" + j))
  {
  }

  lemma FormattedCons(ws: seq<nat>, args: seq<Cell>)
    requires |ws| >= 2 && args != []
    ensures Formatted(ws, args)
      == match Formatted(ws[1..], args[1..])
         case Err(m) => Err(m)
         case Ok(v) => Ok(PadLeft(CellText(args[0]), ws[0]) + ", " + v)
  {
    if |args| >= |ws| {
      assert Aligned(ws, args)[1..] == Aligned(ws[1..], args[1..]);
    }
  }

  /** A `%<width>s` directive right-aligns the next argument, then the rest
      of the format goes on with the arguments after it. */
  lemma FormatDirective(w: nat, rest: string, args: seq<Cell>)
    ensures Format("%" + Spec(w) + rest, args)
      == if args == [] then Err(TooFewArguments)
         else match Format(rest, args[1..])
              case Err(m) => Err(m)
              case Ok(v) => Ok(PadLeft(CellText(args[0]), w) + v)
  {
    var digits := NatToString(w);
    var fmt := "%" + Spec(w) + rest;
    assert fmt == "%" + digits + ("s" + rest);
    assert fmt[1..] == digits + ("s" + rest);
    DigitPrefixOf(digits, "s" + rest);
    assert fmt[1 + |digits|] == 's';
    assert fmt[2 + |digits|..] == rest;
  }

  /** A character other than `%` is copied. */
  lemma FormatLiteral(c: char, rest: string, args: seq<Cell>)
    requires c != '%'
    ensures Format([c] + rest, args)
      == match Format(rest, args)
         case Err(m) => Err(m)
         case Ok(v) => Ok([c] + v)
  {
    assert ([c] + rest)[1..] == rest;
  }

  /** The `, ` between two directives is copied. */
  lemma FormatSeparator(rest: string, args: seq<Cell>)
    ensures Format(", " + rest, args)
      == match Format(rest, args)
         case Err(m) => Err(m)
         case Ok(v) => Ok(", " + v)
  {
    assert ", " + rest == [','] + ([' '] + rest);
    FormatLiteral(' ', rest, args);
    FormatLiteral(',', [' '] + rest, args);
    match Format(rest, args)
    case Err(m) =>
    case Ok(v) =>
      assert Format([' '] + rest, args) == Ok([' '] + v);
      ConcatAssoc([','], [' '], v);
      assert [','] + [' '] + v == ", " + v;
  }

  /** With widths from the fold, every printed cell takes exactly its
      column's width and ends with the cell's text, so the columns line
      up. */
  lemma AlignedCellsFill(table: seq<seq<Cell>>, n: nat, k: nat, i: nat)
    requires k < |table| && i < n <= |table[k]|
    ensures var cell := Aligned(Widths(table, n), table[k])[i];
      && |cell| == ColumnWidth(table, i)
      && cell[|cell| - |CellText(table[k][i])|..] == CellText(table[k][i])
  {
    var row := table[k];
    var text := CellText(row[i]);
    var ws := Widths(table, n);
    var w := ColumnWidth(table, i);
    ColumnWidthIsWidest(table, i);
    assert ws[i] == w;
    assert |text| <= w;
    var cell := PadLeft(text, w);
    assert |cell| == w && cell[|cell| - |text|..] == text;
    assert Aligned(ws, row)[i] == cell;
  }

  // ---------------------------------------------------------------------
  // Printing (lines 18-20)

  /** `format % row` for each row in turn. */
  function FormatRows(fmt: string, table: seq<seq<Cell>>): seq<Result<string>> {
    Map(table, row => Format(fmt, row))
  }

  /** `csv.to_a.each do |row| puts format % row end`: the printed lines, or
      the error of the first row that cannot be formatted. */
  method PrintRows(fmt: string, table: seq<seq<Cell>>) returns (out: Result<seq<string>>)
    ensures out == Collect(FormatRows(fmt, table))
  {
    var printed: seq<string> := [];
    ghost var rs := FormatRows(fmt, table);
    for k := 0 to |table|
      invariant Succeeded(rs, printed) && |printed| == k
    {
      var line := Format(fmt, table[k]);
      if line.Err? {
        FirstErrorIsCollected(rs, printed);
        return Err(line.msg);
      }
      SucceededStep(rs, printed, line.value);
      printed := printed + [line.value];
    }
    SucceededAll(rs, printed);
    return Ok(printed);
  }

  // ---------------------------------------------------------------------
  // The script

  /** Each row formatted as meant with the widths `ws`. */
  function FormattedRows(ws: seq<nat>, table: seq<seq<Cell>>): seq<Result<string>> {
    Map(table, row => Formatted(ws, row))
  }

  /** Printing with the format built from the widths formats every row as
      meant. */
  lemma PrintedLines(ws: seq<nat>, table: seq<seq<Cell>>)
    ensures FormatRows(FormatString(ws), table) == FormattedRows(ws, table)
  {
    var rs := FormatRows(FormatString(ws), table);
    forall k | 0 <= k < |table| ensures rs[k] == Formatted(ws, table[k]) {
      FormatStringAligns(ws, table[k]);
    }
  }

  /** What the script prints for a table whose header has `n` cells: the
      widths fold raises when a row is longer, and otherwise every row is
      formatted in turn. */
  function TableLines(table: seq<seq<Cell>>, n: nat): Result<seq<string>> {
    if RowsFit(table, n) then
      Collect(FormatRows(FormatString(Widths(table, n)), table))
    else
      Err(NilComparison)
  }

  /** What the script prints for a parsed file. */
  function AlignedLines(header: seq<Cell>, records: seq<seq<Cell>>): Result<seq<string>> {
    TableLines(Table(header, records), |header|)
  }

  /** The script on a parsed file. */
  method AlignColumns(header: seq<Cell>, records: seq<seq<Cell>>) returns (out: Result<seq<string>>)
    ensures out == AlignedLines(header, records)
  {
    var table := Table(header, records);
    var widths := ColumnWidths(table, |header|);
    if widths.Err? {
      return Err(widths.msg);
    }
    var format := FormatString(widths.value);
    out := PrintRows(format, table);
  }

  /** On a table whose rows all have at least `n` cells, the script
      raises exactly when a row is longer or `n` is zero, and otherwise
      prints one line per row with every cell right-aligned to its column's
      widest cell. */
  lemma TableLinesSound(table: seq<seq<Cell>>, n: nat)
    requires |table| > 0 && forall k | 0 <= k < |table| :: |table[k]| >= n
    ensures var out := TableLines(table, n);
      && (out.Ok? <==> n > 0 && RowsFit(table, n))
      && (out.Ok? ==>
        && |out.value| == |table|
        && forall k | 0 <= k < |table| :: out.value[k] == Join(Aligned(Widths(table, n), table[k]), ", "))
  {
    if RowsFit(table, n) {
      var ws := Widths(table, n);
      PrintedLines(ws, table);
      FormattedTable(ws, table);
    }
  }

  /** The script raises exactly when a record is longer than the header or
      the header is empty, and otherwise prints one line per row, header
      first, each cell right-aligned to its column's widest cell. */
  lemma AlignedLinesSound(header: seq<Cell>, records: seq<seq<Cell>>)
    ensures var out := AlignedLines(header, records);
      && (out.Ok? <==> |header| > 0 && RowsFit(records, |header|))
      && (out.Ok? ==>
        var table := Table(header, records);
        && |out.value| == |table|
        && forall k | 0 <= k < |table| :: out.value[k] == Join(Aligned(Widths(table, |header|), table[k]), ", "))
  {
    RecordsWithinHeader(header, records);
    TableLinesSound(Table(header, records), |header|);
  }

  /** Every row of a non-empty table formats unless there are no widths;
      then the first row already fails. */
  lemma FormattedTable(ws: seq<nat>, table: seq<seq<Cell>>)
    requires |table| > 0 && forall k | 0 <= k < |table| :: |table[k]| >= |ws|
    ensures var c := Collect(FormattedRows(ws, table));
      && (c.Ok? <==> |ws| > 0)
      && (c.Ok? ==> |c.value| == |table| && forall k | 0 <= k < |table| :: c.value[k] == Join(Aligned(ws, table[k]), ", "))
  {
    var rs := FormattedRows(ws, table);
    if |ws| == 0 {
      assert rs[0].Err?;
    } else {
      forall k | 0 <= k < |table| ensures rs[k] == Ok(Join(Aligned(ws, table[k]), ", ")) {
      }
    }
  }

  /** No row is longer than `n` cells. */
  predicate RowsFit(rows: seq<seq<Cell>>, n: nat) {
    forall k | 0 <= k < |rows| :: |rows[k]| <= n
  }

  /** After padding no row is longer than the header exactly when no
      record is. */
  lemma RecordsWithinHeader(header: seq<Cell>, records: seq<seq<Cell>>)
    ensures RowsFit(Table(header, records), |header|) <==> RowsFit(records, |header|)
  {
    var table := Table(header, records);
    if RowsFit(records, |header|) {
      forall k | 0 <= k < |table| ensures |table[k]| <= |header| {
        if k > 0 {
          assert table[k] == PadRecord(records[k - 1], |header|);
        }
      }
    }
    if !RowsFit(records, |header|) {
      var k :| 0 <= k < |records| && |records[k]| > |header|;
      assert table[k + 1] == PadRecord(records[k], |header|);
    }
  }
}
