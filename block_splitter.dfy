/** The streaming block splitter of processFile.rb (`extract_file`): a line
    machine that is either outside or inside a document block, buffers the
    lines of the current block, and at each closing line classifies the block
    and writes it out verbatim or drops it. */
module BlockSplitter {
  import opened Outcomes
  import opened Text
  import opened GovInterest

  const OpenApp := "<us-patent-application"
  const OpenGrant := "<us-patent-grant"
  const CloseApp := "</us-patent-application>"
  const CloseGrant := "</us-patent-grant>"

  /** The three lines written before anything else. */
  const Prologue: seq<string> := [
    "<?xml version=\"1.0\" encoding=\"UTF-8\"?>\n",
    "<!DOCTYPE us-patent-dummy SYSTEM \"dummy.dtd\" [ ]>\n",
    "<root>\n"
  ]

  /** The line written last. */
  const RootClose := "</root>\n"

  /** The message of the exception `line_iter.next` raises on an empty input. */
  const StopIterationMsg := "iteration reached an end"

  /** A `>` at or after `from` with no newline before it (`.*>` without /m). */
  predicate GreaterLater(line: string, from: nat)
    decreases |line| - from
  {
    from < |line| && (line[from] == '>' || (line[from] != '\n' && GreaterLater(line, from + 1)))
  }

  predicate TagAt(line: string, tag: string, i: nat) {
    OccursAt(line, tag, i) && GreaterLater(line, i + |tag|)
  }

  /** Whether the opening pattern matches at some position from `i` on. */
  predicate OpensFrom(line: string, i: nat)
    decreases |line| - i
  {
    i < |line| && (TagAt(line, OpenApp, i) || TagAt(line, OpenGrant, i) || OpensFrom(line, i + 1))
  }

  /** `line =~ %r{<us-patent-(application|grant).*>}` */
  predicate OpensBlock(line: string) {
    OpensFrom(line, 0)
  }

  /** `line =~ %r{</us-patent-(application|grant)>}` */
  predicate ClosesBlock(line: string) {
    Contains(line, CloseApp) || Contains(line, CloseGrant)
  }

  // ---------------------------------------------------------------------
  // The line machine, as a function

  /** The blocks closed so far, `inside_block` and `current_block_lines`. */
  datatype Scan = Scan(closed: seq<seq<string>>, inside: bool, buffer: seq<string>)

  const Start := Scan([], false, [])

  /** One line: inside a block the line is buffered first and only then
      tested for the closing tag, so an opening line that also closes does
      not end its block. */
  function Step(st: Scan, line: string): Scan {
    if st.inside then
      if ClosesBlock(line) then Scan(st.closed + [st.buffer + [line]], false, [])
      else Scan(st.closed, true, st.buffer + [line])
    else if OpensBlock(line) then Scan(st.closed, true, [line])
    else st
  }

  function Run(st: Scan, lines: seq<string>): Scan
    decreases |lines|
  {
    if lines == [] then st else Run(Step(st, lines[0]), lines[1..])
  }

  /** The blocks of the input, in order, each finished by a closing line. */
  function Blocks(lines: seq<string>): seq<seq<string>> {
    Run(Start, lines).closed
  }

  lemma {:induction false} RunKeepsClosed(st: Scan, lines: seq<string>)
    ensures st.closed <= Run(st, lines).closed
    decreases |lines|
  {
    if lines != [] {
      RunKeepsClosed(Step(st, lines[0]), lines[1..]);
    }
  }

  // ---------------------------------------------------------------------
  // An independent reading of the input: a parse into pieces

  /** A line outside every block, a closed block, or a block still open at the
      end of the input. */
  datatype Piece = Outside(line: string) | Closed(lines: seq<string>) | Dangling(lines: seq<string>)

  function PieceLines(p: Piece): seq<string> {
    match p
    case Outside(l) => [l]
    case Closed(b) => b
    case Dangling(b) => b
  }

  function AllLines(ps: seq<Piece>): seq<string> {
    if ps == [] then [] else PieceLines(ps[0]) + AllLines(ps[1..])
  }

  function ClosedOf(ps: seq<Piece>): seq<seq<string>> {
    if ps == [] then []
    else (if ps[0].Closed? then [ps[0].lines] else []) + ClosedOf(ps[1..])
  }

  /** The first closing line at or after `from`. */
  function FirstClose(lines: seq<string>, from: nat): (r: Option<nat>)
    ensures r.Some? ==> from <= r.value < |lines| && ClosesBlock(lines[r.value])
    ensures r.Some? ==> forall m | from <= m < r.value :: !ClosesBlock(lines[m])
    ensures r.None? ==> forall m | from <= m < |lines| :: !ClosesBlock(lines[m])
    decreases |lines| - from
  {
    if from >= |lines| then None
    else if ClosesBlock(lines[from]) then Some(from)
    else FirstClose(lines, from + 1)
  }

  /** A block starts at an opening line met outside a block and runs to the
      first closing line after it; without one it dangles to the end. */
  function Parse(lines: seq<string>): seq<Piece>
    decreases |lines|
  {
    if lines == [] then []
    else if !OpensBlock(lines[0]) then [Outside(lines[0])] + Parse(lines[1..])
    else
      match FirstClose(lines, 1)
      case None => [Dangling(lines)]
      case Some(k) => [Closed(lines[..k + 1])] + Parse(lines[k + 1..])
  }

  /** An opening line, then lines that do not close, then one that does. */
  predicate IsClosedBlock(b: seq<string>) {
    && |b| >= 2 && OpensBlock(b[0]) && ClosesBlock(b[|b| - 1])
    && forall m | 0 < m < |b| - 1 :: !ClosesBlock(b[m])
  }

  predicate IsDanglingBlock(b: seq<string>) {
    |b| >= 1 && OpensBlock(b[0]) && forall m | 0 < m < |b| :: !ClosesBlock(b[m])
  }

  predicate WellFormed(ps: seq<Piece>) {
    forall i | 0 <= i < |ps| ::
      match ps[i]
      case Outside(l) => !OpensBlock(l)
      case Closed(b) => IsClosedBlock(b)
      case Dangling(b) => IsDanglingBlock(b) && i == |ps| - 1
  }

  lemma ParseOutsideUnfold(lines: seq<string>)
    requires lines != [] && !OpensBlock(lines[0])
    ensures Parse(lines) == [Outside(lines[0])] + Parse(lines[1..])
  {
  }

  lemma ParseClosedUnfold(lines: seq<string>, k: nat)
    requires 1 <= k < |lines| && OpensBlock(lines[0]) && FirstClose(lines, 1) == Some(k)
    ensures Parse(lines) == [Closed(lines[..k + 1])] + Parse(lines[k + 1..])
  {
  }

  lemma AllLinesCons(p: Piece, ps: seq<Piece>)
    ensures AllLines([p] + ps) == PieceLines(p) + AllLines(ps)
  {
    assert ([p] + ps)[1..] == ps;
  }

  /** A line outside a block is its own piece. */
  lemma CoversOutside(lines: seq<string>)
    requires lines != [] && !OpensBlock(lines[0]) && AllLines(Parse(lines[1..])) == lines[1..]
    ensures AllLines(Parse(lines)) == lines
  {
    var rest := Parse(lines[1..]);
    ParseOutsideUnfold(lines);
    AllLinesCons(Outside(lines[0]), rest);
    TakeDrop(lines, 1);
    assert lines[..1] == [lines[0]];
  }

  /** A closed block is one piece and the parse resumes after it. */
  lemma CoversClosed(lines: seq<string>, k: nat)
    requires 1 <= k < |lines| && OpensBlock(lines[0]) && FirstClose(lines, 1) == Some(k)
    requires AllLines(Parse(lines[k + 1..])) == lines[k + 1..]
    ensures AllLines(Parse(lines)) == lines
  {
    var block := Closed(lines[..k + 1]);
    var rest := Parse(lines[k + 1..]);
    ParseClosedUnfold(lines, k);
    AllLinesCons(block, rest);
    TakeDrop(lines, k + 1);
  }

  /** A block with no closing line takes the rest of the input. */
  lemma CoversDangling(lines: seq<string>)
    requires lines != [] && OpensBlock(lines[0]) && FirstClose(lines, 1).None?
    ensures AllLines(Parse(lines)) == lines
  {
    assert Parse(lines) == [Dangling(lines)];
    assert [Dangling(lines)][1..] == [];
    assert lines + [] == lines;
  }

  /** The parse accounts for every input line exactly once and in order. */
  lemma {:induction false} ParseCoversInput(lines: seq<string>)
    ensures AllLines(Parse(lines)) == lines
    decreases |lines|
  {
    if lines != [] {
      if !OpensBlock(lines[0]) {
        ParseCoversInput(lines[1..]);
        CoversOutside(lines);
      } else {
        match FirstClose(lines, 1)
        case None =>
          CoversDangling(lines);
        case Some(k) =>
          ParseCoversInput(lines[k + 1..]);
          CoversClosed(lines, k);
      }
    }
  }

  lemma PrependKeepsWellFormed(p: Piece, ps: seq<Piece>)
    requires WellFormed(ps) && !p.Dangling?
    requires p.Outside? ==> !OpensBlock(p.line)
    requires p.Closed? ==> IsClosedBlock(p.lines)
    ensures WellFormed([p] + ps)
  {
    forall i | 1 <= i < |[p] + ps| ensures ([p] + ps)[i] == ps[i - 1] {
    }
  }

  /** Lines outside blocks open nothing, every block is closed by its first
      closing line after the opening one, and at most the last piece is a
      block left open. */
  lemma {:induction false} ParseWellFormed(lines: seq<string>)
    ensures WellFormed(Parse(lines))
    decreases |lines|
  {
    if lines != [] {
      if !OpensBlock(lines[0]) {
        ParseWellFormed(lines[1..]);
        PrependKeepsWellFormed(Outside(lines[0]), Parse(lines[1..]));
      } else {
        var fc := FirstClose(lines, 1);
        if fc.None? {
          assert IsDanglingBlock(lines);
        } else {
          var k := fc.value;
          ParseWellFormed(lines[k + 1..]);
          assert IsClosedBlock(lines[..k + 1]);
          PrependKeepsWellFormed(Closed(lines[..k + 1]), Parse(lines[k + 1..]));
        }
      }
    }
  }

  /** Inside a block, the machine runs to the first closing line and then
      stands outside with that block closed. */
  lemma {:induction false} RunInsideToClose(c: seq<seq<string>>, buf: seq<string>, rest: seq<string>, k: nat)
    requires k < |rest| && ClosesBlock(rest[k])
    requires forall m | 0 <= m < k :: !ClosesBlock(rest[m])
    ensures Run(Scan(c, true, buf), rest) == Run(Scan(c + [buf + rest[..k + 1]], false, []), rest[k + 1..])
    decreases k
  {
    if k == 0 {
      assert rest[..1] == [rest[0]];
    } else {
      RunInsideToClose(c, buf + [rest[0]], rest[1..], k - 1);
      assert (buf + [rest[0]]) + rest[1..][..k] == buf + rest[..k + 1];
      assert rest[1..][k..] == rest[k + 1..];
    }
  }

  /** Inside a block with no closing line ahead, nothing more is closed. */
  lemma {:induction false} RunInsideNoClose(c: seq<seq<string>>, buf: seq<string>, rest: seq<string>)
    requires forall m | 0 <= m < |rest| :: !ClosesBlock(rest[m])
    ensures Run(Scan(c, true, buf), rest).closed == c
    decreases |rest|
  {
    if rest != [] {
      RunInsideNoClose(c, buf + [rest[0]], rest[1..]);
    }
  }

  /** An opening line whose block is closed by line `k` of the input. */
  lemma OpenedAndClosed(c: seq<seq<string>>, lines: seq<string>, k: nat)
    requires 1 <= k < |lines| && ClosesBlock(lines[k])
    requires forall m | 1 <= m < k :: !ClosesBlock(lines[m])
    ensures Run(Scan(c, true, [lines[0]]), lines[1..]) == Run(Scan(c + [lines[..k + 1]], false, []), lines[k + 1..])
  {
    var rest := lines[1..];
    forall m | 0 <= m < k - 1 ensures !ClosesBlock(rest[m]) {
      assert rest[m] == lines[m + 1];
    }
    RunInsideToClose(c, [lines[0]], rest, k - 1);
    assert [lines[0]] + rest[..k] == lines[..k + 1];
    assert rest[k..] == lines[k + 1..];
  }

  lemma ClosedOfCons(p: Piece, ps: seq<Piece>)
    ensures ClosedOf([p] + ps) == (if p.Closed? then [p.lines] else []) + ClosedOf(ps)
  {
    assert ([p] + ps)[1..] == ps;
  }

  lemma OutsideLine(c: seq<seq<string>>, lines: seq<string>)
    requires lines != [] && !OpensBlock(lines[0])
    requires Run(Scan(c, false, []), lines[1..]).closed == c + ClosedOf(Parse(lines[1..]))
    ensures Run(Scan(c, false, []), lines).closed == c + ClosedOf(Parse(lines))
  {
    var st := Scan(c, false, []);
    assert Step(st, lines[0]) == st;
    assert Run(st, lines) == Run(st, lines[1..]);
    ParseOutsideUnfold(lines);
    ClosedOfCons(Outside(lines[0]), Parse(lines[1..]));
    assert ClosedOf(Parse(lines)) == [] + ClosedOf(Parse(lines[1..]));
  }

  lemma ParseClosedHead(lines: seq<string>, k: nat)
    requires 1 <= k < |lines| && OpensBlock(lines[0]) && FirstClose(lines, 1) == Some(k)
    ensures ClosedOf(Parse(lines)) == [lines[..k + 1]] + ClosedOf(Parse(lines[k + 1..]))
  {
    ParseClosedUnfold(lines, k);
    ClosedOfCons(Closed(lines[..k + 1]), Parse(lines[k + 1..]));
  }

  lemma RunOpensHead(c: seq<seq<string>>, lines: seq<string>)
    requires lines != [] && OpensBlock(lines[0])
    ensures Run(Scan(c, false, []), lines) == Run(Scan(c, true, [lines[0]]), lines[1..])
  {
  }

  lemma RunOverClosedBlock(c: seq<seq<string>>, lines: seq<string>, k: nat)
    requires 1 <= k < |lines| && OpensBlock(lines[0]) && FirstClose(lines, 1) == Some(k)
    ensures Run(Scan(c, false, []), lines) == Run(Scan(c + [lines[..k + 1]], false, []), lines[k + 1..])
  {
    RunOpensHead(c, lines);
    OpenedAndClosed(c, lines, k);
  }

  lemma ClosedBlockFirst(c: seq<seq<string>>, lines: seq<string>, k: nat)
    requires 1 <= k < |lines| && OpensBlock(lines[0]) && FirstClose(lines, 1) == Some(k)
    requires Run(Scan(c + [lines[..k + 1]], false, []), lines[k + 1..]).closed
      == c + [lines[..k + 1]] + ClosedOf(Parse(lines[k + 1..]))
    ensures Run(Scan(c, false, []), lines).closed == c + ClosedOf(Parse(lines))
  {
    RunOverClosedBlock(c, lines, k);
    ParseClosedHead(lines, k);
  }

  lemma DanglingBlock(c: seq<seq<string>>, lines: seq<string>)
    requires lines != [] && OpensBlock(lines[0]) && FirstClose(lines, 1).None?
    ensures Run(Scan(c, false, []), lines).closed == c + ClosedOf(Parse(lines))
  {
    forall m | 0 <= m < |lines[1..]| ensures !ClosesBlock(lines[1..][m]) {
      assert lines[1..][m] == lines[m + 1];
    }
    RunInsideNoClose(c, [lines[0]], lines[1..]);
    assert Parse(lines) == [Dangling(lines)];
  }

  lemma {:induction false} RunFromOutside(c: seq<seq<string>>, lines: seq<string>)
    ensures Run(Scan(c, false, []), lines).closed == c + ClosedOf(Parse(lines))
    decreases |lines|
  {
    if lines == [] {
    } else if !OpensBlock(lines[0]) {
      RunFromOutside(c, lines[1..]);
      OutsideLine(c, lines);
    } else {
      var fc := FirstClose(lines, 1);
      if fc.None? {
        DanglingBlock(c, lines);
      } else {
        var k := fc.value;
        RunFromOutside(c + [lines[..k + 1]], lines[k + 1..]);
        ClosedBlockFirst(c, lines, k);
      }
    }
  }

  /** The machine closes exactly the closed blocks of the parse, so lines
      outside blocks and a trailing unclosed block never reach the output. */
  lemma BlocksAreClosedPieces(lines: seq<string>)
    ensures Blocks(lines) == ClosedOf(Parse(lines))
  {
    RunFromOutside([], lines);
  }

  // ---------------------------------------------------------------------
  // Classification and the written file

  /** The blocks that `block_has_nsf_govt_interest` accepts, in input order. */
  function Retained(blocks: seq<seq<string>>, filename: string): (r: seq<seq<string>>)
    ensures |r| <= |blocks|
  {
    Filter(blocks, b => BlockHasNsfGovtInterest(b, filename) == Ok(true))
  }

  /** A block is retained exactly when it is one of the blocks and is
      classified as funded by the foundation. */
  lemma RetainedMembers(blocks: seq<seq<string>>, filename: string)
    ensures forall b :: b in Retained(blocks, filename) <==>
      b in blocks && BlockHasNsfGovtInterest(b, filename) == Ok(true)
  {
    FilterMembers(blocks, b => BlockHasNsfGovtInterest(b, filename) == Ok(true));
  }

  lemma RetainedAppend(a: seq<seq<string>>, b: seq<seq<string>>, filename: string)
    ensures Retained(a + b, filename) == Retained(a, filename) + Retained(b, filename)
  {
    FilterAppend(a, b, b => BlockHasNsfGovtInterest(b, filename) == Ok(true));
  }

  /** Writing out a retained block extends the output by that block. */
  lemma RetainedSnoc(closed: seq<seq<string>>, b: seq<string>, filename: string)
    requires BlockHasNsfGovtInterest(b, filename).Ok?
    ensures Flatten(Retained(closed + [b], filename))
      == Flatten(Retained(closed, filename)) + (if BlockHasNsfGovtInterest(b, filename).value then b else [])
  {
    RetainedAppend(closed, [b], filename);
    FlattenAppend(Retained(closed, filename), Retained([b], filename));
    assert Retained([b], filename) == (if BlockHasNsfGovtInterest(b, filename).value then [b] else []) + Retained([], filename);
  }

  /** The machine consumes one line. */
  lemma RunCons(st: Scan, lines: seq<string>, i: nat)
    requires i < |lines|
    ensures Run(st, lines[i..]) == Run(Step(st, lines[i]), lines[i + 1..])
  {
    assert lines[i..][1..] == lines[i + 1..];
  }

  /** The file `extract_file` writes, with the exception that stops it, if any.
      An empty input fails at the first `line_iter.next`, after the prologue.
      A file name naming neither kind fails at the first closed block. */
  method ExtractFile(input: seq<string>, extractName: string) returns (out: seq<string>, failure: Option<string>)
    ensures input == [] ==> out == Prologue && failure == Some(StopIterationMsg)
    ensures input != [] && (IsAppName(extractName) || IsGrantName(extractName)) ==>
      failure == None && out == Prologue + Flatten(Retained(Blocks(input), extractName)) + [RootClose]
    ensures input != [] && !IsAppName(extractName) && !IsGrantName(extractName) ==>
      if Blocks(input) == [] then failure == None && out == Prologue + [RootClose]
      else failure == Some(UnknownFileType(extractName)) && out == Prologue
  {
    out := Prologue;
    if input == [] {
      return out, Some(StopIterationMsg);
    }
    var currentBlockLines: seq<string> := [];
    var insideBlock := false;
    ghost var closed: seq<seq<string>> := [];
    var i := 0;
    // `begin ... end while !fin.eof?` over a non-empty input visits each line once
    while i < |input|
      invariant 0 <= i <= |input|
      invariant !insideBlock ==> currentBlockLines == []
      invariant Run(Start, input) == Run(Scan(closed, insideBlock, currentBlockLines), input[i..])
      invariant out == Prologue + Flatten(Retained(closed, extractName))
      invariant !IsAppName(extractName) && !IsGrantName(extractName) ==> closed == []
    {
      var line := input[i];
      ghost var before := Scan(closed, insideBlock, currentBlockLines);
      RunCons(before, input, i);
      if insideBlock {
        currentBlockLines := currentBlockLines + [line];
        if ClosesBlock(line) {
          var keep := BlockHasNsfGovtInterest(currentBlockLines, extractName);
          if keep.Err? {
            RunKeepsClosed(Step(before, line), input[i + 1..]);
            return out, Some(keep.msg);
          }
          RetainedSnoc(closed, currentBlockLines, extractName);
          ghost var written := Flatten(Retained(closed, extractName));
          if keep.value {
            ConcatAssoc(Prologue, written, currentBlockLines);
            out := out + currentBlockLines;
          } else {
            assert written + [] == written;
          }
          closed := closed + [currentBlockLines];
          currentBlockLines := [];
          insideBlock := false;
        }
        assert Scan(closed, insideBlock, currentBlockLines) == Step(before, line);
      } else if OpensBlock(line) {
        currentBlockLines := currentBlockLines + [line];
        insideBlock := true;
        assert Scan(closed, insideBlock, currentBlockLines) == Step(before, line);
      }
      i := i + 1;
    }
    out := out + [RootClose];
    failure := None;
  }
}
