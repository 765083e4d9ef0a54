/** Date ranges on the command line of processFile.rb (`FileRange`,
    `FileRangesHandler`): a keyword (`app`, `grant`, `both` or an alias)
    followed by a range token in one of three date grammars, and the
    expansion of each range into the archive identifiers of a directory
    listing whose six-digit date lies inside the range. */
module FileRanges {
  import opened Outcomes
  import opened Text
  import opened ArchiveNames

  /** `FileRange.app_key`, `grant_key`, `both_key`. */
  datatype Kind = App | Grant | Both

  function KindKey(k: Kind): string {
    match k
    case App => "app"
    case Grant => "grant"
    case Both => "both"
  }

  /** A range whose dates are `YYMMDD` strings; a three-digit year leaves a
      date nil. */
  datatype FileRange = FileRange(kind: Kind, fromDate: Option<string>, toDate: Option<string>)

  // ---------------------------------------------------------------------
  // The three grammars of FileRange.parse, each anchored to a whole line

  /** The named captures of a match: the year alone, or year, month and day. */
  datatype DateMatch = YearOnly(year: string) | FullDate(year: string, month: string, day: string)

  predicate TwoDigitsAt(l: string, i: nat) {
    i + 2 <= |l| && IsDigit(l[i]) && IsDigit(l[i + 1])
  }

  /** `^(?<year>\d{2,4})$` */
  function MatchYear(l: string): Option<DateMatch> {
    if 2 <= |l| <= 4 && AllDigits(l) then Some(YearOnly(l)) else None
  }

  /** `^(?<type>ip[ag])?(?<year>\d{2})(?<month>\d{2})(?<day>\d{2})(?:\..*)?$`:
      the optional type is taken when the line starts with it (a digit can
      never match its `i`), then six digits, then the end of the line or a dot. */
  function MatchFileName(l: string): Option<DateMatch> {
    var s := if |l| >= 3 && l[0] == 'i' && l[1] == 'p' && (l[2] == 'a' || l[2] == 'g') then 3 else 0;
    if TwoDigitsAt(l, s) && TwoDigitsAt(l, s + 2) && TwoDigitsAt(l, s + 4) && (|l| == s + 6 || l[s + 6] == '.')
    then Some(FullDate(l[s..s + 2], l[s + 2..s + 4], l[s + 4..s + 6]))
    else None
  }

  /** `^(?<month>\d{2})\/(?<day>\d{2})\/(?<year>\d{2})$` */
  function MatchSlashed(l: string): Option<DateMatch> {
    if |l| == 8 && TwoDigitsAt(l, 0) && l[2] == '/' && TwoDigitsAt(l, 3) && l[5] == '/' && TwoDigitsAt(l, 6)
    then Some(FullDate(l[6..8], l[0..2], l[3..5]))
    else None
  }

  /** Grammar number `g` (0, 1 or 2, in the order they are tried) on one line. */
  function MatchLine(l: string, g: nat): Option<DateMatch> {
    if g == 0 then MatchYear(l) else if g == 1 then MatchFileName(l) else MatchSlashed(l)
  }

  function FirstLineMatch(ls: seq<string>, g: nat): (r: Option<DateMatch>)
    ensures r.None? <==> forall i | 0 <= i < |ls| :: MatchLine(ls[i], g).None?
  {
    if ls == [] then None
    else if MatchLine(ls[0], g).Some? then MatchLine(ls[0], g)
    else FirstLineMatch(ls[1..], g)
  }

  /** `date.match regex`: the anchors are line anchors, so the match is the
      first line of the part that has the shape. */
  function MatchPart(part: string, g: nat): Option<DateMatch> {
    FirstLineMatch(Lines(part), g)
  }

  function AnyMatches(parts: seq<string>, g: nat): (b: bool)
    ensures b <==> exists i | 0 <= i < |parts| :: MatchPart(parts[i], g).Some?
    ensures b ==> |parts| >= 1
  {
    if parts == [] then false else MatchPart(parts[0], g).Some? || AnyMatches(parts[1..], g)
  }

  function AllMatch(parts: seq<string>, g: nat): (b: bool)
    ensures b <==> forall i | 0 <= i < |parts| :: MatchPart(parts[i], g).Some?
  {
    if parts == [] then true else MatchPart(parts[0], g).Some? && AllMatch(parts[1..], g)
  }

  /** The first grammar that at least one part matches (`unless matches.all?
      {|e| e.nil?}`), or nil when none does. */
  function ChooseGrammar(parts: seq<string>): (r: Option<nat>)
    ensures r.Some? ==> r.value <= 2 && AnyMatches(parts, r.value)
    ensures r.Some? ==> forall g | 0 <= g < r.value :: !AnyMatches(parts, g)
    ensures r.None? <==> !AnyMatches(parts, 0) && !AnyMatches(parts, 1) && !AnyMatches(parts, 2)
  {
    if AnyMatches(parts, 0) then Some(0)
    else if AnyMatches(parts, 1) then Some(1)
    else if AnyMatches(parts, 2) then Some(2)
    else None
  }

  /** `expand_year_to_formatted_date`: a four-digit year keeps its last two
      digits, a two-digit year becomes `YY0000` or `YY9999`, any other length
      gives nil. */
  function ExpandYear(year: string, up: bool): (r: Option<string>)
    ensures r.Some? <==> |year| == 2 || |year| == 4
    ensures r.Some? ==> |r.value| == 6 && r.value[..2] == year[|year| - 2..]
    ensures r.Some? ==> r.value[2..] == (if up then "9999" else "0000")
  {
    var y := if |year| == 4 then year[2..4] else year;
    var fill := if up then "99" else "00";
    if |y| == 2 then Some(y + fill + fill) else None
  }

  /** `format_date(year, month, day)` */
  function FormatDate(m: DateMatch): string {
    match m
    case YearOnly(y) => y
    case FullDate(y, mo, d) => y + mo + d
  }

  /** `FileRange.parse(arg, type)`. The parts are `arg.split "-"`. With the
      year grammar only the first part is inspected by the `any?` test, and
      the first and last parts give the year; with the other grammars every
      part must match. A part that did not match is nil and the method called
      on it raises. */
  function ParseRange(arg: string, kind: Kind): (r: Result<FileRange>)
    ensures var parts := RubySplit(arg, '-');
      ChooseGrammar(parts).None? ==> r.Err?
    ensures r.Ok? ==> r.value.kind == kind
  {
    var parts := RubySplit(arg, '-');
    match ChooseGrammar(parts)
    case None => Err("undefined method `any?' for nil")
    case Some(g) =>
      var first := MatchPart(parts[0], g);
      var last := MatchPart(parts[|parts| - 1], g);
      if g == 0 then
        if first.None? then Err("undefined method `captures' for nil")
        else if last.None? then Err("undefined method `[]' for nil")
        else Ok(FileRange(kind, ExpandYear(first.value.year, false), ExpandYear(last.value.year, true)))
      else if !AllMatch(parts, g) then Err("undefined method `captures' for nil")
      else
        assert first.Some? && last.Some?;
        Ok(FileRange(kind, Some(FormatDate(first.value)), Some(FormatDate(last.value))))
  }

  /** A range is parsed only when its first and last parts match the chosen
      grammar, and, beyond the year grammar, every part does. */
  lemma ParseRangeMatched(arg: string, kind: Kind)
    ensures ParseRange(arg, kind).Ok? ==> var parts := RubySplit(arg, '-');
      && ChooseGrammar(parts).Some?
      && MatchPart(parts[0], ChooseGrammar(parts).value).Some?
      && MatchPart(parts[|parts| - 1], ChooseGrammar(parts).value).Some?
      && (ChooseGrammar(parts) != Some(0) ==> AllMatch(parts, ChooseGrammar(parts).value))
  {
    var parts := RubySplit(arg, '-');
    match ChooseGrammar(parts)
    case None =>
    case Some(g) =>
      if g != 0 && AllMatch(parts, g) {
        assert MatchPart(parts[0], g).Some? && MatchPart(parts[|parts| - 1], g).Some?;
      }
  }

  // ---------------------------------------------------------------------
  // Parsing the documented token shapes

  predicate IsTwoDigits(s: string) {
    |s| == 2 && AllDigits(s)
  }

  lemma OneLinePart(part: string, g: nat)
    requires NoNewline(part)
    ensures MatchPart(part, g) == MatchLine(part, g)
  {
    LinesOfNewlineFree(part);
  }

  lemma ExcludesDash(s: string)
    requires forall i | 0 <= i < |s| :: IsDigit(s[i]) || s[i] == '/' || s[i] == 'i' || s[i] == 'p' || s[i] == 'a' || s[i] == 'g'
    ensures Excludes(s, '-') && NoNewline(s)
  {
  }

  /** `YY` gives the whole year `YY0000`..`YY9999`. */
  lemma ParseTwoDigitYear(yy: string, kind: Kind)
    requires IsTwoDigits(yy)
    ensures ParseRange(yy, kind) == Ok(FileRange(kind, Some(yy + "0000"), Some(yy + "9999")))
  {
    ExcludesDash(yy);
    SplitFree(yy, '-');
    assert RubySplit(yy, '-') == [yy];
    OneLinePart(yy, 0);
    assert AnyMatches([yy], 0);
    assert yy + "00" + "00" == yy + "0000" && yy + "99" + "99" == yy + "9999";
  }

  /** `CCYY` gives the same range as `YY`. */
  lemma ParseFourDigitYear(ccyy: string, kind: Kind)
    requires |ccyy| == 4 && AllDigits(ccyy)
    ensures ParseRange(ccyy, kind) == Ok(FileRange(kind, Some(ccyy[2..] + "0000"), Some(ccyy[2..] + "9999")))
  {
    ExcludesDash(ccyy);
    SplitFree(ccyy, '-');
    assert RubySplit(ccyy, '-') == [ccyy];
    OneLinePart(ccyy, 0);
    assert AnyMatches([ccyy], 0);
    var yy := ccyy[2..4];
    assert ccyy[2..] == yy;
    assert yy + "00" + "00" == yy + "0000" && yy + "99" + "99" == yy + "9999";
  }

  /** An archive identifier `ip[ag]YYMMDD`. */
  predicate IsArchiveId(s: string) {
    |s| == 9 && ArchiveIdAt(s, 0)
  }

  lemma ArchiveIdMatches(id: string)
    requires IsArchiveId(id)
    ensures Excludes(id, '-') && NoNewline(id)
    ensures MatchYear(id).None?
    ensures MatchFileName(id) == Some(FullDate(id[3..5], id[5..7], id[7..9]))
  {
    forall i | 3 <= i < 9 ensures IsDigit(id[i]) {
      assert id[i] == id[3..9][i - 3];
    }
    ExcludesDash(id);
  }

  lemma SplitArchiveIds(a: string, b: string)
    requires IsArchiveId(a) && IsArchiveId(b)
    ensures RubySplit(a + "-" + b, '-') == [a, b]
  {
    ArchiveIdMatches(a);
    ArchiveIdMatches(b);
    SplitPair(a, b, '-');
    assert a + "-" + b == a + ['-'] + b;
  }

  lemma ArchiveIdPart(id: string)
    requires IsArchiveId(id)
    ensures MatchPart(id, 0).None?
    ensures MatchPart(id, 1) == Some(FullDate(id[3..5], id[5..7], id[7..9]))
    ensures FormatDate(MatchPart(id, 1).value) == id[3..9]
  {
    ArchiveIdMatches(id);
    OneLinePart(id, 0);
    OneLinePart(id, 1);
    assert id[3..5] + id[5..7] + id[7..9] == id[3..9];
  }

  /** `ipaYYMMDD-ipaYYMMDD` gives the two dates as written. */
  lemma ParseArchiveIdRange(a: string, b: string, kind: Kind)
    requires IsArchiveId(a) && IsArchiveId(b)
    ensures ParseRange(a + "-" + b, kind) == Ok(FileRange(kind, Some(a[3..9]), Some(b[3..9])))
  {
    SplitArchiveIds(a, b);
    ArchiveIdPart(a);
    ArchiveIdPart(b);
    var parts := [a, b];
    assert !AnyMatches(parts, 0);
    assert AllMatch(parts, 1);
    assert ChooseGrammar(parts) == Some(1);
  }

  lemma SlashedPart(mm: string, dd: string, yy: string)
    requires IsTwoDigits(mm) && IsTwoDigits(dd) && IsTwoDigits(yy)
    ensures var t := mm + "/" + dd + "/" + yy;
      && RubySplit(t, '-') == [t]
      && MatchPart(t, 0).None? && MatchPart(t, 1).None?
      && MatchPart(t, 2) == Some(FullDate(yy, mm, dd))
  {
    var t := mm + "/" + dd + "/" + yy;
    assert t[0..2] == mm && t[3..5] == dd && t[6..8] == yy;
    ExcludesDash(t);
    SplitFree(t, '-');
    OneLinePart(t, 0);
    OneLinePart(t, 1);
    OneLinePart(t, 2);
    assert !IsDigit(t[2]);
  }

  /** `MM/DD/YY` gives the single day `YYMMDD`. */
  lemma ParseSlashedDate(mm: string, dd: string, yy: string, kind: Kind)
    requires IsTwoDigits(mm) && IsTwoDigits(dd) && IsTwoDigits(yy)
    ensures ParseRange(mm + "/" + dd + "/" + yy, kind)
      == Ok(FileRange(kind, Some(yy + mm + dd), Some(yy + mm + dd)))
  {
    var t := mm + "/" + dd + "/" + yy;
    SlashedPart(mm, dd, yy);
    assert !AnyMatches([t], 0) && !AnyMatches([t], 1);
    assert AllMatch([t], 2);
    assert ChooseGrammar([t]) == Some(2);
  }

  /** A year and an archive identifier cannot form a range, in either order. */
  lemma MixedGrammarsFail(yy: string, id: string, kind: Kind)
    requires IsTwoDigits(yy) && IsArchiveId(id)
    ensures ParseRange(yy + "-" + id, kind).Err?
    ensures ParseRange(id + "-" + yy, kind).Err?
  {
    ExcludesDash(yy);
    ArchiveIdMatches(id);
    OneLinePart(yy, 0);
    OneLinePart(id, 0);
    SplitPair(yy, id, '-');
    SplitPair(id, yy, '-');
    assert yy + "-" + id == yy + ['-'] + id;
    assert id + "-" + yy == id + ['-'] + yy;
    assert RubySplit(yy + "-" + id, '-') == [yy, id];
    assert RubySplit(id + "-" + yy, '-') == [id, yy];
    assert AnyMatches([yy, id], 0);
    assert AnyMatches([id, yy], 0);
  }

  // ---------------------------------------------------------------------
  // Results of sequences built front to back

  /** `Ok(pre) ++ r`: an error stays an error, a result is appended to `pre`. */
  function After<T>(pre: seq<T>, r: Result<seq<T>>): Result<seq<T>> {
    match r
    case Err(m) => Err(m)
    case Ok(v) => Ok(pre + v)
  }

  lemma AfterNothing<T>(r: Result<seq<T>>)
    ensures After([], r) == r
  {
    if r.Ok? {
      assert [] + r.value == r.value;
    }
  }

  lemma AfterNothingRight<T>(c: Result<seq<T>>)
    ensures Then(c, Ok([])) == c
  {
    if c.Ok? {
      assert c.value + [] == c.value;
    }
  }

  lemma AfterAssoc<T>(a: seq<T>, b: seq<T>, r: Result<seq<T>>)
    ensures After(a, After(b, r)) == After(a + b, r)
  {
    if r.Ok? {
      assert a + (b + r.value) == a + b + r.value;
    }
  }

  // ---------------------------------------------------------------------
  // get_ranges: keyword-driven tokenising

  /** The keyword an argument names, compared after `downcase`. */
  function KeywordOf(arg: string): Option<Kind> {
    var w := Lower(arg);
    if w == "grant" || w == "ipg" then Some(Grant)
    else if w == "app" || w == "ipa" then Some(App)
    else if w == "both" then Some(Both)
    else None
  }

  function TokenError(arg: string, kind: Kind): string {
    "Token '" + arg + "' following keyword '" + KindKey(kind) + "' could not be parsed as a range"
  }

  /** The ranges read from `args` when the pending keyword is `keyword`. */
  function RangesFrom(args: seq<string>, keyword: Option<Kind>): (r: Result<seq<FileRange>>)
    ensures r.Ok? ==> |r.value| <= |args|
    decreases |args|
  {
    if args == [] then Ok([])
    else match keyword
      case Some(k) =>
        (match ParseRange(args[0], k)
         case Err(_) => Err(TokenError(args[0], k))
         case Ok(fr) =>
           var rest :- RangesFrom(args[1..], None);
           Ok([fr] + rest))
      case None => RangesFrom(args[1..], KeywordOf(args[0]))
  }

  /** The keyword pending when the walk reaches argument `i`: the one named
      by the argument before it, unless that argument was itself consumed
      as a range. */
  function PendingAt(args: seq<string>, i: nat): Option<Kind>
    requires i <= |args|
  {
    if i == 0 then None
    else if PendingAt(args, i - 1).Some? then None
    else KeywordOf(args[i - 1])
  }

  /** Argument `i` directly follows a keyword that is not itself consumed:
      it is read as a range. */
  predicate Armed(args: seq<string>, i: nat)
    requires i < |args|
  {
    PendingAt(args, i).Some?
  }

  /** Reading an armed argument: its range, or the error naming it and its
      keyword. */
  function ReadToken(arg: string, k: Kind): (r: Result<FileRange>)
    ensures r.Ok? <==> ParseRange(arg, k).Ok?
    ensures r.Ok? ==> r == ParseRange(arg, k)
    ensures r.Err? ==> r.msg == TokenError(arg, k)
  {
    match ParseRange(arg, k)
    case Err(_) => Err(TokenError(arg, k))
    case Ok(fr) => Ok(fr)
  }

  /** The walk of `get_ranges` with the reading of an armed argument left
      as a parameter; `RangesFrom` is this walk with `ReadToken`. */
  function Walk(read: (string, Kind) -> Result<FileRange>, args: seq<string>, keyword: Option<Kind>): Result<seq<FileRange>>
    decreases |args|
  {
    if args == [] then Ok([])
    else match keyword
      case Some(k) =>
        (var fr :- read(args[0], k);
         var rest :- Walk(read, args[1..], None);
         Ok([fr] + rest))
      case None => Walk(read, args[1..], KeywordOf(args[0]))
  }

  lemma {:induction false} RangesFromIsWalk(args: seq<string>, keyword: Option<Kind>)
    ensures RangesFrom(args, keyword) == Walk(ReadToken, args, keyword)
    decreases |args|
  {
    if args != [] {
      RangesFromIsWalk(args[1..], None);
      RangesFromIsWalk(args[1..], KeywordOf(args[0]));
    }
  }

  /** Which arguments are armed. */
  function ArmedAt(args: seq<string>): nat -> bool {
    (i: nat) => i < |args| && Armed(args, i)
  }

  /** Reading each argument as armed. */
  function ReadingAt(read: (string, Kind) -> Result<FileRange>, args: seq<string>): nat -> Result<FileRange> {
    (i: nat) => if i < |args| && Armed(args, i) then read(args[i], PendingAt(args, i).value) else Err("")
  }

  /** The readings of the armed arguments among the first `n`, in order. */
  function ArmedReadings(read: (string, Kind) -> Result<FileRange>, args: seq<string>, n: nat): seq<Result<FileRange>>
    requires n <= |args|
  {
    Picked(ArmedAt(args), ReadingAt(read, args), n)
  }

  /** `Then(c, r)`: `r` after the values `c` has collected, or `c`'s error. */
  function Then<T>(c: Result<seq<T>>, r: Result<seq<T>>): Result<seq<T>> {
    if c.Err? then Err(c.msg) else After(c.value, r)
  }

  /** An armed argument: its reading is collected and the walk goes on
      with no pending keyword. */
  lemma ArmedStep(read: (string, Kind) -> Result<FileRange>, args: seq<string>, i: nat)
    requires i < |args| && Armed(args, i)
    ensures Then(Collect(ArmedReadings(read, args, i)), Walk(read, args[i..], PendingAt(args, i)))
      == Then(Collect(ArmedReadings(read, args, i + 1)), Walk(read, args[i + 1..], PendingAt(args, i + 1)))
  {
    var us := ArmedReadings(read, args, i);
    var k := PendingAt(args, i).value;
    var t := read(args[i], k);
    assert ArmedAt(args)(i) && ReadingAt(read, args)(i) == t;
    assert ArmedReadings(read, args, i + 1) == us + [t];
    assert PendingAt(args, i + 1) == None;
    assert args[i..][0] == args[i] && args[i..][1..] == args[i + 1..];
    var tail := Walk(read, args[i + 1..], None);
    assert Walk(read, args[i..], Some(k)) == if t.Err? then Err(t.msg) else After([t.value], tail);
    CollectSnoc(us, t);
    if Collect(us).Ok? && t.Ok? {
      AfterAssoc(Collect(us).value, [t.value], tail);
    }
  }

  /** An argument that is not armed: nothing is collected and it decides
      the pending keyword. */
  lemma UnarmedStep(read: (string, Kind) -> Result<FileRange>, args: seq<string>, i: nat)
    requires i < |args| && !Armed(args, i)
    ensures ArmedReadings(read, args, i + 1) == ArmedReadings(read, args, i)
    ensures Walk(read, args[i..], PendingAt(args, i)) == Walk(read, args[i + 1..], PendingAt(args, i + 1))
  {
    assert ArmedReadings(read, args, i + 1) == ArmedReadings(read, args, i) + [];
    assert PendingAt(args, i) == None && PendingAt(args, i + 1) == KeywordOf(args[i]);
    var rest := args[i..];
    assert rest != [] && rest[0] == args[i] && rest[1..] == args[i + 1..];
  }

  lemma ArmedDone(read: (string, Kind) -> Result<FileRange>, args: seq<string>)
    ensures Collect(ArmedReadings(read, args, |args|))
      == Then(Collect(ArmedReadings(read, args, |args|)), Walk(read, args[|args|..], PendingAt(args, |args|)))
  {
    assert args[|args|..] == [];
    AfterNothingRight(Collect(ArmedReadings(read, args, |args|)));
  }

  lemma {:induction false} ArmedSuffix(read: (string, Kind) -> Result<FileRange>, args: seq<string>, i: nat)
    requires i <= |args|
    ensures Collect(ArmedReadings(read, args, |args|))
      == Then(Collect(ArmedReadings(read, args, i)), Walk(read, args[i..], PendingAt(args, i)))
    decreases |args| - i
  {
    if i == |args| {
      ArmedDone(read, args);
    } else {
      ArmedSuffix(read, args, i + 1);
      if Armed(args, i) {
        ArmedStep(read, args, i);
      } else {
        UnarmedStep(read, args, i);
      }
    }
  }

  /** `get_ranges` reads exactly the armed arguments, in order: it succeeds
      exactly when each of them parses, with their ranges; otherwise it
      fails with the error naming the first armed argument that does not
      parse. */
  lemma RangesAreArmedReadings(args: seq<string>)
    ensures RangesFrom(args, None) == Collect(ArmedReadings(ReadToken, args, |args|))
  {
    RangesFromIsWalk(args, None);
    ArmedSuffix(ReadToken, args, 0);
    assert args[0..] == args;
    AfterNothing(Walk(ReadToken, args, None));
  }

  /** `get_ranges` succeeds exactly when every armed argument parses as a
      range of its keyword's kind; otherwise it reports the first armed
      argument that does not. */
  lemma RangesFromArmed(args: seq<string>)
    ensures RangesFrom(args, None).Ok?
      <==> forall i | 0 <= i < |args| && Armed(args, i) :: ParseRange(args[i], PendingAt(args, i).value).Ok?
    ensures RangesFrom(args, None).Err? ==> exists i | 0 <= i < |args| && Armed(args, i) ::
      && ParseRange(args[i], PendingAt(args, i).value).Err?
      && RangesFrom(args, None).msg == TokenError(args[i], PendingAt(args, i).value)
      && forall j | 0 <= j < i && Armed(args, j) :: ParseRange(args[j], PendingAt(args, j).value).Ok?
  {
    RangesAreArmedReadings(args);
    ArmedReadingsOk(ReadToken, args);
    forall i | 0 <= i < |args| && Armed(args, i)
      ensures ReadToken(args[i], PendingAt(args, i).value).Ok? <==> ParseRange(args[i], PendingAt(args, i).value).Ok?
    {
    }
    if RangesFrom(args, None).Err? {
      var i := ArmedFirstError(ReadToken, args);
      assert ReadToken(args[i], PendingAt(args, i).value).Err?;
    }
  }

  /** The collected readings succeed exactly when every armed argument's
      reading does. */
  lemma ArmedReadingsOk(read: (string, Kind) -> Result<FileRange>, args: seq<string>)
    ensures Collect(ArmedReadings(read, args, |args|)).Ok?
      <==> forall i | 0 <= i < |args| && Armed(args, i) :: read(args[i], PendingAt(args, i).value).Ok?
  {
    PickedOk(ArmedAt(args), ReadingAt(read, args), |args|);
    forall i | 0 <= i < |args|
      ensures ArmedAt(args)(i) <==> Armed(args, i)
      ensures Armed(args, i) ==> ReadingAt(read, args)(i) == read(args[i], PendingAt(args, i).value)
    {
    }
  }

  /** A failed collection carries the error of the first armed argument
      whose reading fails. */
  lemma ArmedFirstError(read: (string, Kind) -> Result<FileRange>, args: seq<string>) returns (i: nat)
    requires Collect(ArmedReadings(read, args, |args|)).Err?
    ensures i < |args| && Armed(args, i)
    ensures read(args[i], PendingAt(args, i).value).Err?
    ensures Collect(ArmedReadings(read, args, |args|)).msg == read(args[i], PendingAt(args, i).value).msg
    ensures forall j | 0 <= j < i && Armed(args, j) :: read(args[j], PendingAt(args, j).value).Ok?
  {
    i := PickedFirstError(ArmedAt(args), ReadingAt(read, args), |args|);
    assert ArmedAt(args)(i) && ReadingAt(read, args)(i) == read(args[i], PendingAt(args, i).value);
    forall j | 0 <= j < i && Armed(args, j)
      ensures read(args[j], PendingAt(args, j).value).Ok?
    {
      assert ArmedAt(args)(j) && ReadingAt(read, args)(j) == read(args[j], PendingAt(args, j).value);
    }
  }

  /** `fr` is the parse of an argument of `args` that directly follows a
      keyword, with that keyword's kind. */
  ghost predicate FollowsKeyword(args: seq<string>, fr: FileRange) {
    exists i | 0 <= i < |args| - 1 :: KeywordOf(args[i]).Some? && ParseRange(args[i + 1], KeywordOf(args[i]).value) == Ok(fr)
  }

  lemma FollowsKeywordCons(args: seq<string>, fr: FileRange)
    requires args != [] && FollowsKeyword(args[1..], fr)
    ensures FollowsKeyword(args, fr)
  {
    var tail := args[1..];
    var i :| 0 <= i < |tail| - 1 && KeywordOf(tail[i]).Some? && ParseRange(tail[i + 1], KeywordOf(tail[i]).value) == Ok(fr);
    var k := i + 1;
    assert tail[i] == args[k] && tail[i + 1] == args[k + 1];
    assert 0 <= k < |args| - 1 && KeywordOf(args[k]).Some? && ParseRange(args[k + 1], KeywordOf(args[k]).value) == Ok(fr);
  }

  /** Every range is the parse of the argument right after a keyword, with
      that keyword's kind. */
  lemma {:induction false} RangesFollowKeywords(args: seq<string>, keyword: Option<Kind>)
    requires RangesFrom(args, keyword).Ok?
    ensures forall fr | fr in RangesFrom(args, keyword).value ::
      || (keyword.Some? && args != [] && ParseRange(args[0], keyword.value) == Ok(fr))
      || FollowsKeyword(args, fr)
    decreases |args|
  {
    if args != [] {
      var tail := args[1..];
      var next := if keyword.Some? then None else KeywordOf(args[0]);
      RangesFollowKeywords(tail, next);
      var rest := RangesFrom(tail, next).value;
      if keyword.Some? {
        var first := ParseRange(args[0], keyword.value).value;
        assert RangesFrom(args, keyword).value == [first] + rest;
        forall fr | fr in rest ensures FollowsKeyword(args, fr) {
          FollowsKeywordCons(args, fr);
        }
      } else {
        assert RangesFrom(args, keyword).value == rest;
        forall fr | fr in rest
          ensures FollowsKeyword(args, fr)
        {
          if next.Some? && ParseRange(args[1], next.value) == Ok(fr) {
            assert 0 < |args| - 1;
          } else {
            FollowsKeywordCons(args, fr);
          }
        }
      }
    }
  }

  /** `get_ranges(args)`: a keyword arms the next argument, which is parsed as
      a range of the keyword's kind; any other argument is skipped. A token
      that fails to parse aborts with an error naming it and the keyword. */
  method GetRanges(args: seq<string>) returns (r: Result<seq<FileRange>>)
    ensures r == RangesFrom(args, None)
  {
    var currKeyword: Option<Kind> := None;
    var fileargs: seq<FileRange> := [];
    var i := 0;
    assert args[0..] == args;
    AfterNothing(RangesFrom(args, None));
    while i < |args|
      invariant 0 <= i <= |args|
      invariant RangesFrom(args, None) == After(fileargs, RangesFrom(args[i..], currKeyword))
    {
      var arg := args[i];
      assert args[i..][1..] == args[i + 1..];
      if currKeyword.Some? {
        var fr := ParseRange(arg, currKeyword.value);
        if fr.Err? {
          return Err(TokenError(arg, currKeyword.value));
        }
        AfterAssoc(fileargs, [fr.value], RangesFrom(args[i + 1..], None));
        fileargs := fileargs + [fr.value];
        currKeyword := None;
      } else {
        currKeyword := KeywordOf(arg);
      }
      i := i + 1;
    }
    assert args[i..] == [];
    assert fileargs + [] == fileargs;
    return Ok(fileargs);
  }

  // ---------------------------------------------------------------------
  // get_ptypes_present and the fixed app-then-grant order

  predicate NeedsApps(fr: FileRange) {
    fr.kind == App || fr.kind == Both
  }

  predicate NeedsGrants(fr: FileRange) {
    fr.kind == Grant || fr.kind == Both
  }

  /** `get_ptypes_present(ranges)`: `"app"` is present exactly when some range
      needs applications, `"grant"` exactly when some range needs grants. */
  method GetPtypesPresent(ranges: seq<FileRange>) returns (types: seq<string>)
    ensures "app" in types <==> exists i | 0 <= i < |ranges| :: NeedsApps(ranges[i])
    ensures "grant" in types <==> exists i | 0 <= i < |ranges| :: NeedsGrants(ranges[i])
    ensures forall t | t in types :: t == "app" || t == "grant"
  {
    types := [];
    var foundIpa, foundIpg := false, false;
    var i := 0;
    while i < |ranges|
      invariant 0 <= i <= |ranges|
      invariant foundIpa <==> exists j | 0 <= j < i :: NeedsApps(ranges[j])
      invariant foundIpg <==> exists j | 0 <= j < i :: NeedsGrants(ranges[j])
      invariant "app" in types <==> foundIpa
      invariant "grant" in types <==> foundIpg
      invariant forall t | t in types :: t == "app" || t == "grant"
    {
      var fa := ranges[i];
      if fa.kind == App {
        foundIpa := true;
        types := types + ["app"];
      } else if fa.kind == Grant {
        foundIpg := true;
        types := types + ["grant"];
      } else {
        foundIpa, foundIpg := true, true;
        types := [KindKey(App), KindKey(Grant)];
      }
      i := i + 1;
      if foundIpa && foundIpg {
        break;
      }
    }
    if i < |ranges| {
      assert NeedsApps(ranges[i - 1]) || exists j | 0 <= j < i :: NeedsApps(ranges[j]);
    }
  }

  /** The two listings, application first, each filtered to archive links;
      nil for a kind no range needs. `fetch` stands for fetching the listing
      page and collecting its link targets; with no page for the preference
      the nil URL is rejected. */
  function AutoExtract(types: seq<string>, serverPreference: string, fetch: string -> seq<string>)
    : (r: Result<(Option<seq<string>>, Option<seq<string>>)>)
    ensures r.Ok? ==> (r.value.0.Some? <==> "app" in types) && (r.value.1.Some? <==> "grant" in types)
    ensures r.Ok? ==> forall h | (r.value.0.Some? && h in r.value.0.value) || (r.value.1.Some? && h in r.value.1.value)
      :: IsArchiveHref(h)
    ensures r.Err? <==> ("app" in types || "grant" in types) && ListingPages(serverPreference).None?
    ensures r.Ok? && "app" in types ==>
      DirectoryUrl("app", serverPreference).Some?
      && r.value.0 == Some(FilterHrefs(fetch(DirectoryUrl("app", serverPreference).value)))
    ensures r.Ok? && "grant" in types ==>
      DirectoryUrl("grant", serverPreference).Some?
      && r.value.1 == Some(FilterHrefs(fetch(DirectoryUrl("grant", serverPreference).value)))
  {
    var apps :- if "app" in types then ListingFor("app", serverPreference, fetch) else Ok(None);
    var grants :- if "grant" in types then ListingFor("grant", serverPreference, fetch) else Ok(None);
    Ok((apps, grants))
  }

  function ListingFor(patentType: string, serverPreference: string, fetch: string -> seq<string>)
    : (r: Result<Option<seq<string>>>)
    requires patentType == "app" || patentType == "grant"
    ensures r.Ok? <==> ListingPages(serverPreference).Some?
    ensures r.Ok? ==> r.value.Some? && forall h | h in r.value.value :: IsArchiveHref(h)
    ensures r.Ok? ==>
      DirectoryUrl(patentType, serverPreference).Some?
      && r.value == Some(FilterHrefs(fetch(DirectoryUrl(patentType, serverPreference).value)))
  {
    LinesOfNewlineFree(patentType);
    match DirectoryUrl(patentType, serverPreference)
    case None => Err("bad argument (expected URI object or URI string)")
    case Some(url) => Ok(Some(FilterHrefs(fetch(url))))
  }

  // ---------------------------------------------------------------------
  // expand_ranges

  /** The listing a range reads: applications, grants, or both concatenated. */
  function ListingOf(kind: Kind, apps: Option<seq<string>>, grants: Option<seq<string>>): Result<seq<string>> {
    match kind
    case App => if apps.Some? then Ok(apps.value) else Err("undefined method `each' for nil")
    case Grant => if grants.Some? then Ok(grants.value) else Err("undefined method `each' for nil")
    case Both =>
      if apps.None? then Err("undefined method `+' for nil")
      else if grants.None? then Err("no implicit conversion of nil into Array")
      else Ok(apps.value + grants.value)
  }

  /** The bound a range date stands for; a nil date or one without six digits
      cannot be compared. */
  function Bound(date: Option<string>): Result<nat> {
    if date.None? then Err("undefined method `match' for nil")
    else match GetDateInt(date.value)
      case None => Err("comparison of Integer with nil failed")
      case Some(v) => Ok(v)
  }

  /** One listing entry against one range: `date >= from && date <= to`,
      short-circuited, then the entry is trimmed to its archive identifier. */
  function KeepEntry(entry: string, fr: FileRange): (r: Result<Option<string>>)
    ensures r.Ok? && r.value.Some? ==> IsArchiveId(r.value.value)
    ensures r.Ok? && r.value.Some? ==> && GetDateInt(entry).Some? && Bound(fr.fromDate).Ok? && Bound(fr.toDate).Ok?
                                       && Bound(fr.fromDate).value <= GetDateInt(entry).value <= Bound(fr.toDate).value
                                       && ArchiveId(entry) == r.value
  {
    var lo := Bound(fr.fromDate);
    match GetDateInt(entry)
    case None => Err("undefined method `>=' for nil")
    case Some(date) =>
      if lo.Err? then Err(lo.msg)
      else if !(date >= lo.value) then Ok(None)
      else
        var hi :- Bound(fr.toDate);
        if !(date <= hi) then Ok(None)
        else match ArchiveId(entry)
          case None => Err("undefined method `[]' for nil")
          case Some(id) => Ok(Some(id))
  }

  /** The identifiers one range keeps from its listing, in listing order. */
  function SelectFrom(listing: seq<string>, fr: FileRange): (r: Result<seq<string>>)
    ensures r.Ok? ==> |r.value| <= |listing| && forall x | x in r.value :: IsArchiveId(x)
  {
    if listing == [] then Ok([])
    else
      var head :- KeepEntry(listing[0], fr);
      var rest :- SelectFrom(listing[1..], fr);
      Ok((if head.Some? then [head.value] else []) + rest)
  }

  /** All ranges in order, each contributing its selection in listing order. */
  function ExpandAll(ranges: seq<FileRange>, apps: Option<seq<string>>, grants: Option<seq<string>>)
    : (r: Result<seq<string>>)
    ensures r.Ok? ==> forall x | x in r.value :: IsArchiveId(x)
  {
    if ranges == [] then Ok([])
    else
      var listing :- ListingOf(ranges[0].kind, apps, grants);
      var here :- SelectFrom(listing, ranges[0]);
      var rest :- ExpandAll(ranges[1..], apps, grants);
      Ok(here + rest)
  }

  /** The inner loop of `expand_ranges`: walk one range's listing and push
      onto `filenames` the identifier of every entry whose date lies in the
      range. */
  method PushSelected(filenames: seq<string>, listing: seq<string>, range: FileRange)
    returns (r: Result<seq<string>>)
    ensures r == After(filenames, SelectFrom(listing, range))
  {
    var pushed := filenames;
    ghost var added: seq<string> := [];
    var j := 0;
    assert listing[0..] == listing;
    AfterNothing(SelectFrom(listing, range));
    while j < |listing|
      invariant 0 <= j <= |listing| && pushed == filenames + added
      invariant SelectFrom(listing, range) == After(added, SelectFrom(listing[j..], range))
    {
      assert listing[j..][1..] == listing[j + 1..];
      var keep := KeepEntry(listing[j], range);
      if keep.Err? {
        return Err(keep.msg);
      }
      ghost var step := if keep.value.Some? then [keep.value.value] else [];
      AfterAssoc(added, step, SelectFrom(listing[j + 1..], range));
      if keep.value.Some? {
        pushed := pushed + [keep.value.value];
      }
      ConcatAssoc(filenames, added, step);
      added := added + step;
      j := j + 1;
    }
    assert listing[j..] == [];
    assert added + [] == added;
    return Ok(pushed);
  }

  /** `expand_ranges(ranges, ...)` once the two listings are known: for each
      range, for each entry of its listing, push the entry's identifier when
      its date lies in the range. */
  method ExpandRanges(ranges: seq<FileRange>, apps: Option<seq<string>>, grants: Option<seq<string>>)
    returns (r: Result<seq<string>>)
    ensures r == ExpandAll(ranges, apps, grants)
  {
    var filenames: seq<string> := [];
    var i := 0;
    assert ranges[0..] == ranges;
    AfterNothing(ExpandAll(ranges, apps, grants));
    while i < |ranges|
      invariant 0 <= i <= |ranges|
      invariant ExpandAll(ranges, apps, grants) == After(filenames, ExpandAll(ranges[i..], apps, grants))
    {
      var range := ranges[i];
      assert ranges[i..][1..] == ranges[i + 1..];
      var aliased := ListingOf(range.kind, apps, grants);
      if aliased.Err? {
        return Err(aliased.msg);
      }
      var pushed := PushSelected(filenames, aliased.value, range);
      if pushed.Err? {
        return Err(pushed.msg);
      }
      var here := SelectFrom(aliased.value, range).value;
      AfterAssoc(filenames, here, ExpandAll(ranges[i + 1..], apps, grants));
      filenames := pushed.value;
      i := i + 1;
    }
    assert ranges[i..] == [];
    assert filenames + [] == filenames;
    return Ok(filenames);
  }

  // ---------------------------------------------------------------------
  // What expand_ranges keeps

  /** Whether an entry's date lies in `[lo, hi]`. */
  predicate InWindow(entry: string, lo: nat, hi: nat) {
    GetDateInt(entry).Some? && lo <= GetDateInt(entry).value <= hi
  }

  /** An archive link is kept exactly when its date lies in the range, and
      then as its identifier. */
  lemma KeepArchiveHref(e: string, fr: FileRange)
    requires Bound(fr.fromDate).Ok? && Bound(fr.toDate).Ok? && IsArchiveHref(e)
    ensures var keep := KeepEntry(e, fr);
      && keep.Ok?
      && (keep.value.Some? <==> InWindow(e, Bound(fr.fromDate).value, Bound(fr.toDate).value))
      && (keep.value.Some? ==> ArchiveId(e) == keep.value)
  {
    ArchiveHrefHasId(e);
    ArchiveHrefFromWitness(e, 0);
    var w :| 0 <= w && ArchiveHrefAt(e, w);
    assert SixDigitsAt(e, w + 3) by {
      assert e[w + 3..w + 9] == e[w + 3..w + 9];
    }
    assert GetDateInt(e).Some?;
  }

  /** Some entry of `listing` lies in the window and has the identifier `x`. */
  ghost predicate InWindowWithId(listing: seq<string>, lo: nat, hi: nat, x: string) {
    exists k | 0 <= k < |listing| :: InWindow(listing[k], lo, hi) && ArchiveId(listing[k]) == Some(x)
  }

  /** Such an entry is the first one or one of the rest. */
  lemma InWindowWithIdCons(listing: seq<string>, lo: nat, hi: nat, x: string)
    requires listing != []
    ensures InWindowWithId(listing, lo, hi, x)
      <==> (InWindow(listing[0], lo, hi) && ArchiveId(listing[0]) == Some(x)) || InWindowWithId(listing[1..], lo, hi, x)
  {
    var tail := listing[1..];
    if InWindowWithId(tail, lo, hi, x) {
      var k :| 0 <= k < |tail| && InWindow(tail[k], lo, hi) && ArchiveId(tail[k]) == Some(x);
      assert listing[k + 1] == tail[k];
    }
    if InWindowWithId(listing, lo, hi, x) {
      var k :| 0 <= k < |listing| && InWindow(listing[k], lo, hi) && ArchiveId(listing[k]) == Some(x);
      if k > 0 {
        assert tail[k - 1] == listing[k];
      }
    }
  }

  /** For a range with both bounds and a listing of archive links, the
      selection succeeds and holds exactly the identifiers of the entries
      whose date lies in the range, inclusive at both ends, in listing order. */
  lemma {:induction false} SelectInclusive(listing: seq<string>, fr: FileRange)
    requires Bound(fr.fromDate).Ok? && Bound(fr.toDate).Ok?
    requires forall h | h in listing :: IsArchiveHref(h)
    ensures SelectFrom(listing, fr).Ok?
    ensures forall x :: x in SelectFrom(listing, fr).value <==>
      InWindowWithId(listing, Bound(fr.fromDate).value, Bound(fr.toDate).value, x)
  {
    if listing != [] {
      var lo, hi := Bound(fr.fromDate).value, Bound(fr.toDate).value;
      var e := listing[0];
      KeepArchiveHref(e, fr);
      SelectInclusive(listing[1..], fr);
      var head := KeepEntry(e, fr).value;
      var rest := SelectFrom(listing[1..], fr).value;
      assert SelectFrom(listing, fr).value == (if head.Some? then [head.value] else []) + rest;
      forall x
        ensures x in SelectFrom(listing, fr).value <==> InWindowWithId(listing, lo, hi, x)
      {
        InWindowWithIdCons(listing, lo, hi, x);
      }
    }
  }

  /** For a range with both bounds and a listing of archive links, the
      selection pushes one identifier per in-window entry, in listing order:
      an entry listed twice is selected twice. */
  lemma {:induction false} SelectInListingOrder(listing: seq<string>, fr: FileRange)
    requires Bound(fr.fromDate).Ok? && Bound(fr.toDate).Ok?
    requires forall h | h in listing :: IsArchiveHref(h)
    ensures var lo, hi := Bound(fr.fromDate).value, Bound(fr.toDate).value;
      var kept := Filter(listing, e => InWindow(e, lo, hi));
      && SelectFrom(listing, fr).Ok?
      && |SelectFrom(listing, fr).value| == |kept|
      && forall k | 0 <= k < |kept| :: ArchiveId(kept[k]) == Some(SelectFrom(listing, fr).value[k])
  {
    if listing != [] {
      var lo, hi := Bound(fr.fromDate).value, Bound(fr.toDate).value;
      var inWindow := e => InWindow(e, lo, hi);
      var e := listing[0];
      KeepArchiveHref(e, fr);
      SelectInListingOrder(listing[1..], fr);
      var head := KeepEntry(e, fr).value;
      var rest := SelectFrom(listing[1..], fr).value;
      var keptRest := Filter(listing[1..], inWindow);
      assert SelectFrom(listing, fr).value == (if head.Some? then [head.value] else []) + rest;
      assert Filter(listing, inWindow) == (if inWindow(e) then [e] else []) + keptRest;
    }
  }

  /** Every kind a range reads has a listing when the listings were fetched
      for the kinds `get_ptypes_present` reports, so `expand_ranges` never
      meets a nil listing. */
  lemma PresentTypesCoverRanges(ranges: seq<FileRange>, types: seq<string>, apps: Option<seq<string>>, grants: Option<seq<string>>)
    requires "app" in types <==> exists i | 0 <= i < |ranges| :: NeedsApps(ranges[i])
    requires "grant" in types <==> exists i | 0 <= i < |ranges| :: NeedsGrants(ranges[i])
    requires (apps.Some? <==> "app" in types) && (grants.Some? <==> "grant" in types)
    ensures forall i | 0 <= i < |ranges| :: ListingOf(ranges[i].kind, apps, grants).Ok?
  {
    forall i | 0 <= i < |ranges| ensures ListingOf(ranges[i].kind, apps, grants).Ok? {
      if NeedsApps(ranges[i]) { assert apps.Some?; }
      if NeedsGrants(ranges[i]) { assert grants.Some?; }
    }
  }

  /** The kinds of listing the ranges need, application first. */
  function PresentTypes(ranges: seq<FileRange>): (types: seq<string>)
    ensures "app" in types <==> exists i | 0 <= i < |ranges| :: NeedsApps(ranges[i])
    ensures "grant" in types <==> exists i | 0 <= i < |ranges| :: NeedsGrants(ranges[i])
  {
    (if exists i | 0 <= i < |ranges| :: NeedsApps(ranges[i]) then ["app"] else [])
    + (if exists i | 0 <= i < |ranges| :: NeedsGrants(ranges[i]) then ["grant"] else [])
  }

  /** What `FileRangesHandler#handle` yields: the ranges read from the
      arguments, expanded over the listings they need. */
  function RangesResult(args: seq<string>, serverPreference: string, fetch: string -> seq<string>)
    : (r: Result<seq<string>>)
    ensures RangesFrom(args, None).Err? ==> r == Err(RangesFrom(args, None).msg)
    ensures RangesFrom(args, None) == Ok([]) ==> r == Ok([])
    ensures r.Ok? ==> forall x | x in r.value :: IsArchiveId(x)
  {
    var ranges :- RangesFrom(args, None);
    var listings :- AutoExtract(PresentTypes(ranges), serverPreference, fetch);
    ExpandAll(ranges, listings.0, listings.1)
  }

  /** With a mirror for the preference, every error of the handler comes
      from reading the ranges or comparing dates, never from a nil listing. */
  lemma RangesNeverReadNilListing(args: seq<string>, serverPreference: string, fetch: string -> seq<string>)
    requires RangesFrom(args, None).Ok? && ListingPages(serverPreference).Some?
    ensures var ranges := RangesFrom(args, None).value;
      var listings := AutoExtract(PresentTypes(ranges), serverPreference, fetch);
      && listings.Ok?
      && forall i | 0 <= i < |ranges| :: ListingOf(ranges[i].kind, listings.value.0, listings.value.1).Ok?
  {
    var ranges := RangesFrom(args, None).value;
    var types := PresentTypes(ranges);
    var listings := AutoExtract(types, serverPreference, fetch);
    PresentTypesCoverRanges(ranges, types, listings.value.0, listings.value.1);
  }

  /** `FileRangesHandler#handle`: read the ranges, fetch the listings the
      ranges need, expand. */
  method HandleRanges(args: seq<string>, serverPreference: string, fetch: string -> seq<string>)
    returns (r: Result<seq<string>>)
    ensures r == RangesResult(args, serverPreference, fetch)
  {
    var ranges := GetRanges(args);
    if ranges.Err? {
      return Err(ranges.msg);
    }
    var types := GetPtypesPresent(ranges.value);
    var listings := AutoExtract(types, serverPreference, fetch);
    assert listings == AutoExtract(PresentTypes(ranges.value), serverPreference, fetch);
    if listings.Err? {
      return Err(listings.msg);
    }
    r := ExpandRanges(ranges.value, listings.value.0, listings.value.1);
  }
}
