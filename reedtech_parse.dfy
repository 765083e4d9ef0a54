/** reedtechparse.rb: the weekly walk over the Reed Tech bulk archives. For
    each week from a start date it builds the names of that week's
    application and grant archives, and it splits each unzipped archive into
    the XML documents it concatenates. */
module ReedTechParse {
  import opened Outcomes
  import opened Text
  import ArchiveNames

  // ---------------------------------------------------------------------
  // Dates

  /** A civil date. */
  datatype Date = Date(year: int, month: int, day: int)

  // Dates are day numbers: adding days to a date, as `Date#+` and `Date#-`
  // do, is adding them to its number, and a calendar `civil: int -> Date`
  // gives the civil date of a day number.

  // ---------------------------------------------------------------------
  // Archive names (lines 38-60, 66, 79, 100 and 110)

  /** `n.to_s`, with a `0` in front when `n < 10`: two digits spelling `n`
      for every month and day. */
  function Pad2(n: int): (r: string)
    ensures 0 <= n < 100 ==> |r| == 2 && AllDigits(r) && DigitsValue(r) == n
  {
    if n < 10 then
      var r := "0" + IntToString(n);
      if 0 <= n then
        assert r[..1] == "0" && r[1..] == NatToString(n);
        DigitsValueAppend("0", NatToString(n));
        r
      else r
    else if n < 100 then
      assert NatToString(n) == NatToString(n / 10) + [DigitChar(n % 10)];
      IntToString(n)
    else IntToString(n)
  }

  /** The archive prefix: `i` from 2005 on, nothing before. */
  function Prefix(year: int): (p: string)
    ensures p == "i" <==> year >= 2005
    ensures p == "" <==> year < 2005
  {
    if year < 2005 then "" else "i"
  }

  /** `year.to_s[2..3]`: nil when the year has fewer than two characters. */
  function YearDigits(year: int): (r: Option<string>)
    ensures 1000 <= year <= 9999 ==> r.Some? && |r.value| == 2 && AllDigits(r.value) && DigitsValue(r.value) == year % 100
  {
    var s := IntToString(year);
    if |s| < 2 then None
    else
      var r := s[2..if |s| < 4 then |s| else 4];
      if 1000 <= year <= 9999 then
        FourDigitYear(year);
        Some(r)
      else Some(r)
  }

  lemma FourDigitYear(year: int)
    requires 1000 <= year <= 9999
    ensures var s := IntToString(year);
      |s| == 4 && AllDigits(s[2..4]) && DigitsValue(s[2..4]) == year % 100
  {
    var s := NatToString(year);
    FourDigitLength(year);
    var hi, lo := s[..2], s[2..4];
    assert s == hi + lo;
    DigitsValueAppend(hi, lo);
    DigitsValueBound(lo);
    assert Pow10(|lo|) == 100;
    LowDigits(year, DigitsValue(hi), DigitsValue(lo));
  }

  lemma FourDigitLength(year: int)
    requires 1000 <= year <= 9999
    ensures |NatToString(year)| == 4
  {
    var d3, d2, d1 := year / 1000, year / 100, year / 10;
    assert 1 <= d3 <= 9 && d2 / 10 == d3 && d1 / 10 == d2 && year / 10 == d1;
    assert |NatToString(d3)| == 1;
    assert |NatToString(d2)| == 2 by {
      assert NatToString(d2) == NatToString(d3) + [DigitChar(d2 % 10)];
    }
    assert |NatToString(d1)| == 3 by {
      assert NatToString(d1) == NatToString(d2) + [DigitChar(d1 % 10)];
    }
    assert NatToString(year) == NatToString(d1) + [DigitChar(year % 10)];
  }

  /** The remainder of `a * 100 + b` by 100 is `b` when `b` is below 100. */
  lemma LowDigits(year: int, a: nat, b: nat)
    requires year == a * 100 + b && b < 100
    ensures year % 100 == b
  {
  }

  /** `prefix + kind + yy + month + day + ".zip"`. */
  function ArchiveName(prefix: string, kind: string, yy: string, month: int, day: int): string {
    prefix + kind + yy + Pad2(month) + Pad2(day) + ".zip"
  }

  /** From 2005 on, with a four-digit year and a real month and day, the
      name is an archive identifier as the listing filter of processFile.rb
      accepts it, then `.zip`. */
  lemma NamesMatchListingFilter(kind: string, year: int, month: int, day: int)
    requires kind == "pa" || kind == "pg"
    requires 2005 <= year <= 9999 && 1 <= month <= 12 && 1 <= day <= 31
    ensures YearDigits(year).Some?
    ensures ArchiveNames.ArchiveHrefAt(ArchiveName(Prefix(year), kind, YearDigits(year).value, month, day), 0)
  {
    var yy := YearDigits(year).value;
    var digits := yy + Pad2(month) + Pad2(day);
    AllDigitsAppend(yy, Pad2(month));
    AllDigitsAppend(yy + Pad2(month), Pad2(day));
    var name := ArchiveName(Prefix(year), kind, yy, month, day);
    assert name == "i" + kind + digits + ".zip";
    assert name[3..9] == digits;
    assert name[10..13] == "zip";
  }

  /** `file[0..-4] + "xml"`: the file an archive unzips to. */
  function UnzippedName(file: string): (r: string)
    ensures |file| >= 4 && file[|file| - 4..] == ".zip" ==> r == file[..|file| - 4] + ".xml"
  {
    (if |file| >= 3 then file[..|file| - 3] else "") + "xml"
  }

  /** What one week fetches: the application archive and its URL, and the
      grant archive and its URL. */
  datatype WeekFiles = WeekFiles(appFile: string, appUrl: string, issueFile: string, issueUrl: string)

  const NilPlus := "undefined method `+' for nil:NilClass"

  function AppUrl(folder: int, file: string): string {
    "/downloads/ApplicationFullText/" + IntToString(folder) + "/" + file
  }

  function GrantUrl(folder: int, file: string): string {
    "/downloads/GrantRedBookText/" + IntToString(folder) + "/" + file
  }

  /** The names as the script builds them: the prefix, the two year digits
      and both folders come from `datelooper`, also for the grant archive,
      whose month and day come from `datelooperissued`. */
  function WeekFilesAsWritten(looper: Date, apps: Date, issued: Date): (r: Result<WeekFiles>)
    ensures r.Ok? <==> YearDigits(looper.year).Some?
    ensures r.Ok? ==>
      && r.value.appFile == ArchiveName(Prefix(looper.year), "pa", YearDigits(looper.year).value, apps.month, apps.day)
      && r.value.issueFile == ArchiveName(Prefix(looper.year), "pg", YearDigits(looper.year).value, issued.month, issued.day)
      && r.value.appUrl == AppUrl(looper.year, r.value.appFile)
      && r.value.issueUrl == GrantUrl(looper.year, r.value.issueFile)
  {
    match YearDigits(looper.year)
    case None => Err(NilPlus)
    case Some(yy) =>
      var prefix := Prefix(looper.year);
      var appFile := ArchiveName(prefix, "pa", yy, apps.month, apps.day);
      var issueFile := ArchiveName(prefix, "pg", yy, issued.month, issued.day);
      Ok(WeekFiles(appFile, AppUrl(looper.year, appFile), issueFile, GrantUrl(looper.year, issueFile)))
  }

  /** The names each archive is published under: every part of a name, and
      its folder, comes from that archive's own date. */
  function WeekFilesOf(apps: Date, issued: Date): (r: Result<WeekFiles>)
    ensures r.Ok? <==> YearDigits(apps.year).Some? && YearDigits(issued.year).Some?
  {
    match YearDigits(apps.year)
    case None => Err(NilPlus)
    case Some(yyApp) =>
      match YearDigits(issued.year)
      case None => Err(NilPlus)
      case Some(yyIssued) =>
        var appFile := ArchiveName(Prefix(apps.year), "pa", yyApp, apps.month, apps.day);
        var issueFile := ArchiveName(Prefix(issued.year), "pg", yyIssued, issued.month, issued.day);
        Ok(WeekFiles(appFile, AppUrl(apps.year, appFile), issueFile, GrantUrl(issued.year, issueFile)))
  }

  /** Each published name is filed under its own year and carries that
      year's prefix and digits. */
  lemma WeekFilesOfOwnYear(apps: Date, issued: Date)
    requires WeekFilesOf(apps, issued).Ok?
    ensures var w := WeekFilesOf(apps, issued).value;
      && w.appFile == ArchiveName(Prefix(apps.year), "pa", YearDigits(apps.year).value, apps.month, apps.day)
      && w.issueFile == ArchiveName(Prefix(issued.year), "pg", YearDigits(issued.year).value, issued.month, issued.day)
      && w.appUrl == AppUrl(apps.year, w.appFile)
      && w.issueUrl == GrantUrl(issued.year, w.issueFile)
  {
  }

  /** When the grant falls in the same year as `datelooper`, the script's
      names are the published ones. */
  lemma SameYearNamesAgree(looper: Date, issued: Date)
    requires issued.year == looper.year
    ensures WeekFilesAsWritten(looper, looper, issued) == WeekFilesOf(looper, issued)
  {
  }

  /** The grant URL names its folder right after the fixed directory. */
  lemma GrantUrlFolder(year: int, file: string)
    requires 1000 <= year <= 9999
    ensures |GrantUrl(year, file)| >= 32 && GrantUrl(year, file)[28..32] == IntToString(year)
  {
    FourDigitYear(year);
  }

  /** The script's names are the published ones exactly when the grant
      was issued in the year of `datelooper`: whenever the issue date two
      days earlier falls in the previous year, the grant is asked for
      under the wrong folder. */
  lemma AsWrittenAgreesIffSameYear(looper: Date, issued: Date)
    requires 1000 <= looper.year <= 9999 && 1000 <= issued.year <= 9999
    ensures WeekFilesAsWritten(looper, looper, issued) == WeekFilesOf(looper, issued) <==> issued.year == looper.year
  {
    if issued.year != looper.year {
      var asWritten := WeekFilesAsWritten(looper, looper, issued).value;
      var published := WeekFilesOf(looper, issued).value;
      GrantUrlFolder(looper.year, asWritten.issueFile);
      GrantUrlFolder(issued.year, published.issueFile);
      assert DigitsValue(IntToString(looper.year)) != DigitsValue(IntToString(issued.year));
      assert asWritten.issueUrl[28..32] != published.issueUrl[28..32];
    }
  }

  /** Twelve weeks after the first `datelooper` of 2002-10-10, on
      2003-01-02, the issue date is 2002-12-31: the script asks for
      `pg031231.zip`, while that archive is `pg021231.zip`. */
  lemma IssuedYearMismatch()
    ensures WeekFilesAsWritten(Date(2003, 1, 2), Date(2003, 1, 2), Date(2002, 12, 31)).value.issueFile == "pg031231.zip"
    ensures WeekFilesOf(Date(2003, 1, 2), Date(2002, 12, 31)).value.issueFile == "pg021231.zip"
  {
    YearSpellings();
    YearDigitsOfSpelling(2003, "2003");
    YearDigitsOfSpelling(2002, "2002");
    MonthDaySpellings();
    assert ArchiveName("", "pg", "03", 12, 31) == "pg031231.zip";
    assert ArchiveName("", "pg", "02", 12, 31) == "pg021231.zip";
  }

  lemma YearDigitsOfSpelling(year: int, s: string)
    requires IntToString(year) == s && |s| == 4
    ensures YearDigits(year) == Some(s[2..4])
  {
  }

  lemma YearSpellings()
    ensures IntToString(2003) == "2003" && IntToString(2002) == "2002"
  {
    assert NatToString(200) == NatToString(20) + "0";
    assert NatToString(20) == NatToString(2) + "0";
    assert NatToString(2003) == NatToString(200) + "3";
    assert NatToString(2002) == NatToString(200) + "2";
  }

  lemma MonthDaySpellings()
    ensures Pad2(12) == "12" && Pad2(31) == "31"
  {
    assert NatToString(12) == NatToString(1) + "2";
    assert NatToString(31) == NatToString(3) + "1";
  }

  // ---------------------------------------------------------------------
  // The weekly loop (lines 28-37)

  /** The number of passes: one per week while `datelooper` is before the
      test date. */
  function Weeks(start: int, testdate: int): (n: nat)
    ensures start + 7 * n >= testdate
    ensures n > 0 ==> start + 7 * (n - 1) < testdate
  {
    if start >= testdate then 0 else (testdate - start + 6) / 7
  }

  /** `[f(0), ..., f(n - 1)]`. */
  function Iterate<T>(f: int -> T, n: nat): (rs: seq<T>)
    ensures |rs| == n && forall k | 0 <= k < n :: rs[k] == f(k)
  {
    if n == 0 then [] else Iterate(f, n - 1) + [f(n - 1)]
  }

  /** The names of each week in turn, as the script builds them:
      `datelooper` and `datelooperapps` a multiple of seven days after the
      start, `datelooperissued` two days before them. */
  function WeekResults(civil: int -> Date, start: int, n: nat): seq<Result<WeekFiles>> {
    Iterate(k => WeekAt(civil, start, k), n)
  }

  /** The script's names for the `k`th week. */
  function WeekAt(civil: int -> Date, start: int, k: int): Result<WeekFiles> {
    WeekFilesAsWritten(civil(start + 7 * k), civil(start + 7 * k), civil(start + 7 * k - 2))
  }

  /** The published names of the `k`th week. */
  function PublishedWeekAt(civil: int -> Date, start: int, k: int): Result<WeekFiles> {
    WeekFilesOf(civil(start + 7 * k), civil(start + 7 * k - 2))
  }

  /** The published names of each week in turn. */
  function PublishedWeekResults(civil: int -> Date, start: int, n: nat): seq<Result<WeekFiles>> {
    Iterate(k => PublishedWeekAt(civil, start, k), n)
  }

  /** The `k`th week is the one whose `datelooper` and `datelooperapps` are
      `7 * k` days after the start. */
  lemma WeekAtDay(civil: int -> Date, start: int, k: int, looper: int, apps: int, issued: int)
    requires looper == start + 7 * k && apps == looper && issued == apps - 2
    ensures WeekFilesAsWritten(civil(looper), civil(apps), civil(issued)) == WeekAt(civil, start, k)
  {
    assert civil(looper) == civil(start + 7 * k) && civil(issued) == civil(start + 7 * k - 2);
  }

  /** The `k`th week's names. */
  lemma WeekResultsAt(civil: int -> Date, start: int, n: nat, k: nat)
    requires k < n
    ensures |WeekResults(civil, start, n)| == n
    ensures WeekResults(civil, start, n)[k] == WeekAt(civil, start, k)
  {
    var f := k => WeekAt(civil, start, k);
    assert WeekResults(civil, start, n) == Iterate(f, n);
  }

  /** The loop is still running after `m` passes exactly when fewer than
      `Weeks(start, testdate)` passes have been made. */
  lemma WeeksBound(start: int, testdate: int, m: nat)
    ensures start + 7 * m < testdate <==> m < Weeks(start, testdate)
  {
  }

  /** What the loop asks for, week by week, or the error of the first week
      whose names raise. */
  function Schedule(civil: int -> Date, start: int, testdate: int): Result<seq<WeekFiles>> {
    Collect(WeekResults(civil, start, Weeks(start, testdate)))
  }

  /** The archives each week is published under, week by week. */
  function PublishedSchedule(civil: int -> Date, start: int, testdate: int): Result<seq<WeekFiles>> {
    Collect(PublishedWeekResults(civil, start, Weeks(start, testdate)))
  }

  /** When no week's issue date falls in an earlier year than its
      `datelooper`, the script asks for exactly the published archives. */
  lemma ScheduleIsPublishedWithinYears(civil: int -> Date, start: int, testdate: int)
    requires forall k | 0 <= k < Weeks(start, testdate) :: civil(start + 7 * k - 2).year == civil(start + 7 * k).year
    ensures Schedule(civil, start, testdate) == PublishedSchedule(civil, start, testdate)
  {
    var n := Weeks(start, testdate);
    var asWritten, published := WeekResults(civil, start, n), PublishedWeekResults(civil, start, n);
    var f, g := k => WeekAt(civil, start, k), k => PublishedWeekAt(civil, start, k);
    assert asWritten == Iterate(f, n) && published == Iterate(g, n);
    forall k | 0 <= k < n
      ensures asWritten[k] == published[k]
    {
      SameYearNamesAgree(civil(start + 7 * k), civil(start + 7 * k - 2));
    }
    assert asWritten == published;
  }

  /** The loop: `datelooper` and `datelooperapps` stay equal and
      `datelooperissued` two days behind; all three advance a week per
      pass until `datelooper` reaches the test date. */
  method DownloadSchedule(civil: int -> Date, start: int, testdate: int) returns (r: Result<seq<WeekFiles>>)
    ensures r == Schedule(civil, start, testdate)
  {
    var datelooperapps := start;
    var datelooper := start;
    var datelooperissued := datelooperapps - 2;
    var fetched: seq<WeekFiles> := [];
    ghost var rs := WeekResults(civil, start, Weeks(start, testdate));
    while datelooper < testdate
      invariant datelooper == start + 7 * |fetched| && datelooperapps == datelooper && datelooperissued == datelooper - 2
      invariant Succeeded(rs, fetched)
      decreases testdate - datelooper
    {
      WeeksBound(start, testdate, |fetched|);
      WeekResultsAt(civil, start, Weeks(start, testdate), |fetched|);
      WeekAtDay(civil, start, |fetched|, datelooper, datelooperapps, datelooperissued);
      var week := WeekFilesAsWritten(civil(datelooper), civil(datelooperapps), civil(datelooperissued));
      if week.Err? {
        FirstErrorIsCollected(rs, fetched);
        return Err(week.msg);
      }
      SucceededStep(rs, fetched, week.value);
      fetched := fetched + [week.value];
      datelooper := datelooper + 7;
      datelooperissued := datelooperissued + 7;
      datelooperapps := datelooperapps + 7;
    }
    WeeksBound(start, testdate, |fetched|);
    SucceededAll(rs, fetched);
    return Ok(fetched);
  }

  // ---------------------------------------------------------------------
  // Splitting an unzipped archive into documents (lines 95-119)

  /** A line that starts a new document. */
  predicate StartsDocument(line: string) {
    Contains(line, "<?xml version=")
  }

  /** The documents as groups of lines, each opened by a line that starts a
      document; nothing when a line comes before the first such line, where
      the script adds a line to the nil cell `currdoc[-1]`. */
  function DocumentGroups(lines: seq<string>): (r: Option<seq<seq<string>>>)
    decreases |lines|
  {
    if lines == [] then Some([])
    else
      match DocumentGroups(lines[..|lines| - 1])
      case None => None
      case Some(groups) =>
        var line := lines[|lines| - 1];
        if StartsDocument(line) then Some(groups + [[line]])
        else if groups == [] then None
        else Some(groups[..|groups| - 1] + [groups[|groups| - 1] + [line]])
  }

  /** Each group starts with the line that opened it and holds no other
      such line; together the groups are the input, in order. */
  ghost predicate WellGrouped(groups: seq<seq<string>>, lines: seq<string>) {
    && Flatten(groups) == lines
    && forall k | 0 <= k < |groups| ::
      && |groups[k]| >= 1 && StartsDocument(groups[k][0])
      && forall j | 1 <= j < |groups[k]| :: !StartsDocument(groups[k][j])
  }

  /** The number of lines that start a document. */
  function CountStarts(lines: seq<string>): nat
    decreases |lines|
  {
    if lines == [] then 0
    else CountStarts(lines[..|lines| - 1]) + (if StartsDocument(lines[|lines| - 1]) then 1 else 0)
  }

  /** The split succeeds exactly when the input is empty or opens with a
      declaration; then it gives one document per declaration line, and the
      documents put back together are the input. */
  lemma {:induction false} DocumentGroupsSound(lines: seq<string>)
    ensures DocumentGroups(lines).Some? <==> lines == [] || StartsDocument(lines[0])
    ensures DocumentGroups(lines).Some? ==>
      && WellGrouped(DocumentGroups(lines).value, lines)
      && |DocumentGroups(lines).value| == CountStarts(lines)
    decreases |lines|
  {
    if lines != [] {
      var init := lines[..|lines| - 1];
      var line := lines[|lines| - 1];
      DocumentGroupsSound(init);
      if init != [] {
        assert init[0] == lines[0];
      }
      match DocumentGroups(init)
      case None =>
      case Some(groups) =>
        if StartsDocument(line) {
          GroupsSnocGroup(groups, init, line);
        } else if groups != [] {
          GroupsSnocLine(groups, init, line);
        } else {
          assert Flatten(groups) == [];
          assert init == [];
        }
    }
  }

  lemma GroupsSnocGroup(groups: seq<seq<string>>, init: seq<string>, line: string)
    requires WellGrouped(groups, init) && StartsDocument(line)
    ensures WellGrouped(groups + [[line]], init + [line])
  {
    FlattenAppend(groups, [[line]]);
    assert Flatten([[line]]) == [line] + Flatten([[line]][1..]);
    assert [[line]][1..] == [];
    var gs := groups + [[line]];
    forall k | 0 <= k < |gs|
      ensures |gs[k]| >= 1 && StartsDocument(gs[k][0]) && forall j | 1 <= j < |gs[k]| :: !StartsDocument(gs[k][j])
    {
      if k < |groups| {
        assert gs[k] == groups[k];
      }
    }
  }

  lemma GroupsSnocLine(groups: seq<seq<string>>, init: seq<string>, line: string)
    requires WellGrouped(groups, init) && !StartsDocument(line) && groups != []
    ensures WellGrouped(groups[..|groups| - 1] + [groups[|groups| - 1] + [line]], init + [line])
  {
    var front := groups[..|groups| - 1];
    var last := groups[|groups| - 1];
    assert groups == front + [last];
    FlattenAppend(front, [last]);
    FlattenAppend(front, [last + [line]]);
    assert Flatten([last]) == last + Flatten([last][1..]) && [last][1..] == [];
    assert Flatten([last + [line]]) == (last + [line]) + Flatten([last + [line]][1..]) && [last + [line]][1..] == [];
    var gs := front + [last + [line]];
    forall k | 0 <= k < |gs|
      ensures |gs[k]| >= 1 && StartsDocument(gs[k][0]) && forall j | 1 <= j < |gs[k]| :: !StartsDocument(gs[k][j])
    {
      if k < |front| {
        assert gs[k] == groups[k];
      } else {
        assert gs[k] == last + [line];
        assert groups[|groups| - 1] == last;
        forall j | 1 <= j < |gs[k]| ensures !StartsDocument(gs[k][j]) {
          if j < |last| {
            assert gs[k][j] == last[j];
          }
        }
      }
    }
  }

  /** The split as the script does it: `i` is the index of the open cell,
      `-1` before any. */
  method SplitDocuments(lines: seq<string>) returns (r: Result<seq<string>>)
    ensures r.Ok? <==> DocumentGroups(lines).Some?
    ensures r.Ok? ==>
      && |r.value| == |DocumentGroups(lines).value|
      && forall k | 0 <= k < |r.value| :: r.value[k] == Flatten(DocumentGroups(lines).value[k])
  {
    var i := -1;
    var currdoc: seq<string> := [];
    ghost var groups: seq<seq<string>> := [];
    for n := 0 to |lines|
      invariant DocumentGroups(lines[..n]) == Some(groups)
      invariant i == |currdoc| - 1 && |currdoc| == |groups|
      invariant forall k | 0 <= k < |groups| :: currdoc[k] == Flatten(groups[k])
    {
      var data := lines[n];
      assert lines[..n + 1][..n] == lines[..n];
      assert lines[..n + 1][n] == data;
      if StartsDocument(data) {
        i := i + 1;
        currdoc := currdoc + [data];
        groups := groups + [[data]];
        assert Flatten([data]) == data + Flatten([data][1..]) && [data][1..] == [];
      } else {
        if i < 0 {
          DocumentGroupsSound(lines[..n + 1]);
          DocumentGroupsSound(lines);
          assert lines[..n + 1][0] == lines[0];
          return Err(NilPlus);
        }
        FlattenSnoc(groups[i], data);
        currdoc := currdoc[i := currdoc[i] + data];
        groups := groups[..i] + [groups[i] + [data]];
      }
    }
    assert lines[..|lines|] == lines;
    return Ok(currdoc);
  }

  lemma FlattenSnoc(group: seq<string>, line: string)
    ensures Flatten(group + [line]) == Flatten(group) + line
  {
    FlattenAppend(group, [line]);
    assert Flatten([line]) == line + Flatten([line][1..]);
    assert [line][1..] == [];
  }
}
