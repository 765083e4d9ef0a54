/** Archive names of processFile.rb: the six-digit date in a bulk archive name
    (`ipaYYMMDD.zip`, `ipgYYMMDD.zip`), the two-digit year pivot, the directory
    pages and download paths of the two mirrors, and the filter that picks
    archive links out of a directory listing. */
module ArchiveNames {
  import opened Outcomes
  import opened Text

  const Google := "google"
  const Reedtech := "reedtech"

  // ---------------------------------------------------------------------
  // get_date_int: filename.match(/(\d{6})/)

  predicate SixDigitsAt(s: string, i: int) {
    0 <= i && i + 6 <= |s| && AllDigits(s[i..i + 6])
  }

  /** The leftmost start of six consecutive digits at or after `from`. */
  function FirstSixDigits(s: string, from: nat): (r: Option<nat>)
    ensures r.Some? ==> from <= r.value && SixDigitsAt(s, r.value)
    ensures r.Some? ==> forall j | from <= j < r.value :: !SixDigitsAt(s, j)
    ensures r.None? ==> forall j | from <= j :: !SixDigitsAt(s, j)
    decreases |s| - from
  {
    if from + 6 > |s| then None
    else if AllDigits(s[from..from + 6]) then Some(from)
    else FirstSixDigits(s, from + 1)
  }

  /** `get_date_int(filename)`: the value of the leftmost six-digit run, or nil
      when the name holds no six consecutive digits. */
  function GetDateInt(filename: string): (r: Option<nat>)
    ensures r.Some? <==> exists i :: SixDigitsAt(filename, i)
    ensures r.Some? ==> r.value < 1000000
    ensures r.Some? ==> exists i :: && SixDigitsAt(filename, i)
                                    && (forall j | 0 <= j < i :: !SixDigitsAt(filename, j))
                                    && r.value == DigitsValue(filename[i..i + 6])
  {
    match FirstSixDigits(filename, 0)
    case None => None
    case Some(i) =>
      DigitsValueBound(filename[i..i + 6]);
      assert Pow10(6) == 1000000 by {
        assert Pow10(1) == 10 && Pow10(2) == 100 && Pow10(3) == 1000;
        assert Pow10(4) == 10000 && Pow10(5) == 100000;
      }
      assert forall j | 0 <= j < i :: !SixDigitsAt(filename, j);
      Some(DigitsValue(filename[i..i + 6]))
  }

  predicate NoDigits(s: string) {
    forall i | 0 <= i < |s| :: !IsDigit(s[i])
  }

  /** A name made of a digit-free prefix, six digits and any suffix has those
      six digits as its date integer. */
  lemma DateIntOfName(prefix: string, digits: string, suffix: string)
    requires NoDigits(prefix) && |digits| == 6 && AllDigits(digits)
    ensures GetDateInt(prefix + digits + suffix) == Some(DigitsValue(digits))
  {
    var s := prefix + digits + suffix;
    assert s[|prefix|..|prefix| + 6] == digits;
    assert SixDigitsAt(s, |prefix|);
    forall j | 0 <= j < |prefix| ensures !SixDigitsAt(s, j) {
      assert s[j] == prefix[j];
      if j + 6 <= |s| {
        assert s[j..j + 6][0] == s[j];
      }
    }
    var r := FirstSixDigits(s, 0);
    assert r.Some? && r.value == |prefix|;
  }

  // ---------------------------------------------------------------------
  // get_date_fields: /^...(\d\d)(\d\d)(\d\d)\./.match(filename).captures

  /** A line the date pattern matches at its start: three characters, six
      digits, a dot. */
  predicate IsDateLine(line: string) {
    && |line| >= 10 && line[9] == '.'
    && AllDigits(line[3..5]) && AllDigits(line[5..7]) && AllDigits(line[7..9])
  }

  function FirstDateLine(ls: seq<string>): (r: Option<string>)
    ensures r.Some? ==> r.value in ls && IsDateLine(r.value)
    ensures r.None? <==> forall l | l in ls :: !IsDateLine(l)
  {
    if ls == [] then None
    else if IsDateLine(ls[0]) then Some(ls[0])
    else FirstDateLine(ls[1..])
  }

  /** The line the pattern matches in: the first line that has the shape. */
  function DateLine(filename: string): Option<string> {
    FirstDateLine(Lines(filename))
  }

  /** The two-digit year pivot: below 50 is in the 2000s, otherwise in the 1900s. */
  function PivotYear(yy: nat): nat {
    if yy < 50 then 2000 + yy else 1900 + yy
  }

  datatype DateFields = DateFields(year: nat, month: nat, day: nat)

  /** `(partial_year.to_i < 50 ? "20" : "19") + partial_year` and `.to_i`. */
  function FullYear(partialYear: string): (y: nat)
    requires |partialYear| == 2 && AllDigits(partialYear)
    ensures DigitsValue(partialYear) < 100 && y == PivotYear(DigitsValue(partialYear))
  {
    DigitsValueBound(partialYear);
    var century := if DigitsValue(partialYear) < 50 then "20" else "19";
    DigitsValueAppend(century, partialYear);
    DigitsValue(century + partialYear)
  }

  /** `get_date_fields(filename)`: the full year, month and day taken from the
      first line shaped like `???YYMMDD.`; with no such line the match is nil
      and `.captures` raises. */
  function GetDateFields(filename: string): (r: Result<DateFields>)
    ensures r.Ok? <==> exists l | l in Lines(filename) :: IsDateLine(l)
    ensures r.Ok? ==> var l := DateLine(filename).value;
      && r.value.year == PivotYear(DigitsValue(l[3..5]))
      && r.value.month == DigitsValue(l[5..7]) && r.value.day == DigitsValue(l[7..9])
    ensures r.Ok? ==> 1950 <= r.value.year <= 2049 && r.value.month < 100 && r.value.day < 100
  {
    match DateLine(filename)
    case None => Err("undefined method `captures' for nil")
    case Some(l) =>
      DigitsValueBound(l[5..7]);
      DigitsValueBound(l[7..9]);
      Ok(DateFields(FullYear(l[3..5]), DigitsValue(l[5..7]), DigitsValue(l[7..9])))
  }

  /** A one-line archive name yields its own date fields. */
  lemma DateFieldsOfName(name: string)
    requires NoNewline(name) && IsDateLine(name)
    ensures GetDateFields(name)
      == Ok(DateFields(PivotYear(DigitsValue(name[3..5])), DigitsValue(name[5..7]), DigitsValue(name[7..9])))
  {
    LinesOfNewlineFree(name);
    assert name in Lines(name);
  }

  /** The pivot on the four boundary years. */
  lemma PivotExamples()
    ensures FullYear("02") == 2002 && FullYear("49") == 2049
    ensures FullYear("50") == 1950 && FullYear("99") == 1999
  {
    assert DigitsValue("02") == 2 by { assert "02"[..1] == "0"; }
    assert DigitsValue("49") == 49 by { assert "49"[..1] == "4"; }
    assert DigitsValue("50") == 50 by { assert "50"[..1] == "5"; }
    assert DigitsValue("99") == 99 by { assert "99"[..1] == "9"; }
  }

  // ---------------------------------------------------------------------
  // get_patent_directory_url

  /** `s =~ /^word$/`: some line of `s` is exactly `word`. */
  predicate HasLine(s: string, word: string) {
    word in Lines(s)
  }

  /** The application and grant listing pages of a mirror; nil for an
      unknown preference. */
  function ListingPages(serverPreference: string): (r: Option<(string, string)>)
    ensures r.Some? <==> serverPreference == Google || serverPreference == Reedtech
  {
    if serverPreference == Google then
      Some(("https://www.google.com/googlebooks/uspto-patents-applications-text.html",
            "https://www.google.com/googlebooks/uspto-patents-grants-text.html"))
    else if serverPreference == Reedtech then
      Some(("http://patents.reedtech.com/parbft.php", "http://patents.reedtech.com/pgrbft.php"))
    else None
  }

  /** `get_patent_directory_url(patent_type, server_preference)`: the listing
      page of the chosen mirror for `app` (tested first) or `grant`; nil for an
      unknown mirror or an unknown type. */
  function DirectoryUrl(patentType: string, serverPreference: string): (r: Option<string>)
    ensures r.Some? <==> ListingPages(serverPreference).Some?
                         && (HasLine(patentType, "app") || HasLine(patentType, "grant"))
    ensures r.Some? && HasLine(patentType, "app") ==> r.value == ListingPages(serverPreference).value.0
    ensures r.Some? && !HasLine(patentType, "app") ==> r.value == ListingPages(serverPreference).value.1
  {
    match ListingPages(serverPreference)
    case None => None
    case Some(pages) =>
      if HasLine(patentType, "app") then Some(pages.0)
      else if HasLine(patentType, "grant") then Some(pages.1)
      else None
  }

  // ---------------------------------------------------------------------
  // extract_download_params

  predicate ArchiveShape(line: string, kind: string) {
    |line| >= 13 && line[..3] == kind && AllDigits(line[3..9]) && line[10..13] == "zip"
  }

  /** `filename =~ /^ipa\d{6}.zip$/`: a whole line `ipa`, six digits, any
      character, `zip`. */
  predicate IsAppArchiveName(filename: string) {
    exists l | l in Lines(filename) :: |l| == 13 && ArchiveShape(l, "ipa")
  }

  /** `filename =~ /^ipg\d{6}.zip/`: only the start of a line is anchored. */
  predicate IsGrantArchiveName(filename: string) {
    exists l | l in Lines(filename) :: ArchiveShape(l, "ipg")
  }

  datatype Mirror = Mirror(server: string, appTemplate: string, grantTemplate: string)

  /** The download host and the two path prefixes (each template is the prefix
      followed by `%s/%s`); nil for an unknown preference. */
  function MirrorOf(serverPreference: string): Option<Mirror> {
    if serverPreference == Google then
      Some(Mirror("storage.googleapis.com", "/patents/appl_full_text/", "/patents/grant_full_text/"))
    else if serverPreference == Reedtech then
      Some(Mirror("patents.reedtech.com", "/downloads/ApplicationFullText/", "/downloads/GrantRedBookText/"))
    else None
  }

  /** `extract_download_params(filename, server_preference)`: server and path
      `<prefix><full year>/<filename>`. An unrecognised name raises "unknown
      file type"; the date fields are read before the template is used, so a
      failing date match is raised before a missing template is noticed. */
  function DownloadParams(filename: string, serverPreference: string): (r: Result<(string, string)>)
    ensures !IsAppArchiveName(filename) && !IsGrantArchiveName(filename)
      ==> r == Err("unknown file type (" + filename + ")")
    ensures r.Ok? <==>
      && (IsAppArchiveName(filename) || IsGrantArchiveName(filename))
      && GetDateFields(filename).Ok? && MirrorOf(serverPreference).Some?
    ensures r.Ok? ==> var m := MirrorOf(serverPreference).value;
      && r.value.0 == m.server
      && r.value.1 == (if IsAppArchiveName(filename) then m.appTemplate else m.grantTemplate)
                      + NatToString(GetDateFields(filename).value.year) + "/" + filename
  {
    if !IsAppArchiveName(filename) && !IsGrantArchiveName(filename) then
      Err("unknown file type (" + filename + ")")
    else
      var fields :- GetDateFields(filename);
      match MirrorOf(serverPreference)
      case None => Err("undefined method `%' for nil")
      case Some(m) =>
        var template := if IsAppArchiveName(filename) then m.appTemplate else m.grantTemplate;
        Ok((m.server, template + NatToString(fields.year) + "/" + filename))
  }

  /** The Google path of a one-line application archive name. */
  lemma AppDownloadPath(name: string)
    requires NoNewline(name) && |name| == 13 && ArchiveShape(name, "ipa") && IsDateLine(name)
    ensures DownloadParams(name, Google)
      == Ok(("storage.googleapis.com",
             "/patents/appl_full_text/" + NatToString(PivotYear(DigitsValue(name[3..5]))) + "/" + name))
  {
    LinesOfNewlineFree(name);
    assert name in Lines(name);
    DateFieldsOfName(name);
  }

  // ---------------------------------------------------------------------
  // Directory listing: the href filter %r{ip(?:a|g)\d{6}.zip}, and the
  // archive identifier /(ip[ag]\d{6})/

  /** `ip`, `a` or `g`, six digits at `i`. */
  predicate ArchiveIdAt(s: string, i: int) {
    0 <= i && i + 9 <= |s| && s[i] == 'i' && s[i + 1] == 'p'
    && (s[i + 2] == 'a' || s[i + 2] == 'g') && AllDigits(s[i + 3..i + 9])
  }

  /** An archive identifier followed by any character but a newline and `zip`. */
  predicate ArchiveHrefAt(s: string, i: int) {
    ArchiveIdAt(s, i) && i + 13 <= |s| && s[i + 9] != '\n' && s[i + 10..i + 13] == "zip"
  }

  predicate ArchiveHrefFrom(s: string, i: nat)
    decreases |s| - i
  {
    i < |s| && (ArchiveHrefAt(s, i) || ArchiveHrefFrom(s, i + 1))
  }

  /** The href pattern matches somewhere in `s`. */
  predicate IsArchiveHref(s: string) {
    ArchiveHrefFrom(s, 0)
  }

  lemma {:induction false} ArchiveHrefFromWitness(s: string, i: nat)
    ensures ArchiveHrefFrom(s, i) <==> exists j | i <= j :: ArchiveHrefAt(s, j)
    decreases |s| - i
  {
    if i < |s| {
      ArchiveHrefFromWitness(s, i + 1);
    }
  }

  /** The hrefs of a listing that name an archive, in listing order. */
  function FilterHrefs(hrefs: seq<string>): (r: seq<string>)
    ensures |r| <= |hrefs|
    ensures forall h | h in r :: h in hrefs && IsArchiveHref(h)
    ensures forall h | h in hrefs && IsArchiveHref(h) :: h in r
  {
    if hrefs == [] then []
    else (if IsArchiveHref(hrefs[0]) then [hrefs[0]] else []) + FilterHrefs(hrefs[1..])
  }
  /** The kept links are the listing's archive links, in listing order. */
  lemma {:induction false} FilterHrefsInOrder(hrefs: seq<string>)
    ensures FilterHrefs(hrefs) == Filter(hrefs, IsArchiveHref)
  {
    if hrefs != [] {
      FilterHrefsInOrder(hrefs[1..]);
    }
  }


  function FirstArchiveId(s: string, from: nat): (r: Option<nat>)
    ensures r.Some? ==> from <= r.value && ArchiveIdAt(s, r.value)
    ensures r.Some? ==> forall j | from <= j < r.value :: !ArchiveIdAt(s, j)
    ensures r.None? ==> forall j | from <= j :: !ArchiveIdAt(s, j)
    decreases |s| - from
  {
    if from + 9 > |s| then None
    else if ArchiveIdAt(s, from) then Some(from)
    else FirstArchiveId(s, from + 1)
  }

  /** The leftmost `ip[ag]NNNNNN` in `s`, or nil. */
  function ArchiveId(s: string): (r: Option<string>)
    ensures r.Some? ==> |r.value| == 9 && ArchiveIdAt(r.value, 0)
    ensures r.Some? <==> exists i :: ArchiveIdAt(s, i)
    ensures r.Some? ==> exists i | 0 <= i && i + 9 <= |s| ::
      && ArchiveIdAt(s, i) && (forall j | 0 <= j < i :: !ArchiveIdAt(s, j)) && r.value == s[i..i + 9]
  {
    match FirstArchiveId(s, 0)
    case None => None
    case Some(i) =>
      assert s[i..i + 9][3..9] == s[i + 3..i + 9];
      Some(s[i..i + 9])
  }

  /** Every href the listing filter keeps holds an archive identifier. */
  lemma ArchiveHrefHasId(s: string)
    requires IsArchiveHref(s)
    ensures ArchiveId(s).Some?
  {
    ArchiveHrefFromWitness(s, 0);
    var j :| 0 <= j && ArchiveHrefAt(s, j);
    assert ArchiveIdAt(s, j);
  }
}
