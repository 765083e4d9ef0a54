/** Command-line handling of processFile.rb (`ArgumentsHandler`,
    `FilenamesHandler`): the action flags, the download mirror, and the list
    of archive identifiers to process, taken either from ranges or from
    identifiers named directly. */
module Arguments {
  import opened Outcomes
  import opened Text
  import opened ArchiveNames
  import opened FileRanges

  // ---------------------------------------------------------------------
  // parse_server_preference: the first argument matching /^google|reedtech$/i

  predicate StartsWith(s: string, p: string) {
    |p| <= |s| && s[..|p|] == p
  }

  predicate EndsWith(s: string, p: string) {
    |p| <= |s| && s[|s| - |p|..] == p
  }

  /** The alternation is `^google` or `reedtech$`, case-insensitively: some
      line starts with `google` or some line ends with `reedtech`. */
  predicate NamesServer(arg: string) {
    exists l | l in Lines(arg) :: StartsWith(Lower(l), Google) || EndsWith(Lower(l), Reedtech)
  }

  /** The preference: the first argument naming a server, downcased; `google`
      when none does. */
  function ServerPreferenceOf(args: seq<string>): string {
    if args == [] then Google
    else if NamesServer(args[0]) then Lower(args[0])
    else ServerPreferenceOf(args[1..])
  }

  /** The preference is that of the first argument naming a server. */
  lemma {:induction false} FirstNamingArgumentWins(args: seq<string>, i: nat)
    requires i < |args| && NamesServer(args[i])
    requires forall j | 0 <= j < i :: !NamesServer(args[j])
    ensures ServerPreferenceOf(args) == Lower(args[i])
  {
    if i > 0 {
      var rest := args[1..];
      assert rest[i - 1] == args[i];
      assert forall j | 0 <= j < i - 1 :: !NamesServer(rest[j]) by {
        forall j | 0 <= j < i - 1 ensures !NamesServer(rest[j]) {
          assert rest[j] == args[j + 1];
        }
      }
      FirstNamingArgumentWins(rest, i - 1);
    }
  }

  /** With no argument naming a server, the preference is `google`. */
  lemma {:induction false} NoNamingArgumentMeansGoogle(args: seq<string>)
    requires forall j | 0 <= j < |args| :: !NamesServer(args[j])
    ensures ServerPreferenceOf(args) == Google
  {
    if args != [] {
      var rest := args[1..];
      assert forall j | 0 <= j < |rest| :: !NamesServer(rest[j]) by {
        forall j | 0 <= j < |rest| ensures !NamesServer(rest[j]) {
          assert rest[j] == args[j + 1];
        }
      }
      NoNamingArgumentMeansGoogle(rest);
    }
  }

  /** `parse_server_preference(args)`: a loop that stops at the first match. */
  method ParseServerPreference(args: seq<string>) returns (serverPreference: string)
    ensures serverPreference == ServerPreferenceOf(args)
  {
    serverPreference := Google;
    var i := 0;
    while i < |args|
      invariant 0 <= i <= |args|
      invariant serverPreference == Google
      invariant ServerPreferenceOf(args) == ServerPreferenceOf(args[i..])
    {
      assert args[i..][1..] == args[i + 1..];
      if NamesServer(args[i]) {
        serverPreference := Lower(args[i]);
        break;
      }
      i := i + 1;
    }
  }

  /** An argument that is exactly a server name in any letter case names it. */
  lemma ServerWordNamesServer(arg: string)
    requires NoNewline(arg) && Lower(arg) == Reedtech
    ensures NamesServer(arg)
  {
    LinesOfNewlineFree(arg);
    var l := Lower(arg);
    assert l[|l| - |Reedtech|..] == l;
    assert arg in Lines(arg);
  }

  /** A preference given in any letter case selects that mirror, downcased. */
  lemma MixedCaseServer(args: seq<string>, i: nat)
    requires i < |args| && NoNewline(args[i]) && Lower(args[i]) == Reedtech
    requires forall j | 0 <= j < i :: !NamesServer(args[j])
    ensures ServerPreferenceOf(args) == Reedtech
  {
    ServerWordNamesServer(args[i]);
    FirstNamingArgumentWins(args, i);
  }

  // ---------------------------------------------------------------------
  // FilenamesHandler: the first ip[ag]NNNNNN of each argument

  /** `FilenamesHandler#handle(args)`: the unanchored identifier of each
      argument that holds one, in argument order; a trailing extension is
      ignored (only a warning is printed). */
  function SoloFilenames(args: seq<string>): (r: seq<string>)
    ensures |r| <= |args|
    ensures forall x | x in r :: IsArchiveId(x)
    ensures forall x :: x in r <==> exists i | 0 <= i < |args| :: ArchiveId(args[i]) == Some(x)
  {
    FilterMapMembers(args, ArchiveId);
    FilterMap(args, ArchiveId)
  }

  /** One identifier per argument that holds one, in argument order:
      duplicates are kept. */
  lemma {:induction false} SoloFilenamesInOrder(args: seq<string>)
    ensures var holding := Filter(args, a => ArchiveId(a).Some?);
      && |SoloFilenames(args)| == |holding|
      && forall k | 0 <= k < |holding| :: ArchiveId(holding[k]) == Some(SoloFilenames(args)[k])
  {
    FilterMapInOrder(args, ArchiveId, a => ArchiveId(a).Some?);
  }

  /** A range token written with identifiers also names a solo file: the
      handler is not anchored, so it finds the first identifier in it. */
  lemma RangeTokenIsAlsoFilename(a: string, b: string)
    requires IsArchiveId(a) && IsArchiveId(b)
    ensures SoloFilenames([a + "-" + b]) == [a]
  {
    var t := a + "-" + b;
    assert t[..9] == a;
    assert ArchiveIdAt(t, 0) by {
      assert t[3..9] == a[3..9];
    }
    assert FirstArchiveId(t, 0) == Some(0);
    var single: seq<string> := [t];
    assert single[1..] == [];
  }

  /** With a keyword before it, a range token written with identifiers is
      read as a range and also yields its first identifier as a solo file
      name: whenever the range selects anything, `handle_args` raises the
      conflict between ranges and file names. */
  lemma IdRangeTokenConflicts(keyword: string, a: string, b: string)
    requires KeywordOf(keyword).Some? && IsArchiveId(a) && IsArchiveId(b)
    ensures Armed([keyword, a + "-" + b], 1)
    ensures SoloFilenames([keyword, a + "-" + b]) == [a]
  {
    var args := [keyword, a + "-" + b];
    assert PendingAt(args, 1) == KeywordOf(keyword);
    assert |Lower(keyword)| <= 5;
    assert ArchiveId(keyword).None?;
    RangeTokenIsAlsoFilename(a, b);
    assert args[1..] == [a + "-" + b];
  }

  /** The arguments not read as range tokens, among the first `n`. */
  function UnarmedArgs(args: seq<string>, n: nat): (r: seq<string>)
    requires n <= |args|
    ensures forall y :: y in r <==> exists i | 0 <= i < n :: !Armed(args, i) && args[i] == y
  {
    if n == 0 then []
    else
      var rest := UnarmedArgs(args, n - 1);
      if Armed(args, n - 1) then rest else rest + [args[n - 1]]
  }

  /** The solo file names as intended: only arguments that are not read as
      range tokens name files. */
  function IntendedSoloFilenames(args: seq<string>): seq<string> {
    SoloFilenames(UnarmedArgs(args, |args|))
  }

  /** An identifier is a solo file name exactly when an argument that is
      not a range token holds it, so a range token never also counts as a
      file name. */
  lemma IntendedSoloFilenamesSkipRangeTokens(args: seq<string>)
    ensures forall x ::
      (x in IntendedSoloFilenames(args) <==> exists i | 0 <= i < |args| :: !Armed(args, i) && ArchiveId(args[i]) == Some(x))
  {
    var unarmed := UnarmedArgs(args, |args|);
    forall x
      ensures x in IntendedSoloFilenames(args) <==> exists i | 0 <= i < |args| :: !Armed(args, i) && ArchiveId(args[i]) == Some(x)
    {
      if x in IntendedSoloFilenames(args) {
        var k :| 0 <= k < |unarmed| && ArchiveId(unarmed[k]) == Some(x);
        assert unarmed[k] in unarmed;
      }
      if exists i | 0 <= i < |args| :: !Armed(args, i) && ArchiveId(args[i]) == Some(x) {
        var i :| 0 <= i < |args| && !Armed(args, i) && ArchiveId(args[i]) == Some(x);
        assert args[i] in unarmed;
        var k :| 0 <= k < |unarmed| && unarmed[k] == args[i];
      }
    }
  }

  /** A keyword followed by an identifier range names no solo file. */
  lemma IdRangeTokenNoConflict(keyword: string, a: string, b: string)
    requires KeywordOf(keyword).Some? && IsArchiveId(a) && IsArchiveId(b)
    ensures IntendedSoloFilenames([keyword, a + "-" + b]) == []
  {
    var args := [keyword, a + "-" + b];
    assert PendingAt(args, 1) == KeywordOf(keyword);
    assert UnarmedArgs(args, 1) == [keyword];
    assert UnarmedArgs(args, 2) == [keyword];
    assert |Lower(keyword)| <= 5;
    assert ArchiveId(keyword).None?;
    assert [keyword][1..] == [];
  }

  // ---------------------------------------------------------------------
  // handle_args

  predicate IsActionWord(l: string) {
    l == "download" || l == "unzip" || l == "extract" || l == "report" || l == "cleanup"
  }

  /** `s =~ /^(download|unzip|extract|report|cleanup)$/`: some line is an action word. */
  predicate IsActionArg(arg: string) {
    exists l | l in Lines(arg) :: IsActionWord(l)
  }

  function ActionArgs(args: seq<string>): (r: seq<string>)
    ensures forall a :: a in r <==> a in args && IsActionArg(a)
  {
    if args == [] then []
    else (if IsActionArg(args[0]) then [args[0]] else []) + ActionArgs(args[1..])
  }

  /** `uniq`: first occurrences, in order. */
  function Uniq(s: seq<string>): (r: seq<string>)
    ensures forall x :: x in r <==> x in s
    ensures forall i, j | 0 <= i < j < |r| :: r[i] != r[j]
  {
    if s == [] then []
    else
      var u := Uniq(s[..|s| - 1]);
      assert forall x :: x in s <==> x in s[..|s| - 1] || x == s[|s| - 1] by {
        assert s == s[..|s| - 1] + [s[|s| - 1]];
      }
      if s[|s| - 1] in u then u else u + [s[|s| - 1]]
  }

  /** What `actions.delete x` leaves: every element equal to `x` removed. */
  function Without(s: seq<string>, x: string): (r: seq<string>)
    ensures x !in r
    ensures forall y | y != x :: y in r <==> y in s
  {
    if s == [] then []
    else (if s[0] == x then [] else [s[0]]) + Without(s[1..], x)
  }

  /** The `actions_hash` of `handle_args`. */
  datatype Prefs = Prefs(
    shouldCleanup: bool, shouldDownload: bool, shouldUnzip: bool,
    shouldExtract: bool, shouldReport: bool, serverPreference: string)

  const ConflictMessage := "You can't use both ranges and filenames, you'll just confuse yourself! Are you smarter than that? Complain to a programmer!"

  /** Whether every action argument is `cleanup`, so that nothing is left
      once it has been deleted. */
  predicate OnlyCleanup(args: seq<string>) {
    forall a | a in args && IsActionArg(a) :: a == "cleanup"
  }

  lemma ActionWordIsAction(w: string)
    requires IsActionWord(w)
    ensures IsActionArg(w)
  {
    assert NoNewline(w);
    LinesOfNewlineFree(w);
    assert w in Lines(w);
  }

  /** Deleting `cleanup` from the distinct action arguments leaves nothing
      exactly when `cleanup` was the only action given. */
  lemma NothingLeftAfterCleanup(args: seq<string>)
    ensures Without(Uniq(ActionArgs(args)), "cleanup") == [] <==> OnlyCleanup(args)
  {
    var rest := Without(Uniq(ActionArgs(args)), "cleanup");
    if rest != [] {
      assert rest[0] in rest;
    }
  }

  /** An action word is among the distinct action arguments exactly when it
      was given as an argument. */
  lemma ActionWordPresent(args: seq<string>, w: string)
    requires IsActionWord(w)
    ensures w in Uniq(ActionArgs(args)) <==> w in args
  {
    ActionWordIsAction(w);
  }

  /** What the flags of `actions_hash` say: `cleanup` only when asked for,
      each other action when asked for or when no action but `cleanup` is. */
  predicate FlagsFollowActions(args: seq<string>, p: Prefs) {
    && (p.shouldCleanup <==> "cleanup" in args)
    && (p.shouldDownload <==> OnlyCleanup(args) || "download" in args)
    && (p.shouldUnzip <==> OnlyCleanup(args) || "unzip" in args)
    && (p.shouldExtract <==> OnlyCleanup(args) || "extract" in args)
    && (p.shouldReport <==> OnlyCleanup(args) || "report" in args)
  }

  /** The flags computed from the distinct action arguments, with `cleanup`
      deleted before the emptiness test, follow the actions given. */
  lemma FlagsOfDistinctActions(args: seq<string>, serverPreference: string)
    ensures var actions := Uniq(ActionArgs(args));
      var rest := Without(actions, "cleanup");
      FlagsFollowActions(args, Prefs(
        "cleanup" in actions,
        rest == [] || "download" in rest,
        rest == [] || "unzip" in rest,
        rest == [] || "extract" in rest,
        rest == [] || "report" in rest,
        serverPreference))
  {
    ActionWordPresent(args, "cleanup");
    ActionWordPresent(args, "download");
    ActionWordPresent(args, "unzip");
    ActionWordPresent(args, "extract");
    ActionWordPresent(args, "report");
    NothingLeftAfterCleanup(args);
  }

  /** A lone `cleanup` turns every action on. */
  lemma LoneCleanupRunsEverything(args: seq<string>, p: Prefs)
    requires "cleanup" in args && OnlyCleanup(args) && FlagsFollowActions(args, p)
    ensures p.shouldCleanup && p.shouldDownload && p.shouldUnzip && p.shouldExtract && p.shouldReport
  {
  }

  /** `handle_args(args)`. `fetch` stands for fetching a listing page. The
      `cleanup` action is deleted before the emptiness test, so when it is
      the only action the other four flags are all on. Ranges and solo
      identifiers cannot both be non-empty. */
  method HandleArgs(args: seq<string>, fetch: string -> seq<string>) returns (r: Result<(seq<string>, Prefs)>)
    ensures var ranges := RangesResult(args, ServerPreferenceOf(args), fetch);
      r.Err? <==> ranges.Err? || (ranges.value != [] && SoloFilenames(args) != [])
    ensures var ranges := RangesResult(args, ServerPreferenceOf(args), fetch);
      r.Ok? ==> r.value.0 == ranges.value + SoloFilenames(args)
    ensures r.Ok? ==> r.value.1.serverPreference == ServerPreferenceOf(args)
    ensures r.Ok? ==> FlagsFollowActions(args, r.value.1)
  {
    var actions := Uniq(ActionArgs(args));
    var serverPreference := ParseServerPreference(args);
    var ranges := HandleRanges(args, serverPreference, fetch);
    if ranges.Err? {
      return Err(ranges.msg);
    }
    var soloFilenames := SoloFilenames(args);
    var hasRanges, hasFilenames := ranges.value != [], soloFilenames != [];
    if hasRanges && hasFilenames {
      return Err(ConflictMessage);
    }
    var filenames := ranges.value + soloFilenames;

    var shouldCleanup := "cleanup" in actions;
    actions := Without(actions, "cleanup");
    var prefs := Prefs(
      shouldCleanup,
      actions == [] || "download" in actions,
      actions == [] || "unzip" in actions,
      actions == [] || "extract" in actions,
      actions == [] || "report" in actions,
      serverPreference);
    FlagsOfDistinctActions(args, serverPreference);
    return Ok((filenames, prefs));
  }
}
