/** The government-interest classifier of processFile.rb: scraping the text
    between a processing-instruction marker pair and looking for a mention of
    the National Science Foundation in it. */
module GovInterest {
  import opened Outcomes
  import opened Text

  const AppLead := "<?federal-research-statement description=\"Federal Research Statement\" end=\"lead\"?>"
  const AppTail := "<?federal-research-statement description=\"Federal Research Statement\" end=\"tail\"?>"
  const GrantLead := "<?GOVINT description=\"Government Interest\" end=\"lead\"?>"
  const GrantTail := "<?GOVINT description=\"Government Interest\" end=\"tail\"?>"

  const FoundationName := "National Science Foundation"

  // ---------------------------------------------------------------------
  // The NSF test: /\bN\W*S\W*F\b|National Science Foundation/m

  /** The first alternative matches with its `N`, `S` and `F` at `i`, `j`, `k`:
      only non-word characters between the letters, a word boundary before
      the `N` and after the `F`. */
  predicate NsfAt(s: string, i: int, j: int, k: int) {
    && 0 <= i < j < k < |s|
    && s[i] == 'N' && s[j] == 'S' && s[k] == 'F'
    && (i == 0 || !IsWordChar(s[i - 1]))
    && (k + 1 == |s| || !IsWordChar(s[k + 1]))
    && (forall m | i < m < j :: !IsWordChar(s[m]))
    && (forall m | j < m < k :: !IsWordChar(s[m]))
  }

  /** What the regular expression of `text_contains_nsf_term` accepts. */
  ghost predicate MentionsNsf(s: string) {
    (exists i, j, k :: NsfAt(s, i, j, k)) || Contains(s, FoundationName)
  }

  /** The first word character at or after `i`. */
  function SkipNonWord(s: string, i: nat): (k: nat)
    requires i <= |s|
    ensures i <= k <= |s|
    ensures forall m | i <= m < k :: !IsWordChar(s[m])
    ensures k < |s| ==> IsWordChar(s[k])
    decreases |s| - i
  {
    if i == |s| || IsWordChar(s[i]) then i else SkipNonWord(s, i + 1)
  }

  /** Whether the first alternative matches starting at `i`. */
  predicate NsfFrom(s: string, i: nat) {
    && i < |s| && s[i] == 'N' && (i == 0 || !IsWordChar(s[i - 1]))
    && var j := SkipNonWord(s, i + 1);
    && j < |s| && s[j] == 'S'
    && var k := SkipNonWord(s, j + 1);
    && k < |s| && s[k] == 'F' && (k + 1 == |s| || !IsWordChar(s[k + 1]))
  }

  lemma NsfFromMeansNsfAt(s: string, i: nat)
    ensures NsfFrom(s, i) <==> exists j, k :: NsfAt(s, i, j, k)
  {
    if NsfFrom(s, i) {
      var j := SkipNonWord(s, i + 1);
      var k := SkipNonWord(s, j + 1);
      assert NsfAt(s, i, j, k);
    }
    if exists j, k :: NsfAt(s, i, j, k) {
      var j, k :| NsfAt(s, i, j, k);
      // the S is the first word character after the N, the F the first after the S
      assert SkipNonWord(s, i + 1) == j;
      assert SkipNonWord(s, j + 1) == k;
    }
  }

  /** Searches for a start position of the first alternative at or after `i`. */
  function FindNsfFrom(s: string, i: nat): (found: bool)
    ensures found <==> exists p, j, k | p >= i :: NsfAt(s, p, j, k)
    decreases |s| - i
  {
    if i >= |s| then false
    else
      NsfFromMeansNsfAt(s, i);
      NsfFrom(s, i) || FindNsfFrom(s, i + 1)
  }

  /** `text_contains_nsf_term(text)`; Ruby's `Regexp#match(nil)` is nil, so an
      absent text is no mention. */
  function TextContainsNsfTerm(text: Option<string>): (r: bool)
    ensures r <==> text.Some? && MentionsNsf(text.value)
  {
    match text
    case None => false
    case Some(s) =>
      FindNsfFrom(s, 0) || Contains(s, FoundationName)
  }

  lemma {:induction false} NsfExamples()
    ensures MentionsNsf("National Science Foundation")
    ensures MentionsNsf("N.S.F")
    ensures MentionsNsf("by NSF grant")
    ensures !MentionsNsf("NSFX")
  {
    assert OccursAt("National Science Foundation", FoundationName, 0);
    assert NsfAt("N.S.F", 0, 2, 4);
    assert NsfAt("by NSF grant", 3, 4, 5);
    var s := "NSFX";
    forall i, j, k ensures !NsfAt(s, i, j, k) {
      if 0 <= i < j < k < |s| && s[k] == 'F' {
        assert k == 2 && IsWordChar(s[k + 1]);
      }
    }
    assert !Contains(s, FoundationName);
  }

  // ---------------------------------------------------------------------
  // Marker-pair scraping: text.match(/#{lead}(.*)#{tail}/m) and [1].strip

  /** A lead marker followed, without overlap, by a tail marker. */
  ghost predicate HasMarkerPair(text: string, lead: string, tail: string) {
    exists i, t :: i + |lead| <= t && OccursAt(text, lead, i) && OccursAt(text, tail, t)
  }

  ghost predicate IsFirstOccurrence(text: string, pat: string, i: int) {
    OccursAt(text, pat, i) && forall j | 0 <= j < i :: !OccursAt(text, pat, j)
  }

  ghost predicate IsLastOccurrence(text: string, pat: string, t: int) {
    OccursAt(text, pat, t) && forall j | j > t :: !OccursAt(text, pat, j)
  }

  /** With no tail marker after the first lead marker there is no pair. */
  lemma NoPairWithoutTail(text: string, lead: string, tail: string, i: nat)
    requires IsFirstOccurrence(text, lead, i)
    requires forall t | i + |lead| <= t <= |text| - |tail| :: !OccursAt(text, tail, t)
    ensures !HasMarkerPair(text, lead, tail)
  {
    forall i', t' | i' + |lead| <= t' && OccursAt(text, lead, i')
      ensures !OccursAt(text, tail, t')
    {
      assert i <= i';
    }
  }

  /** The first lead marker and the last tail marker after it, as the two
      searches find them, form a pair. */
  lemma PairFound(text: string, lead: string, tail: string, i: nat, t: nat)
    requires OccursAt(text, lead, i) && forall j | 0 <= j < i :: !OccursAt(text, lead, j)
    requires i + |lead| <= t && OccursAt(text, tail, t)
    requires forall j | t < j <= |text| - |tail| :: !OccursAt(text, tail, j)
    ensures IsFirstOccurrence(text, lead, i) && IsLastOccurrence(text, tail, t)
    ensures HasMarkerPair(text, lead, tail)
  {
  }

  /** The greedy capture is absent exactly when there is no marker pair;
      otherwise it runs from the end of the first lead marker to the start of
      the last tail marker, and is stripped of surrounding whitespace. */
  function CaptureBetween(text: string, lead: string, tail: string): (r: Option<string>)
    ensures r.Some? <==> HasMarkerPair(text, lead, tail)
    ensures r.Some? ==> exists i, t ::
      && IsFirstOccurrence(text, lead, i) && IsLastOccurrence(text, tail, t)
      && i + |lead| <= t && r.value == Strip(text[i + |lead|..t])
  {
    match IndexFrom(text, lead, 0)
    case None => None
    case Some(i) =>
      match LastIndexIn(text, tail, i + |lead|, |text| - |tail|)
      case None =>
        NoPairWithoutTail(text, lead, tail, i);
        None
      case Some(t) =>
        PairFound(text, lead, tail, i, t);
        Some(Strip(text[i + |lead|..t]))
  }

  /** `extract_govt_interest_from_app` */
  function GovtInterestFromApp(text: string): Option<string> {
    CaptureBetween(text, AppLead, AppTail)
  }

  /** `extract_govt_interest_from_grant` */
  function GovtInterestFromGrant(text: string): Option<string> {
    CaptureBetween(text, GrantLead, GrantTail)
  }

  /** The marker pair is chosen by the file name (`=~ /ipa/` first, then
      `=~ /ipg/`), not by the kind of block being classified. */
  predicate IsAppName(filename: string) {
    Contains(filename, "ipa")
  }

  predicate IsGrantName(filename: string) {
    !IsAppName(filename) && Contains(filename, "ipg")
  }

  function UnknownFileType(filename: string): string {
    "unknown file type (" + filename + ")"
  }

  /** `block_has_nsf_govt_interest(lines, filename)` */
  function BlockHasNsfGovtInterest(lines: seq<string>, filename: string): (r: Result<bool>)
    ensures r.Err? <==> !IsAppName(filename) && !IsGrantName(filename)
    ensures r.Err? ==> r.msg == UnknownFileType(filename)
    ensures IsAppName(filename) ==> r.Ok? && (r.value <==>
      var g := CaptureBetween(Flatten(lines), AppLead, AppTail); g.Some? && MentionsNsf(g.value))
    ensures IsGrantName(filename) ==> r.Ok? && (r.value <==>
      var g := CaptureBetween(Flatten(lines), GrantLead, GrantTail); g.Some? && MentionsNsf(g.value))
    ensures r == Ok(true) ==> HasMarkerPair(Flatten(lines), AppLead, AppTail) || HasMarkerPair(Flatten(lines), GrantLead, GrantTail)
  {
    if IsAppName(filename) then Ok(TextContainsNsfTerm(GovtInterestFromApp(Flatten(lines))))
    else if Contains(filename, "ipg") then Ok(TextContainsNsfTerm(GovtInterestFromGrant(Flatten(lines))))
    else Err(UnknownFileType(filename))
  }
}
