# NSF Patents: a Dafny model of the bulk-file scripts

NSFPatents gathers the United States patent applications and granted
patents whose government-interest statement names the National Science
Foundation. The USPTO publishes them as weekly bulk archives of
concatenated XML documents (`ipaYYMMDD.zip`, `ipgYYMMDD.zip`, and
`paYYMMDD.zip` / `pgYYMMDD.zip` before 2005). Five Ruby scripts do the work:

- `processFile.rb` reads a command line of actions, date ranges and
  archive names. It finds the archives on the Google or Reed Tech listing
  pages and works out where to download each one. It then streams an
  unzipped archive, keeping each `<us-patent-application>` or
  `<us-patent-grant>` block whose government-interest statement mentions
  the NSF. Finally it runs a list of field extractors over each kept
  document to write a CSV report.
- `reeddatae2e.rb` does the same end to end for one Reed Tech archive. It
  cuts the bulk file into documents at each XML declaration and keeps
  those with a line that mentions the NSF. It then writes a CSV row for
  each kept document whose government interest names the NSF.
- `reedtechparse.rb` walks week by week from a start date. It names the
  application and grant archives of each week, then cuts each unzipped
  archive into its documents.
- `miscFiles/PatentXMLtoCSV.rb` repairs a concatenated application file
  into one XML document with a `<root>`, then writes a CSV row for each
  application that carries a federal research statement.
- `fixCsvCols.rb` prints a CSV file as text, with every column
  right-aligned to its widest cell.

The model has one Dafny module per component. The modules are:

| module | file | models |
|---|---|---|
| `Outcomes` | `outcomes.dfy` | `Option`/`Result`, and the first error of a row of results |
| `Text` | `text.dfy` | Ruby string behaviour the scripts rely on: `include?`, line anchors, `strip`, `split`, `to_i`, `downcase` |
| `XmlModel` | `xml_model.dfy` | an abstract XML node: its markup and the text or elements at each path |
| `GovInterest` | `gov_interest.dfy` | the NSF regular expression and the marker-pair capture |
| `BlockSplitter` | `block_splitter.dfy` | `extract_file` |
| `ArchiveNames` | `archive_names.dfy` | dates in archive names, listing pages and download parameters |
| `FileRanges` | `file_ranges.dfy` | `FileRange`, `FileRangesHandler` |
| `Arguments` | `arguments.dfy` | `ArgumentsHandler`, `FilenamesHandler` |
| `Extractors` | `extractors.dfy` | the `Extractor` registry, `write_csv` and the two reports |
| `ReedDataE2e` | `reed_e2e.dfy` | `reeddatae2e.rb` |
| `ReedTechParse` | `reedtech_parse.dfy` | `reedtechparse.rb` |
| `PatentXmlToCsv` | `xml_to_csv.dfy` | `miscFiles/PatentXMLtoCSV.rb` |
| `FixCsvCols` | `csv_columns.dfy` | `fixCsvCols.rb` |

Where the scripts change state step by step, the model is a method with a
loop. Each such method is proved equal to a specification function, and
the lemmas beside that function state what the script promises. These
methods are `ExtractFile`, `CollectExtracts`, `GetRanges`,
`GetPtypesPresent`, `ExpandRanges`, `ParseServerPreference`,
`SplitNsfDocuments`, `DownloadSchedule`, `SplitDocuments`, `FixUp`,
`ColumnWidths` and `PrintRows`. A Ruby exception becomes `Err(message)`.

## Model

| member | source | states |
|---|---|---|
| Outcomes.Collect | processFile.rb:314 | collecting per-item results succeeds exactly when every item succeeds, giving their values in order; otherwise it gives the error of the first failing item |
| Text.IndexFrom | processFile.rb:139 | the first occurrence of a pattern at or after a position, or none: the lead marker a `(.*)` capture starts after |
| Text.LastIndexIn | processFile.rb:139 | the last occurrence of a pattern up to a bound, or none: the greedy `(.*)` with `/m` ends at the last tail marker |
| Text.ContainsOccurrence | reeddatae2e.rb:63 | `include?` holds exactly when the pattern occurs at some position |
| Text.Lines | processFile.rb:27 | Ruby's line segmentation for `^`/`$` anchors: at least one line, none holding a newline |
| Text.LinesJoin | processFile.rb:27 | the lines joined by newlines give back the string, less a final newline, after which `^` matches no further line |
| Text.LinesOfNewlineFree | processFile.rb:27 | a string without a newline is one line |
| Text.Lower | processFile.rb:473 | `downcase` keeps the length and lowers each character |
| Text.NewlinesToSpaces | processFile.rb:432 | `gsub(/\n/, " ")` keeps the length, leaves no newline and changes only the newlines |
| Text.NatToString | processFile.rb:98 | the decimal spelling of a number: all digits, no leading zero, reading back as the number |
| Text.DigitPrefix | reeddatae2e.rb:102 | the leading run of digits that `to_i` reads, ending at the first non-digit |
| Text.DigitPrefixOf | reeddatae2e.rb:102 | digits followed by a non-digit read back as exactly those digits |
| Text.Strip | processFile.rb:140 | `strip` never lengthens its argument |
| Text.StripSound | processFile.rb:140 | `strip` gives a contiguous slice with only whitespace cut on either side, and keeps no whitespace at its ends |
| Text.SplitAll | processFile.rb:590 | splitting at a separator gives at least one piece |
| Text.SplitFree | processFile.rb:590 | a string without the separator splits into itself |
| Text.SplitPair | processFile.rb:590 | `a-b` with no separator in `a` or `b` splits into `[a, b]` |
| Text.SplitAllJoin | processFile.rb:590 | joining the pieces with the separator gives back the string |
| Text.DropTrailingEmpty | processFile.rb:590 | `split` drops the trailing empty pieces and only those |
| XmlModel.FirstText | reeddatae2e.rb:212 | `.first.to_s`: the first text, or empty when there is none |
| XmlModel.PersonNames | processFile.rb:258-260 | one "first last" name per element, in order |
| XmlModel.OrgNames | processFile.rb:266-268 | one organisation name per element, in order |
| XmlModel.UnbracketBracketJoin | processFile.rb:261 | names without `]`, joined as `[a][b]...`, read back as the same names |
| XmlModel.BracketJoinSnoc | reeddatae2e.rb:172-175 | adding one element appends `[name]` to the accumulated column |
| GovInterest.SkipNonWord | processFile.rb:133 | `\W*`: skips exactly the non-word characters |
| GovInterest.NsfFromMeansNsfAt | processFile.rb:133 | the recursive matcher agrees with the `\bN\W*S\W*F\b` pattern at a position |
| GovInterest.FindNsfFrom | processFile.rb:133 | the search finds an NSF match at or after a position exactly when one exists |
| GovInterest.TextContainsNsfTerm | processFile.rb:132-134 | true exactly when there is a text and it mentions the NSF (a nil capture matches nothing) |
| GovInterest.NsfExamples | processFile.rb:133 | "National Science Foundation", "N.S.F" and "by NSF grant" match and "NSFX" does not |
| GovInterest.NoPairWithoutTail | processFile.rb:139-140 | no tail marker after the first lead means no capture |
| GovInterest.PairFound | processFile.rb:139-140 | a lead followed later by a tail gives a capture |
| GovInterest.CaptureBetween | processFile.rb:136-148 | a capture exists exactly when the marker pair occurs in order; it is the stripped text between the first lead and the last tail |
| GovInterest.BlockHasNsfGovtInterest | processFile.rb:150-159 | an `ipa` name uses the application markers, otherwise an `ipg` name the grant markers; any other name raises "unknown file type"; true exactly when the capture mentions the NSF |
| BlockSplitter.RunKeepsClosed | processFile.rb:177-202 | scanning more lines never loses a block already closed |
| BlockSplitter.FirstClose | processFile.rb:186 | the first closing line at or after a position, or none |
| BlockSplitter.ParseCoversInput | processFile.rb:177-202 | the pieces of the input (outside lines, closed blocks, a dangling block) put back together are the input |
| BlockSplitter.ParseWellFormed | processFile.rb:183-201 | each closed block opens with an opening line, ends at its first closing line and holds no other; only the last piece can dangle |
| BlockSplitter.RunInsideToClose | processFile.rb:183-194 | inside a block, lines gather up to and including the first closing line, which closes the block |
| BlockSplitter.RunInsideNoClose | processFile.rb:183-185 | a block that never closes is never emitted |
| BlockSplitter.OutsideLine | processFile.rb:195 | a line outside a block that opens none is dropped |
| BlockSplitter.RunFromOutside | processFile.rb:177-202 | the blocks the loop closes are the closed pieces of the input, in order |
| BlockSplitter.BlocksAreClosedPieces | processFile.rb:177-202 | the blocks of a file are the closed pieces of its parse |
| BlockSplitter.Retained | processFile.rb:188-191 | the kept blocks are a sub-sequence of the blocks |
| BlockSplitter.RetainedMembers | processFile.rb:188-191 | a block is kept exactly when it is a block and its government interest mentions the NSF |
| BlockSplitter.RetainedAppend | processFile.rb:188-191 | keeping distributes over concatenation |
| BlockSplitter.RetainedSnoc | processFile.rb:188-191 | closing one more block writes its lines exactly when it mentions the NSF |
| BlockSplitter.ExtractFile | processFile.rb:161-208 | writes the three-line prologue, then the lines of each NSF block in order, then `</root>`; an empty file raises StopIteration after the prologue; an unknown name raises at the first closed block |
| ArchiveNames.GetDateInt | processFile.rb:21-24 | the value of the first run of six digits in the name, or nil when there is none |
| ArchiveNames.DateIntOfName | processFile.rb:21-24 | `ipa021003.zip` and the like give the six digits' value |
| ArchiveNames.FirstDateLine | processFile.rb:27 | the first line matching `^...(\d\d)(\d\d)(\d\d)\.`, or none when no line matches |
| ArchiveNames.FullYear | processFile.rb:28 | a two-digit year below 50 is in the 2000s and from 50 on in the 1900s |
| ArchiveNames.GetDateFields | processFile.rb:26-30 | year, month and day from characters 3 to 8 of the first matching line; raises when no line matches; the year lies in 1950-2049 |
| ArchiveNames.DateFieldsOfName | processFile.rb:26-30 | a one-line name gives the fields of its own digits |
| ArchiveNames.PivotExamples | processFile.rb:28 | "02" is 2002, "49" is 2049, "50" is 1950 and "99" is 1999 |
| ArchiveNames.ListingPages | processFile.rb:44-52 | listing pages exist for "google" and "reedtech" only |
| ArchiveNames.DirectoryUrl | processFile.rb:44-61 | a type with an `app` line gives the application page and one with a `grant` line the grant page; anything else, or an unknown server, gives nil |
| ArchiveNames.DownloadParams | processFile.rb:84-106 | a name that is neither `ipa` nor `ipg` raises "unknown file type"; otherwise the mirror's server and its type template with the full year and the name |
| ArchiveNames.AppDownloadPath | processFile.rb:84-98 | an application archive from Google downloads from `/patents/appl_full_text/<year>/<name>` |
| ArchiveNames.ArchiveHrefFromWitness | processFile.rb:79 | the unanchored search finds `ip(a\|g)NNNNNN.zip` at or after a position exactly when it occurs there |
| ArchiveNames.FilterHrefs | processFile.rb:75-82 | the kept links are exactly the listing's archive links |
| ArchiveNames.FilterHrefsInOrder | processFile.rb:75-82 | the kept links are the listing's archive links in listing order, duplicates kept (`map` then `compact` keeps order) |
| ArchiveNames.FirstArchiveId | processFile.rb:546 | the first `ip[ag]NNNNNN` at or after a position, or none |
| ArchiveNames.ArchiveId | processFile.rb:546 | `match(/(ip[ag]\d{6})/)[1]`: present exactly when an identifier occurs, and then the nine characters at its leftmost occurrence |
| ArchiveNames.ArchiveHrefHasId | processFile.rb:541-546 | every archive link holds an identifier, so the `[1]` on the match never meets nil |
| FileRanges.FirstLineMatch | processFile.rb:597-598 | a part matches a grammar exactly when one of its lines does |
| FileRanges.AnyMatches | processFile.rb:600 | a grammar is taken when some part matches it |
| FileRanges.AllMatch | processFile.rb:597-605 | every part matches the grammar |
| FileRanges.ChooseGrammar | processFile.rb:596-604 | the first of the three grammars that some part matches, or none |
| FileRanges.ExpandYear | processFile.rb:621-636 | a two- or four-digit year becomes `yy0000` or `yy9999`; any other length gives nil |
| FileRanges.ParseRange | processFile.rb:589-610 | a range whose parts match no grammar raises; a parsed range keeps its type |
| FileRanges.ParseRangeMatched | processFile.rb:589-610 | a parsed range's first and last parts match the chosen grammar, and for dates every part does |
| FileRanges.ParseTwoDigitYear | processFile.rb:589-636 | `yy` is the range from `yy0000` to `yy9999` |
| FileRanges.ParseFourDigitYear | processFile.rb:589-636 | `ccyy` is the range from `yy0000` to `yy9999` |
| FileRanges.ArchiveIdMatches | processFile.rb:591-592 | an archive identifier is no year and matches the file-name grammar with its own date |
| FileRanges.SplitArchiveIds | processFile.rb:590 | `a-b` of two identifiers splits into them |
| FileRanges.ArchiveIdPart | processFile.rb:589-643 | an identifier part gives its own six date digits |
| FileRanges.ParseArchiveIdRange | processFile.rb:589-610 | `ipa021003-ipa021231` is the range between the two dates |
| FileRanges.SlashedPart | processFile.rb:593 | `mm/dd/yy` matches only the third grammar |
| FileRanges.ParseSlashedDate | processFile.rb:593-608 | `mm/dd/yy` is the one-day range `yymmdd` |
| FileRanges.MixedGrammarsFail | processFile.rb:597-609 | a year joined to an identifier raises, in either order |
| FileRanges.RangesFrom | processFile.rb:502-527 | the parsed ranges number at most the arguments; what they are is stated by `RangesAreArmedReadings` and `RangesFromArmed` |
| FileRanges.ReadToken | processFile.rb:506-511 | an armed argument gives its range when it parses, and otherwise the error naming it and its keyword |
| FileRanges.RangesAreArmedReadings | processFile.rb:502-527 | the ranges are the readings of the armed arguments (those right after a keyword that is not itself consumed), in argument order, collected up to the first failure |
| FileRanges.RangesFromArmed | processFile.rb:502-527 | success exactly when every armed argument parses as a range of its keyword's kind; on failure, the error names the first armed argument that does not parse |
| FileRanges.RangesFollowKeywords | processFile.rb:502-527 | every range parses the argument right after a `grant`/`ipg`/`app`/`ipa`/`both` keyword, with that keyword's type |
| FileRanges.GetRanges | processFile.rb:502-527 | the loop over the arguments computes `RangesFrom`, raising at the first token after a keyword that does not parse |
| FileRanges.GetPtypesPresent | processFile.rb:553-573 | "app" is listed exactly when some range needs applications, "grant" exactly when some range needs grants, and nothing else |
| FileRanges.PresentTypes | processFile.rb:553-573 | the same, as a function |
| FileRanges.AutoExtract | processFile.rb:32-41 | a listing exactly for each listed type, application first: the archive links of that type's page, fetched from its directory URL; an unknown server fails when a listing is needed |
| FileRanges.ListingFor | processFile.rb:32-82 | one type's listing: the archive links among the link targets fetched from that type's directory URL; an unknown server fails |
| FileRanges.KeepEntry | processFile.rb:541-547 | an entry is kept only when its date lies between the range's bounds, and then its identifier is pushed |
| FileRanges.KeepArchiveHref | processFile.rb:541-547 | an archive link is kept exactly when its date is within the bounds |
| FileRanges.SelectFrom | processFile.rb:541-548 | at most one identifier per listing entry; order and multiplicity are stated by `SelectInListingOrder` |
| FileRanges.SelectInListingOrder | processFile.rb:541-548 | one pushed identifier per in-window entry, in listing order, an entry listed twice being pushed twice |
| FileRanges.SelectInclusive | processFile.rb:541-548 | an identifier is selected exactly when a listing entry with that identifier lies in the window, both bounds included |
| FileRanges.PushSelected | processFile.rb:541-548 | the inner loop appends the selected identifiers to those already found |
| FileRanges.ExpandAll | processFile.rb:529-551 | every expanded name is an archive identifier |
| FileRanges.ExpandRanges | processFile.rb:529-551 | the loop over the ranges computes `ExpandAll` |
| FileRanges.PresentTypesCoverRanges | processFile.rb:530-540 | every range finds a listing for its type among those fetched |
| FileRanges.RangesResult | processFile.rb:496-499 | a range parse error propagates; no ranges give no names; every name is an identifier |
| FileRanges.RangesNeverReadNilListing | processFile.rb:530-541 | with a known server, no range ever iterates over a nil listing |
| FileRanges.HandleRanges | processFile.rb:496-499 | parse, fetch the needed listings, expand |
| Arguments.FirstNamingArgumentWins | processFile.rb:469-478 | the first argument matching `^google\|reedtech$` (case-insensitive) decides, downcased |
| Arguments.NoNamingArgumentMeansGoogle | processFile.rb:470 | with no such argument the preference is "google" |
| Arguments.ParseServerPreference | processFile.rb:469-478 | the loop with its `break` gives that preference |
| Arguments.ServerWordNamesServer | processFile.rb:472 | "ReedTech" in any case names a server |
| Arguments.MixedCaseServer | processFile.rb:472-473 | the first such word yields "reedtech" |
| Arguments.SoloFilenames | processFile.rb:481-493 | an identifier is listed exactly when some argument holds it; order and duplicates are stated by `SoloFilenamesInOrder` |
| Arguments.SoloFilenamesInOrder | processFile.rb:481-493 | `map` then `compact`: one identifier per argument that holds one, in argument order, duplicates kept |
| Arguments.RangeTokenIsAlsoFilename | processFile.rb:484 | a range token `a-b` of identifiers also counts as the file name `a` |
| Arguments.IdRangeTokenConflicts | processFile.rb:443-455 | after a keyword, an identifier range token is read as a range and also gives a solo file name, so a non-empty range raises the conflict |
| Arguments.UnarmedArgs | processFile.rb:502-527 | the arguments not read as range tokens, and only those |
| Arguments.IntendedSoloFilenamesSkipRangeTokens | processFile.rb:443-456 | with the intended file names, an identifier is a file name exactly when an argument that is not a range token holds it |
| Arguments.IdRangeTokenNoConflict | processFile.rb:443-456 | with the intended file names, a keyword followed by an identifier range names no solo file |
| Arguments.ActionArgs | processFile.rb:439 | exactly the arguments that are an action word on one of their lines |
| Arguments.Uniq | processFile.rb:439 | `uniq` keeps the same members and no duplicates |
| Arguments.Without | processFile.rb:458 | `delete` removes every copy of the word and nothing else |
| Arguments.ActionWordIsAction | processFile.rb:439 | each of the five words is an action |
| Arguments.ActionWordPresent | processFile.rb:439 | an action word is among the actions exactly when it is an argument |
| Arguments.NothingLeftAfterCleanup | processFile.rb:458-462 | the action list is empty after removing "cleanup" exactly when no other action was given |
| Arguments.FlagsOfDistinctActions | processFile.rb:457-464 | each flag is set when its word was given or, except cleanup, when no action other than cleanup was |
| Arguments.LoneCleanupRunsEverything | processFile.rb:458-462 | "cleanup" alone turns on every stage |
| Arguments.HandleArgs | processFile.rb:437-467 | raises exactly when ranges fail or both ranges and file names are given; otherwise the names are the ranges' then the solo names, and the flags follow the actions |
| Extractors.FieldNames | processFile.rb:322 | the CSV header is the extractors' field names, in order |
| Extractors.InventorsTag | processFile.rb:418-426 | `.//applicant` for 2007-2011, `.//inventor/addressbook` from 2012, and a raise before 2007 |
| Extractors.FieldValue | processFile.rb:222-300 | the inventor and assignee extractors raise when the name has no date; the others never raise |
| Extractors.InventorsByYear | processFile.rb:253-262 | inventors come from the year's path, and a year before 2007 raises |
| Extractors.FieldResults | processFile.rb:314 | one result per extractor, in order |
| Extractors.RowFollowsExtractors | processFile.rb:314 | a row exists exactly when every extractor succeeds, and its cells are their values in order |
| Extractors.KeptRows | processFile.rb:310-316 | no rows when the marker is missing; otherwise one row per node, and the first failing node raises |
| Extractors.CollectExtracts | processFile.rb:310-316 | the loop over the nodes computes `KeptRows` |
| Extractors.WriteCsv | processFile.rb:428-435 | the header, then one line per row of the same shape, each cell its value with every newline made a space |
| Extractors.PlainValuesUnchanged | processFile.rb:432 | a value without a newline is written as it is |
| Extractors.Report | processFile.rb:236-239 | no report unless the name holds the type's mark; with the mark, a name without a date raises |
| Extractors.ReportShape | processFile.rb:236-416 | the header then one row per document, or none when the file has no marker instruction; every row as wide as the extractor list, with no newline in a cell |
| Extractors.RowsShape | processFile.rb:306-317 | no rows, or one per document when the marker instruction is present anywhere in the file |
| Extractors.TableShape | processFile.rb:428-435 | rows as wide as the header stay so, with no newline in a cell |
| Extractors.ReportNeedsEveryRow | processFile.rb:310-316 | with the marker present, the report succeeds exactly when every document's row does |
| Extractors.ProduceReport | processFile.rb:236-324 | the method computes `Report` |
| Extractors.EarlyApplicationsFail | processFile.rb:418-426 | an application file dated before 2007 with a document to report raises |
| Extractors.RuleFailsRow | processFile.rb:314 | one failing extractor fails the row |
| Extractors.FailingRowFailsReport | processFile.rb:310-316 | one failing row fails the report |
| ReedDataE2e.DownloadTarget | reeddatae2e.rb:26-32 | "p" downloads from GrantRedBookText with prefix NSFpatents; anything else from ApplicationFullText with NSFapplications |
| ReedDataE2e.SliceDroppingLastThree | reeddatae2e.rb:58-60 | `s[from..-4]` is nil past the end, and otherwise `s[from..]` without its last three characters |
| ReedDataE2e.ExtractNamesOf | reeddatae2e.rb:58-60 | the input and output names exist exactly when the archive name has at least three characters |
| ReedDataE2e.ZipArchiveNames | reeddatae2e.rb:58-60 | `NAME.zip` reads `NAME.xml` and writes `NAME[3..]` + `.` + prefix + `.xml` |
| ReedDataE2e.Header | reeddatae2e.rb:63-72 | a declaration among the first two lines is copied, and `<root>` follows one on the second line |
| ReedDataE2e.Selected | reeddatae2e.rb:73-76 | at most one written text per document |
| ReedDataE2e.SelectedAppend | reeddatae2e.rb:73-76 | closing one more document writes its text exactly when it is flagged |
| ReedDataE2e.SelectedMembers | reeddatae2e.rb:73-76 | a text is written exactly when it is the text of a flagged document |
| ReedDataE2e.HeaderStep | reeddatae2e.rb:64-71 | each of the first two lines adds its declaration, and the second also `<root>` |
| ReedDataE2e.GroupsStep | reeddatae2e.rb:63-87 | a body line joins the open document; a later declaration closes it |
| ReedDataE2e.FlaggedSnoc | reeddatae2e.rb:80-84 | a document is flagged exactly when some line says " NSF ", "National Science Foundation", " NSF" or "NSF " |
| ReedDataE2e.EarlyDeclarationStep | reeddatae2e.rb:64-71 | the loop's variables stay those of the specification after a declaration among the first two lines |
| ReedDataE2e.LateDeclarationStep | reeddatae2e.rb:73-79 | the same after a later declaration, which writes a flagged document and resets |
| ReedDataE2e.BodyLineStep | reeddatae2e.rb:80-91 | the same after a body line |
| ReedDataE2e.SplitNsfDocuments | reeddatae2e.rb:54-93 | writes the header, then each flagged document closed by a declaration, then `</root>` |
| ReedDataE2e.FinalDocumentDropped | reeddatae2e.rb:73-93 | the last document is never written: lines after the last declaration change nothing |
| ReedDataE2e.ClosedGroupsUnchanged | reeddatae2e.rb:63-87 | lines without a declaration close no document |
| ReedDataE2e.BodyLines | reeddatae2e.rb:63-87 | the body lines hold no declaration |
| ReedDataE2e.GroupsPartitionBody | reeddatae2e.rb:63-87 | the documents and the open one, put back together, are the body lines in order |
| ReedDataE2e.NoDeclarationInDocuments | reeddatae2e.rb:63-87 | no document holds a declaration line |
| ReedDataE2e.SkipSpaces | reeddatae2e.rb:102 | `to_i` skips leading whitespace: a suffix that starts with no space |
| ReedDataE2e.ToIOfDigits | reeddatae2e.rb:102 | a year written in digits reads back as that year |
| ReedDataE2e.InventorPath | reeddatae2e.rb:164-176 | inventors come from `.//applicant` exactly before 2007 |
| ReedDataE2e.ColumnValues | reeddatae2e.rb:148-238 | one value per column, in order |
| ReedDataE2e.Row | reeddatae2e.rb:139-238 | a row is as wide as the layout |
| ReedDataE2e.RowSkipsUnlessNsf | reeddatae2e.rb:144-208 | a document gets a row exactly when it has the marker pair and the paragraph text between them mentions the NSF; its govint cell says so |
| ReedDataE2e.Kept | reeddatae2e.rb:139-241 | at most one row per document |
| ReedDataE2e.KeptMembers | reeddatae2e.rb:139-241 | a row is kept exactly when some document gives it |
| ReedDataE2e.KeptIsFilterMap | reeddatae2e.rb:139-241 | the rows appended one document at a time come in document order, one per document that is not skipped |
| ReedDataE2e.Rows | reeddatae2e.rb:139-241 | at most one row per document |
| ReedDataE2e.RowsMembers | reeddatae2e.rb:139-241 | a row is written exactly when some document gives it |
| ReedDataE2e.RowsInOrder | reeddatae2e.rb:139-241 | one row per document that is not skipped, in document order: the k-th row is the row of the k-th such document |
| ReedDataE2e.RowsAreNsfDocuments | reeddatae2e.rb:200-208 | every written row has the layout's width and a government interest that mentions the NSF |
| ReedDataE2e.LayoutsAgree | reeddatae2e.rb:108-271 | 14 application and 16 grant columns, each FIELDS name paired with its value, `govint` in place |
| ReedDataE2e.PctNumberNeedsWO | reeddatae2e.rb:223-227 | the PCT number is filled in only when the country is WO |
| ReedDataE2e.InventorsReadBack | reeddatae2e.rb:164-176 | the inventors column reads back as the inventors' names |
| ReedDataE2e.AccumulateInventors | reeddatae2e.rb:172-175 | the loop builds `[first last]` for each inventor in order |
| ReedDataE2e.AccumulateAssignees | reeddatae2e.rb:231-235 | the loop builds `[orgname]` for each assignee in order |
| ReedDataE2e.BuildRow | reeddatae2e.rb:139-238 | computes `Row` |
| ReedDataE2e.BuildColumns | reeddatae2e.rb:148-238 | computes the column values |
| ReedDataE2e.ConvertNodes | reeddatae2e.rb:139-241 | the loop over the documents computes `Rows` |
| ReedDataE2e.Conversion | reeddatae2e.rb:100-241 | succeeds exactly for years 2012-2014 and names of at least three characters, writing the FIELDS header and then exactly the rows of the NSF documents, at most one per document |
| ReedDataE2e.CsvStage | reeddatae2e.rb:100-388 | a type other than "a" or "p" writes nothing; otherwise it succeeds exactly when `to_i` of the year is in 2012-2014 and the name is long enough, writing the type's header and the rows of its NSF documents |
| ReedDataE2e.RunConversion | reeddatae2e.rb:132-241 | computes `Conversion` |
| ReedDataE2e.RunCsvStage | reeddatae2e.rb:100-388 | computes `CsvStage` |
| ReedTechParse.Pad2 | reedtechparse.rb:43-58 | a month or day below 100 is two digits with its value |
| ReedTechParse.Prefix | reedtechparse.rb:38-42 | "i" from 2005 on, "" before |
| ReedTechParse.YearDigits | reedtechparse.rb:59-60 | `year.to_s[2..3]` of a four-digit year is its last two digits |
| ReedTechParse.FourDigitYear | reedtechparse.rb:59 | a four-digit year's spelling ends in its two low digits |
| ReedTechParse.NamesMatchListingFilter | reedtechparse.rb:59-60 | every name from 2005 on passes the listing filter `ip(a\|g)NNNNNN.zip` of processFile.rb |
| ReedTechParse.UnzippedName | reedtechparse.rb:100-110 | `NAME.zip` unzips to `NAME.xml` |
| ReedTechParse.WeekFilesAsWritten | reedtechparse.rb:38-79 | the week's names as written: the prefix, the two year digits and both folders from `datelooper`'s year, month and day from `datelooperapps` and `datelooperissued`; defined when that year has two digits to take |
| ReedTechParse.WeekFilesOf | reedtechparse.rb:38-79 | the corrected names: defined when both dates' years have four digits |
| ReedTechParse.WeekFilesOfOwnYear | reedtechparse.rb:38-79 | each archive's name and folder use its own date's year |
| ReedTechParse.SameYearNamesAgree | reedtechparse.rb:59-60 | when the issue date is in the loop date's year, both agree |
| ReedTechParse.GrantUrlFolder | reedtechparse.rb:79 | the grant URL's folder is the year given |
| ReedTechParse.AsWrittenAgreesIffSameYear | reedtechparse.rb:59-79 | the names as written are right exactly when the issue date is in the loop date's year |
| ReedTechParse.IssuedYearMismatch | reedtechparse.rb:31-60 | for 2003-01-02 the script asks for `pg031231.zip` where the grants of 2002-12-31 are `pg021231.zip` |
| ReedTechParse.YearDigitsOfSpelling | reedtechparse.rb:59 | a year spelled `ccyy` gives `yy` |
| ReedTechParse.Weeks | reedtechparse.rb:37-188 | the number of passes: the last one starts before the test date and the next would not |
| ReedTechParse.Iterate | reedtechparse.rb:37-188 | the `k`th pass gives the `k`th result |
| ReedTechParse.WeekResultsAt | reedtechparse.rb:185-187 | the `k`th week's names are those of the dates `7k` days on |
| ReedTechParse.WeeksBound | reedtechparse.rb:37 | the loop runs pass `m` exactly when `m` is below the number of weeks |
| ReedTechParse.DownloadSchedule | reedtechparse.rb:28-187 | the loop asks for each week's names as the script builds them, in turn, applications on the loop date and grants two days earlier; a year without two digits to take stops it |
| ReedTechParse.ScheduleIsPublishedWithinYears | reedtechparse.rb:28-187 | when no week's issue date falls in an earlier year than its loop date, the script asks for exactly the published archives |
| ReedTechParse.DocumentGroupsSound | reedtechparse.rb:100-109 | splitting succeeds exactly when the file is empty or opens with a declaration; then there is one document per declaration and together they are the file |
| ReedTechParse.GroupsSnocGroup | reedtechparse.rb:103-105 | a declaration line opens a new document |
| ReedTechParse.GroupsSnocLine | reedtechparse.rb:106-107 | any other line extends the current document |
| ReedTechParse.SplitDocuments | reedtechparse.rb:95-119 | each document's text is its lines joined; a line before the first declaration raises (`nil + String`) |
| PatentXmlToCsv.OutputFilename | miscFiles/PatentXMLtoCSV.rb:35 | the first thirteen characters of the argument, then `s.csv` |
| PatentXmlToCsv.UndeclaredMembers | miscFiles/PatentXMLtoCSV.rb:50-54 | the kept lines are exactly those without a declaration, in their order |
| PatentXmlToCsv.FixedDocumentHead | miscFiles/PatentXMLtoCSV.rb:42-49 | the document opens with the first line, then `<root>` in place of the second |
| PatentXmlToCsv.FixUp | miscFiles/PatentXMLtoCSV.rb:39-55 | the loop over the lines builds the repaired document |
| PatentXmlToCsv.FixedDocumentStep | miscFiles/PatentXMLtoCSV.rb:50-54 | each later line is appended unless it is a declaration |
| PatentXmlToCsv.UndeclaredSnoc | miscFiles/PatentXMLtoCSV.rb:50-54 | dropping declarations distributes over one more line |
| PatentXmlToCsv.FixedDocumentLines | miscFiles/PatentXMLtoCSV.rb:40-55 | the document is line one, `<root>`, then every later line that is not a declaration |
| PatentXmlToCsv.Row | miscFiles/PatentXMLtoCSV.rb:62-133 | an application gets a row exactly when it carries the research-statement pair, and the row has the twelve FIELDS |
| PatentXmlToCsv.RowColumns | miscFiles/PatentXMLtoCSV.rb:71-129 | each column holds its path's text: inventors from `.//applicant`, govint from the statement's paragraph, the PCT number only for WO |
| PatentXmlToCsv.ColumnsAt | miscFiles/PatentXMLtoCSV.rb:9-33 | twelve columns in the FIELDS order |
| PatentXmlToCsv.Rows | miscFiles/PatentXMLtoCSV.rb:62-133 | at most one row per application |
| PatentXmlToCsv.RowsMembers | miscFiles/PatentXMLtoCSV.rb:62-69 | a row is written exactly when an application with a research statement gives it; every row has twelve cells |
| PatentXmlToCsv.RowsInOrder | miscFiles/PatentXMLtoCSV.rb:62-133 | one row per application that gives one, in document order: the k-th row is the row of the k-th such application |
| PatentXmlToCsv.ConvertApplications | miscFiles/PatentXMLtoCSV.rb:62-133 | the loop over the applications computes `Rows` |
| PatentXmlToCsv.Script | miscFiles/PatentXMLtoCSV.rb:35-133 | the header, then exactly the twelve-cell rows of the repaired document's applications with a statement, at most one each |
| PatentXmlToCsv.RowsWidth | miscFiles/PatentXMLtoCSV.rb:11-32 | every row has twelve cells |
| PatentXmlToCsv.RunScript | miscFiles/PatentXMLtoCSV.rb:35-133 | computes `Script` |
| FixCsvCols.Table | fixCsvCols.rb:5 | `csv.to_a`: the header, then each record padded with nil to the header's length |
| FixCsvCols.Padded | fixCsvCols.rb:5 | every record padded in order |
| FixCsvCols.PadRecord | fixCsvCols.rb:5 | the fields kept, then nils up to the length |
| FixCsvCols.ColumnWidthIsWidest | fixCsvCols.rb:6-14 | a column's width is at least each of its cells and equals one of them, or zero |
| FixCsvCols.Widths | fixCsvCols.rb:6-14 | one width per header column |
| FixCsvCols.ColumnWidthSnoc | fixCsvCols.rb:9-11 | one more row raises a width only where its cell is wider |
| FixCsvCols.WidthsStep | fixCsvCols.rb:8-11 | one more cell keeps the fold's invariant |
| FixCsvCols.WidthsRowDone | fixCsvCols.rb:7-13 | a finished row leaves the widths of the rows so far |
| FixCsvCols.ColumnWidths | fixCsvCols.rb:6-14 | the fold gives the widths, and raises when a row is longer than the header (nil compared with an Integer) |
| FixCsvCols.PadLeft | fixCsvCols.rb:16-19 | `%Ns` right-aligns: spaces then the value, the value kept whole when wider |
| FixCsvCols.Aligned | fixCsvCols.rb:19 | each cell right-aligned to its width |
| FixCsvCols.FormatStringAligns | fixCsvCols.rb:16-19 | the built format prints a row as its cells right-aligned and joined by `, `; a bare `%` or too few cells raise |
| FixCsvCols.FormatDirective | fixCsvCols.rb:19 | `%Ns` consumes one argument and pads it |
| FixCsvCols.FormatLiteral | fixCsvCols.rb:19 | a literal character is copied |
| FixCsvCols.FormatSeparator | fixCsvCols.rb:16-19 | the `, ` separator is copied |
| FixCsvCols.AlignedCellsFill | fixCsvCols.rb:6-19 | every printed cell is as wide as its column and ends in the cell's text |
| FixCsvCols.PrintRows | fixCsvCols.rb:18-20 | the loop prints each row in turn, stopping at the first that raises |
| FixCsvCols.PrintedLines | fixCsvCols.rb:16-20 | printing with the built format formats every row as intended |
| FixCsvCols.AlignColumns | fixCsvCols.rb:5-20 | the script computes its specification |
| FixCsvCols.TableLinesSound | fixCsvCols.rb:6-20 | the output exists exactly when the header is not empty and no row is longer; then it is one aligned line per row |
| FixCsvCols.AlignedLinesSound | fixCsvCols.rb:5-20 | the same for a parsed file: the header line first, then one aligned line per record |
| FixCsvCols.FormattedTable | fixCsvCols.rb:18-20 | all rows print exactly when there is a width, one aligned line each |
| FixCsvCols.RecordsWithinHeader | fixCsvCols.rb:5-9 | padding fits the table to the header exactly when no record is longer |

## Left out

- Network access, downloads, `unzip`, file reads and writes, deletions and progress output (`puts` of counters and field values) are not modelled. This covers `get_webpage`, `download_file` and the Net::HTTP blocks of the scripts. Where a result depends on one of them, it is a parameter: a listing fetch `fetch`, the input lines, or the parsed document.
- The main loop of processFile.rb (lines 650-717) is not modelled. It only sequences the stages modelled above over the file names.
- XML parsing and XPath are abstract. A node is its markup plus the texts and elements at each path, and `Nokogiri::XML.fragment(s).xpath("./p/text()").to_s` is the parameter `paragraphText`. In PatentXMLtoCSV.rb the parse of the repaired string is the parameter `parse`. In reedtechparse.rb the Nokogiri NSF filter over each document, and the `a+` writes it guards (lines 123-130 and 175-183), are not modelled.
- Dates in reedtechparse.rb are day numbers. The calendar (`Date` fields of a day number) is the parameter `civil`. `Date.today` and the wall clock are not used.
- CSV quoting and parsing (`CSV.open`, `CSV.parse`) are not modelled. A written CSV is its table of cells, and a parsed CSV is its header and records.
- Output written with `puts` and `a+` appends is modelled as the sequence of written lines. The newline `puts` adds is left out.
- Ruby `downcase` is ASCII lowering. Only comparisons against ASCII keywords depend on it.
- `String#%` is modelled for literal characters and `%<digits>s` directives only, which is all the format of fixCsvCols.rb uses.
- `throw` of a `StandardError` in processFile.rb raises an `UncaughtThrowError` in Ruby. Both are `Err` here, with the message the script builds.
- The exact text of Ruby's own exceptions (NoMethodError, NameError, ArgumentError) is approximated.
- A missing command-line argument in reeddatae2e.rb is the empty string rather than nil.
- `to_i` underscores (`"20_12".to_i`) are not modelled. The years are plain digits.
- The "No Cross-Ref found" branch of reeddatae2e.rb and PatentXMLtoCSV.rb is not modelled. `xpath` always returns a node set, never nil, so the branch cannot be reached.
- `ReedDataE2e.Conversion` models the years 2002-2004 (`foo`) and the other years outside 2012-2014 (FIELDS never assigned) only as errors.

## Findings

| source | as written | input that shows it | evidently intended | confidence | as-written member | corrected member |
|---|---|---|---|---|---|---|
| reedtechparse.rb:59-79 | the grant archive's two-digit year and download folder come from `datelooper.year`, the application date's year | `datelooper` 2003-01-02, so `datelooperissued` is 2002-12-31: the script asks for `/downloads/GrantRedBookText/2003/pg031231.zip` | `pg021231.zip` in folder 2002, the year of `datelooperissued` | not executed | ReedTechParse.WeekFilesAsWritten | ReedTechParse.WeekFilesOf |
| processFile.rb:443-456 | `FilenamesHandler` takes an identifier from every argument, also from a range token such as `ipg021001-ipg021231` that `get_ranges` reads after a keyword | `grant ipg021001-ipg021231` with a listing holding an archive of that window: the range is non-empty and the token also gives the file name `ipg021001`, so the conflict between ranges and file names is raised | range tokens are not file names, so the documented identifier-range syntax can be used on its own | not executed | Arguments.IdRangeTokenConflicts | Arguments.IntendedSoloFilenamesSkipRangeTokens |

`ReedTechParse.IssuedYearMismatch` shows the first input. `ReedTechParse.AsWrittenAgreesIffSameYear` shows that the script's names and the published ones agree exactly when the issue date falls in the loop date's year. `ReedTechParse.DownloadSchedule` models the loop as written, and `ReedTechParse.PublishedSchedule` is the schedule of published names; `ReedTechParse.ScheduleIsPublishedWithinYears` shows that the two agree when no week crosses a year boundary.

For the second row, `Arguments.HandleArgs` models `handle_args` as written: its contract raises the conflict whenever both the ranges and `SoloFilenames` are non-empty. `Arguments.IntendedSoloFilenames` is the intended file-name list, and `Arguments.IdRangeTokenNoConflict` shows that it gives nothing for the token of the input above.
