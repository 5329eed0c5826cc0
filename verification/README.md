# Infoscience thesis records to Alma — a Dafny model

`create_records.py` harvests EPFL thesis records from Infoscience as MARC,
turns each into the final catalogue record, looks it up in the catalogue's
search (SRU), validates it against XSD schemas, and creates the bib and, for
each configured location, a holding with one item. Each record then
becomes one line of a CSV report. This project models that core in
Dafny and proves properties of the model:

| file | module | what it models |
|---|---|---|
| `wrappers.dfy` | `Wrappers` | `Option`, `Result`, Python truthiness of an optional string |
| `text.dfy` | `Text` | `strip`, `split`, `join`, `replace`, ASCII `lower`/`upper` |
| `numerals.dfy` | `Numerals` | `str(n)`, zero-padded `{n:0wd}`, and reading digits back |
| `marc.dfy` | `Marc` | pymarc records, fields and subfields; `fget`, `fget_all`, `first` |
| `rules.dfy` | `Rules` | `expand_epfl`, `invert_name_comma`, `ensure_pages_suffix` |
| `mapper.dfy` | `Mapper` | `build_final_record`: which source values go to which field of the final record |
| `extract.dfy` | `Extract` | `extract_marc_info` |
| `dates.dfy` | `Dates` | `first_day_previous_month` |
| `validation.dfy` | `Validation` | the decision logic of `validate_xml_element` and `validate_bib_and_record` |
| `holdings.dfy` | `Holdings` | `find_existing_holding`, `build_holding_marc`, `creer_holding`, the location table of `creer_item_pour_une_holding` |
| `report.dfy` | `Report` | `NoticeReport`, `add_location`, `to_csv_row` |
| `config.dfy` | `Config` | the `[holding]` section of `load_config`, in particular the `locations` list |
| `pipeline.dfy` | `Pipeline` | the per-record loop of `main`, with the outside world as inputs |

The mapper is stated block by block. The final record is a fixed sequence
of blocks: 001, 008, 040, 100, 245, 264, 300, 336, 337, 338, 502, 520, the
three 655s and 700. Each block holds only fields of its own tag. Every
`Fields<tag>` lemma says which fields of the final record carry that tag.
Every `<Block>ReadBack` lemma says what `fget` then reads from it. The
`…FromSource` lemmas go one step further, back to the source record.

The loop takes, per harvested record, a `RecordRun` as input. It says what
transforming the record gave, what the search answered, whether the XML
preparation raised, what the schemas said, what the catalogue answered, and
how each location went. The loop model decides the statuses, the report
line and the call number.

Where the description of the program and its code differ, the model follows
the code:

- A holding found already in the catalogue is reported with holding status
  `CREATED`, like a new one.
- A holding in a location the item table does not handle gets no item. The
  report shows that as item status `ERROR` ("Item creation failed").
- A call number is used for every record the loop takes. That includes
  records that are then skipped, rejected or fail.
- A name is split at every comma, not only the first. So "Doe, Jane, Q."
  becomes "Jane Q. Doe".
- When `validate_bib_and_record` itself raises, the record gets an
  `XSD_ERROR` line, the same as a schema rejection.
- A schema file that is missing or does not load is not an error. The
  element it would have checked passes.

## Model

| member | source | states |
|---|---|---|
| `Marc.FirstWithTagIsFirst` | create_records.py:148-151 | `record.get(tag)` finds a field exactly when some field has the tag, and then it is the first such field |
| `Marc.FGetOfAtMostOne` | create_records.py:148-151 | with at most one field of the tag, `fget` reads that field's first subfield with the code, or gives `None` |
| `Marc.FGetLooksOnlyAtFirstField` | create_records.py:148-151 | `fget` reads only the first field with the tag, never a later one |
| `Marc.FGetAllAppend` | create_records.py:154-159 | `fget_all` of a concatenation is the concatenation of the values, in record order |
| `Marc.First` | create_records.py:162-166 | `first` gives `None` exactly for an empty sequence, else its first element |
| `Rules.ExpandEpfl` | create_records.py:169-173 | the value is replaced by the full EPFL name exactly when it is the token EPFL, ignoring case and blanks; an empty or missing value is kept |
| `Rules.ExpandEpflIdempotent` | create_records.py:169-173 | expanding twice is expanding once |
| `Rules.InvertNameComma` | create_records.py:176-185 | the name is unchanged exactly when it is empty or has no comma; otherwise the result has no comma |
| `Rules.InvertNameRotates` | create_records.py:176-185 | a name of at least two comma-separated parts, none of them blank, becomes the later parts, then the first, each stripped and joined by spaces |
| `Rules.EnsurePagesSuffix` | create_records.py:188-194 | a value already mentioning "pages" in any case is kept; otherwise it gets " pages" after its stripped text; the result always mentions "pages" |
| `Rules.EnsurePagesSuffixIdempotent` | create_records.py:188-194 | adding the suffix twice is adding it once |
| `Rules.PagesSuffixExamples` | create_records.py:188-194 | "120" becomes "120 pages"; "120 pages" is kept |
| `Mapper.MainAuthor` | create_records.py:226 | the author is `$a` of the first 700 that has one, `None` when none has |
| `Mapper.Director` | create_records.py:368-375 | a 720 with `$a` and second indicator '2' is preferred; otherwise the first 720 with `$a` is used |
| `Mapper.DirectorName` | create_records.py:368-381 | a director's name is found exactly when some 720 carries `$a` |
| `Mapper.DegreeKind` | create_records.py:299-303 | the degree type "theses", in any case and with any surrounding blanks, becomes "Thèse"; other values are kept as they are |
| `Mapper.GrantingBody` | create_records.py:305-308 | the granting body is present exactly when the place or the publisher is non-empty; with only one of them it is that one stripped; with both, already trimmed, it is "publisher place" |
| `Mapper.KeywordValuesMembers` | create_records.py:322 | the keywords are exactly the 653 `$a` values that are not blank, stripped |
| `Mapper.KeywordValuesAppend` | create_records.py:322 | the keywords of two lists of values in a row are those of the first, then those of the second: record order is kept |
| `Mapper.KeywordValuesSingle` | create_records.py:322 | one value gives itself stripped, or nothing when it is blank |
| `Mapper.Dedup` | create_records.py:323-328 | de-duplication keeps every value once and drops nothing else |
| `Mapper.FirstIndex` | create_records.py:323-328 | the position of a value's first occurrence: it holds the value and no earlier position does |
| `Mapper.DedupKeepsFirstSeenOrder` | create_records.py:323-328 | the de-duplicated values come in the order of their first occurrence in the input |
| `Mapper.DedupKeywords` | create_records.py:323-328 | the `seen`/`deduped` loop computes `Dedup` |
| `Mapper.DedupOfDistinct` | create_records.py:323-328 | a list without repeats is left as it is |
| `Mapper.DedupIdempotent` | create_records.py:323-328 | de-duplicating twice is de-duplicating once |
| `Mapper.DedupExample` | create_records.py:323-328 | the comparison is exact and case-sensitive: "ai", "AI", "ai" gives "ai", "AI" |
| `Mapper.KeywordsNoteExample` | create_records.py:329-332 | the keywords "ai" and "AI" give the note "Mots-clés de l'auteur : ai; AI" |
| `Mapper.SourceId` | create_records.py:203-206 | the identifier is the data of the source's first 001, present only when that is a control field, and absent when the source has no 001 |
| `Mapper.Assemble` | create_records.py:197-393 | the final record has the fixed leader, and each block carries only its own tag |
| `Mapper.BuildFinalRecord` | create_records.py:197-393 | the final record built from any source has the fixed leader |
| `Mapper.BuildFinalRecordAsWritten` | create_records.py:204 | the code as written fails exactly on a source without 001; otherwise it gives the same record as `BuildFinalRecord` |
| `Mapper.AssembledWithTag` | create_records.py:197-393 | the fields of a given tag in the final record are the block of that tag, and nothing from other blocks |
| `Mapper.IdentifierCopied` | create_records.py:203-206 | the final record has one 001 holding the identifier when that is non-empty, and none otherwise |
| `Mapper.StaticFields` | create_records.py:208-224 | 008, 040, 336, 337 and 338 appear exactly once each, as fixed; the three 655 genre terms appear in order |
| `Mapper.Fields655` | create_records.py:335-366 | the 655 fields are exactly the three genre terms |
| `Mapper.FGetReadsPieces` | create_records.py:232-244 | a field made of the present pieces with distinct codes reads back, code by code, as those pieces |
| `Mapper.MainEntry` | create_records.py:225-230 | there is always exactly one 100, with `$a` the author when non-empty and `$4` "aut" |
| `Mapper.TitleStatement` | create_records.py:232-244 | a 245 exists exactly when title, subtitle or statement is non-empty, and `$a`, `$b`, `$c` read back as them |
| `Mapper.PublicationStatement` | create_records.py:246-258 | a 264 exists exactly when place, publisher or date is non-empty, and `$a`, `$b`, `$c` read back as them |
| `Mapper.PhysicalDescription` | create_records.py:260-271 | there is always exactly one 300, with the extent when known, `$b` "illustrations" and `$c` "28 cm" |
| `Mapper.ThesisNote` | create_records.py:296-319 | a 502 exists exactly when one of degree, granting body, discipline or number is present; `$o` is "n° " then the number |
| `Mapper.KeywordsNoteField` | create_records.py:321-333 | there is always exactly one 520; `$a` is the keywords note when a keyword is left, and `$5` is the agency |
| `Mapper.DirectorEntry` | create_records.py:368-391 | there is always exactly one 700, with the chosen director's name and `$4` "dgs" |
| `Mapper.IdentifierFromSource` | create_records.py:203-206 | the final record has one 001 holding the data of the source's first 001 when that is a control field with non-empty data, and no 001 otherwise |
| `Mapper.MainEntryFromSource` | create_records.py:225-230 | 100 `$a` is the first 700 `$a` of the source, when that is non-empty |
| `Mapper.StatementFromSource` | create_records.py:235-242 | 245 `$c` is that same author, inverted |
| `Mapper.PublisherFromSource` | create_records.py:248-254 | 264 `$b` is the source's 260 `$b`, with EPFL written out |
| `Mapper.TitleFromSource` | create_records.py:233-240 | 245 `$a` and `$b` are the source's 245 `$a` and `$b`, each left out when empty |
| `Mapper.PlaceDateFromSource` | create_records.py:247-256 | 264 `$a` and `$c` are the source's 260 `$a` and `$c`, each left out when empty |
| `Mapper.ThesisNoteFromSource` | create_records.py:296-316 | 502 `$b` is the degree type read from 336 `$a`; `$c` is the granting body from 260 `$b` and `$a`; `$d` is 920 `$b` when non-empty; `$o` is "n° " then 088 `$a` when that is non-empty |
| `Mapper.ExtentFromSource` | create_records.py:261-264 | 300 `$a` is the source's 300 `$a`, with the pages suffix |
| `Mapper.KeywordsFromSource` | create_records.py:321-333 | 520 `$a` lists the cleaned, de-duplicated 653 `$a` values, and is left out when none is left |
| `Mapper.DirectorFromSource` | create_records.py:368-391 | 700 `$a` is the chosen 720's name, and is absent exactly when no 720 carries `$a` |
| `Mapper.MissingIdentifierRejected` | create_records.py:204 | a source without 001 makes the code as written fail; the corrected mapper gives a record without 001 |
| `Extract.TitleFrom` | create_records.py:408-414 | the title is absent exactly when both `$a` and `$b` are empty; when non-empty it neither starts nor ends with a space or a slash |
| `Extract.TitleOfTwoParts` | create_records.py:412-414 | `$a` and `$b` are joined by one space before the ends are stripped |
| `Extract.TitleOfTrimmedParts` | create_records.py:412-414 | when `$a` does not start, and `$b` does not end, with a space or a slash, the title is `$a`, a space, then `$b`, as they are |
| `Extract.TitleDropsTrailingSlash` | create_records.py:414 | a trailing " /" before the statement of responsibility is dropped |
| `Extract.ExtractMarcInfo` | create_records.py:396-428 | the identifier is read from the first 001 as the mapper reads it; the author is 100 `$a` and the responsibility is 245 `$c` of the first such fields; there is a title exactly when 245 `$a` or `$b` is non-empty |
| `Extract.ExtractMarcInfoAsWritten` | create_records.py:405-406 | the code as written fails exactly on a record without 001 |
| `Extract.ExtractOfAssemble` | create_records.py:396-428 | the summary of a final record gives back the identifier, title, author and statement it was built from |
| `Extract.NoIdentifierSummary` | create_records.py:405-406 | on a record without 001 the code as written fails, and the corrected one reports no identifier |
| `Extract.SummaryWithoutIdentifier` | create_records.py:405-406 | a final record built without identifier is rejected by the code as written |
| `Dates.PreviousMonth` | create_records.py:603-608 | January goes to December of the year before; every other month goes to the month before, same year |
| `Dates.NextOfPrevious` | create_records.py:603-608 | the month after the previous month is the reference month |
| `Dates.FirstDayPreviousMonth` | create_records.py:597-609 | the result is ten characters, four digits, a dash, two digits, then "-01" |
| `Dates.FirstDayPreviousMonthReadsBack` | create_records.py:597-609 | the year and month written read back as the previous month's, and the day is the first |
| `Validation.FormatError` | create_records.py:473-476 | each error line starts with the schema's message |
| `Validation.ValidateElement` | create_records.py:454-479 | a missing element fails only when required, with "No <label> element found"; without a schema a present element passes; with one it passes exactly when the schema accepts it, with one line per log entry otherwise |
| `Validation.ValidateElementRejectsIff` | create_records.py:454-479 | an element is rejected exactly when it is missing but required, or a loaded schema rejects it |
| `Validation.RejectionReportsEveryError` | create_records.py:472-478 | every entry of the log is reported, in log order |
| `Validation.ValidateBibAndRecord` | create_records.py:482-513 | the record check and the bib check are independent; a missing `<record>` is reported as "No <record> element found" |
| `Validation.NoSchemaOnlyChecksPresence` | create_records.py:482-513 | without schemas, only a missing `<record>` fails validation |
| `Holdings.FindExistingHolding` | create_records.py:848-886 | no holding is found exactly when fetching failed or no usable holding matches; otherwise the first match is returned |
| `Holdings.FirstMatch` | create_records.py:869-886 | the search returns the first holding matching library and location, skipping unusable ones |
| `Holdings.UnusableSkipped` | create_records.py:869-882 | a holding with a wrapper error or a missing library or location never affects the result |
| `Holdings.BuildHoldingMarc` | create_records.py:889-912 | the holding record has the fixed leader and two fields |
| `Holdings.HoldingMarcReadsBack` | create_records.py:889-912 | 852 `$b`, `$c`, `$j` read back as the library, location and call number |
| `Holdings.CreerHolding` | create_records.py:957-1007 | an existing holding is returned as it is; a creation is requested only after validation passes and with an MMS id; a new holding comes back exactly when every step succeeds |
| `Holdings.ExistingShortCircuits` | create_records.py:973-981 | with an existing holding, the schema, the MMS id and the catalogue's answer play no part |
| `Holdings.ItemPolicy` | create_records.py:1081-1089 | "E02SP" gets status and policy "04", "E02XA" gets "70", and any other location gets none |
| `Holdings.CreerItem` | create_records.py:1062-1135 | an unhandled location gets no item; a new item comes back exactly when the location is handled, the item validates and the catalogue creates it |
| `Report.NewReport` | create_records.py:1142-1155 | a new report has no search result, MMS id, bib status or locations |
| `Report.AddLocation` | create_records.py:1157-1177 | a location is appended after those already reported, and nothing else changes |
| `Report.Entry` | create_records.py:1194-1219 | a missing or empty value adds nothing; status and error entries are "location:value" |
| `Report.Entries` | create_records.py:1194-1219 | the entries of a column are exactly the non-empty entries of the locations |
| `Report.EntriesSnoc` | create_records.py:1194-1219 | a location added at the end puts its entry, if any, after all earlier ones |
| `Report.JoinOrEmpty` | create_records.py:1221-1222 | no entries give "", and one entry is written alone |
| `Report.SruText` | create_records.py:1230 | the search result is "" exactly when the search was not made |
| `Report.ToCsvRow` | create_records.py:1224-1239 | the row has the sixteen keys of the CSV header, in order |
| `Report.ScalarCells` | create_records.py:1224-1232 | the record index reads back from its cell; the identifier, title, author, call number, MMS id, status and error cells hold their value when it is non-empty and are empty otherwise; the search cell is "True" exactly for a positive answer and empty when no search was made |
| `Report.AggregatedCells` | create_records.py:1233-1239 | the last seven cells are the seven aggregated columns, in order |
| `Report.ColumnEmptyIff` | create_records.py:1194-1222 | a column is empty exactly when no location has a non-empty value for it |
| `Report.AddLocationExtendsColumn` | create_records.py:1157-1222 | adding a location extends each column with its entry after " \| ", or leaves it unchanged |
| `Report.AddLocationKeepsScalars` | create_records.py:1157-1232 | adding a location changes none of the first nine cells |
| `Config.CleanLocations` | create_records.py:1372 | every listed location is non-empty with no blank at either end |
| `Config.CleanLocationsKeepsParts` | create_records.py:1372 | every part that does not strip to nothing is listed |
| `Config.CleanLocationsAvoid` | create_records.py:1372 | stripping adds no character |
| `Config.BlankPartSkipped` | create_records.py:1372 | a blank part, as between two commas, is skipped |
| `Config.ParseLocations` | create_records.py:1371-1372 | every location is trimmed, non-empty and free of commas |
| `Config.HoldingLocations` | create_records.py:1370-1374 | the list is never empty; it is the parsed one when that lists something, the default otherwise |
| `Config.LocationsRoundTrip` | create_records.py:1371-1372 | names written with commas between them parse back to the same list |
| `Config.ConfiguredLocations` | create_records.py:1370-1374 | such a value configures exactly those locations, in that order |
| `Config.BlankValueKeepsDefault` | create_records.py:1370-1374 | a value of only commas and blanks keeps the default list |
| `Config.LoadHoldingSection` | create_records.py:1364-1378 | each key set replaces its default, except a locations value that lists nothing |
| `Config.NoSectionDefaults` | create_records.py:1283-1287 | without the section the defaults are library "hph_bjnbecip", locations E02XA then E02SP, and prefix "ZTK" |
| `Numerals.IntToStringInjective` | create_records.py:1509 | distinct call-number values are written differently |
| `Pipeline.CallNumberText` | create_records.py:1509 | the call number is the prefix, a space, then the number |
| `Pipeline.CallNumberTextInjective` | create_records.py:1508-1509 | two call numbers are equal exactly when their values are |
| `Pipeline.SummaryAsWritten` | create_records.py:1514-1536 | a source gets a summary exactly when its first 001 holds non-empty data, so a source whose 001 is empty or missing gets none; the summary is that of the final record built from the source |
| `Pipeline.SourceWithoutIdentifierDropped` | create_records.py:1514-1536 | a harvested record without 001 gets no summary and leaves no report line |
| `Pipeline.LocationReport` | create_records.py:1686-1767 | holding status `CREATED` exactly when a holding came back, with that holding's id; otherwise `ERROR`, with item `SKIPPED` and as error the exception's text, the missing-holding message, or "Holding creation failed"; item `CREATED` exactly when an item id came back, else item `ERROR` with "Item creation failed" |
| `Pipeline.AddLocations` | create_records.py:1686-1767 | one line per configured location, in order, after the existing ones |
| `Pipeline.BibAccepted` | create_records.py:1592-1641 | without XSD checks the bib passes; it fails when validation raised; otherwise it passes exactly when `<record>` exists and neither schema, when loaded, rejects |
| `Pipeline.ProcessRecord` | create_records.py:1513-1769 | a report line exists unless the transform, the search or the bib preparation raised; it carries the record's index and call number; a bib is sent only outside dry runs and after validation passes |
| `Pipeline.BibStatusDecision` | create_records.py:1553-1683 | `sru_exists` is `None` when the search is skipped and its answer otherwise, and only a positive answer gives `SKIPPED_SRU_EXISTS`; past the search and the preparation, a failed validation gives `XSD_ERROR` with its message, a dry run `DRY_RUN_OK` with an empty error, a catalogue error `ERROR` with the catalogue's text, and a created bib `CREATED` with its MMS id |
| `Pipeline.ReportStatuses` | create_records.py:1573-1769 | the bib status is one of the five statuses; an MMS id is there exactly for `CREATED`, and only then are locations reported, one per configured location |
| `Pipeline.ExistingRecordSkipped` | create_records.py:1573-1577 | a record the search finds is reported `SKIPPED_SRU_EXISTS` and never sent |
| `Pipeline.DryRunCreatesNothing` | create_records.py:1651-1660 | in a dry run nothing is sent, and a valid record is reported `DRY_RUN_OK` |
| `Pipeline.ReportSummary` | create_records.py:1545-1551 | the report's identifier, title and author are those of the summary |
| `Pipeline.ReportOfThesis` | create_records.py:1545-1551 | a record built from thesis values is reported under the identifier, title and author it was built from |
| `Pipeline.Step` | create_records.py:1499-1509 | each record taken advances the record index and the call number by exactly one, and adds at most one report line |
| `Pipeline.Loop` | create_records.py:1499-1769 | earlier report lines are never changed |
| `Pipeline.Taken` | create_records.py:1500-1506 | no more records are taken than there are, and all of them when there is no cap |
| `Pipeline.CallNumbersConsumed` | create_records.py:1487-1811 | the final call number, which is written out at the end, is the seed plus the number of records taken, whatever became of them |
| `Pipeline.Run` | create_records.py:1483-1769 | no more report lines than records taken |
| `Pipeline.ReportsBounded` | create_records.py:1499-1769 | from any state with no more lines than records taken, the loop keeps it so |
| `Pipeline.StepConsistent` | create_records.py:1499-1769 | one iteration keeps the call number equal to the seed plus the record index, and each line's call number that of its record |
| `Pipeline.ConsistentKeeps` | create_records.py:1499-1571 | a record that leaves no line still moves the call number on with the record index |
| `Pipeline.ConsistentSnoc` | create_records.py:1545-1551 | a line reported under the new record's index and call number keeps every line's call number that of its record, and the lines in record order |
| `Pipeline.LoopConsistent` | create_records.py:1499-1769 | the whole loop keeps that invariant |
| `Pipeline.DistinctCallNumbers` | create_records.py:1487-1509 | two report lines of one run never share a call number |
| `Pipeline.ConsistentDistinct` | create_records.py:1508-1509 | lines of distinct records carry distinct call numbers |
| `Pipeline.DryRunLoopCreatesNothing` | create_records.py:1651-1660 | a dry run never sends a bib to the catalogue |

## Left out

- Harvesting from Infoscience, the search over SRU, the catalogue API,
  reading the call number from Analytics, and loading XSD files. Their
  answers are inputs of the model: `RecordRun`, `LocationRun`, `CreateAnswer`
  and `Verdict`.
- XML building and schema checking (`build_bib_with_record`,
  `build_holding_xml`, `build_item_xml_for_holding`, lxml). Only whether a
  schema accepts an element, and its error log, are modelled.
- Logging, printing, the CSV file and `last_call_number.txt` themselves.
  `Pipeline.CallNumbersConsumed` states the value that is written.
- The sections of `load_config` other than `[holding]` (general,
  infoscience, xsd, item), and the CLI arguments. These are plain reads
  with defaults; the loop receives their merged values as `Settings`.
- `Text.Lower` and `Text.Upper` map ASCII letters only. Python's
  `lower()`/`upper()` also map other letters; this matters only for the
  "theses" and "EPFL" comparisons and the "pages" test.
- Pipeline.ProcessRecord: the summary the loop uses is an input of the
  record run, `None` when building or extracting raised.
  `Pipeline.SummaryAsWritten` computes it from a source record as the code
  does. This keeps the loop proofs apart from the mapper's.
- Pipeline.LocationReport: an exception from `creer_holding` or from
  `creer_item_pour_une_holding` is one input, `LocationRaised`, with its
  message; which call raised is not distinguished. In both cases the
  source reports a holding `ERROR` and item `SKIPPED`.
- Holdings.CreerItem: the item's content (PO line, department, material
  type) is not modelled, only the status and policy by location and the
  outcome.
- Holdings.FindExistingHolding: resetting the cached holdings before
  fetching is not modelled; the fetched list is an input.
- `delete_holding`, `get_last_call_number_from_analytics`, the URL
  builders and the harvester's pagination are not part of this model.

## Findings

| source | as written | input that shows it | evidently intended | confidence | as-written member | corrected member |
|---|---|---|---|---|---|---|
| create_records.py:204 | `src["001"]` is read before the `is not None` test; with pymarc 5 (the `Subfield` API the file uses), indexing a record by a missing tag raises `KeyError`. | any harvested record without a 001 field | no 001 in the final record, and the record is processed on | medium: depends on pymarc 5 indexing; not executed | `Mapper.BuildFinalRecordAsWritten` (shown by `Mapper.MissingIdentifierRejected`) | `Mapper.BuildFinalRecord` (`Mapper.IdentifierCopied`) |
| create_records.py:405 | `if record["001"]:` on the final record raises `KeyError` when it has no 001. That happens when the source's 001 was missing or empty, since `build_final_record` copies only a non-empty identifier. | a source whose 001 holds "", which gives a final record without 001 | an absent identifier, `None` in the summary | medium: depends on pymarc 5 indexing; not executed | `Extract.ExtractMarcInfoAsWritten` (shown by `Extract.SummaryWithoutIdentifier`, `Pipeline.SourceWithoutIdentifierDropped` and `Pipeline.SummaryAsWritten`, which has no summary for a source whose 001 is empty) | `Extract.ExtractMarcInfo` (`Extract.NoIdentifierSummary`) |

In the loop, both exceptions are caught and the record is skipped without
a report line. It still uses a call number (`Pipeline.CallNumbersConsumed`).
