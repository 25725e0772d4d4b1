# Quran XML import pipeline and read controller, modelled in Dafny

This project models the backend of a Quran reader. Chapters (surahs) and their verses (ayahs)
come from two XML corpora: the Arabic text and an Urdu translation. They are stored as one
record per chapter, keyed by the chapter index, and served over HTTP.

Modelled:

- **The generic importer** (`backend/src/services/genericXmlImporter.js`).
  - It checks that the files exist, optionally clears the store, and parses the files.
  - It chooses the chapters to import: an explicit list, every chapter of the Arabic corpus, a
    range, the first N or the last N.
  - For each chapter it aligns the Arabic verses with the Urdu verses by index and upserts the
    built record.
  - A chapter that fails is counted as an error, and the batch goes on.
- **The older importer** (`backend/src/services/dataImportService.js`).
  - It imports chapters 112, 113 and 114, and requires each of them in both corpora.
  - It stops at the first failure.
  - Its status query counts the stored chapters and lists them in index order.
- **The clean-up both importers apply to the XML text**: the non-greedy comment removal
  `<!--[\s\S]*?-->`, then `trim`. Comment syntax follows section 2.5 of the W3C XML 1.0
  recommendation.
- **The read controller** (`backend/src/controllers/quranController.js`).
  - `getSurah` looks a chapter up by index or by name, and returns one verse or all verses.
  - `getAllSurahs` lists every chapter in index order.
  - `formatAyah` decides which optional verse fields appear.

The parsed XML is a datatype (`Corpus`). A corpus is a sequence of chapters, and each chapter is
a sequence of verses. An empty sequence stands for an absent element: the source then reads an
attribute of `undefined` and throws, which the model reports as `MissingElement`.

The MongoDB collection is the class `Store.SurahStore`. It holds a map from chapter index to
record, and its invariant is that every record sits under its own index. Only the importers
change the store. Each importer method is proved against a function of the old store (`Step`,
`ImportFromXmlRun`, `ImportLastThreeRun`), and the properties are proved about those
functions. The two read handlers are functions of the stored records, so they cannot modify
the store.

Modules:

| module | role |
|---|---|
| `Wrappers` | Option, Result and Outcome types |
| `Search` | `Array.prototype.find` and counting |
| `JsNumber` | `${n}` on integers; `parseInt` with its white-space skip, sign and `0x` prefix; `isNaN` on integer literals |
| `XmlText` | comment stripping and trim |
| `SurahModel` | the record shape of `backend/src/models/Surah.js` |
| `Corpus` | parsed XML and verse alignment |
| `Store` | the keyed collection and its read queries |
| `GenericImporter` | the generic importer |
| `DataImport` | the older importer |
| `QuranController` | the read controller |
| `Scenarios` | what an import writes, read back through the controller |

## Model

| member | source | states |
|---|---|---|
| Search.FirstMatch | backend/src/services/genericXmlImporter.js:132 | the position found satisfies the condition and no earlier element does; nothing is found iff no element satisfies it |
| Search.Find | backend/src/services/genericXmlImporter.js:132 | `find` returns an element of the array that satisfies the condition, and `undefined` iff none does |
| Search.Count | backend/src/services/genericXmlImporter.js:69-81 | the tally of elements meeting a condition never exceeds the number of elements |
| Search.CountZero | backend/src/services/genericXmlImporter.js:69-81 | the tally is zero iff no element meets the condition |
| Search.CountFull | backend/src/services/genericXmlImporter.js:69-81 | the tally equals the length iff every element meets the condition |
| JsNumber.IntToString | backend/src/services/genericXmlImporter.js:209 | the decimal rendering is non-empty and starts with `-` exactly for negative numbers |
| JsNumber.ParseInt | backend/src/controllers/quranController.js:20 | after leading white space and an optional sign, `parseInt` yields a number iff a digit of the chosen base follows: a hexadecimal digit after a `0x`/`0X` prefix, a decimal digit otherwise; a negative result comes only from a leading `-` |
| JsNumber.ParseIntSkipsSpace | backend/src/controllers/quranController.js:58 | white space before the text does not change what `parseInt` reads |
| JsNumber.DecimalPrefix | backend/src/controllers/quranController.js:58 | reading stops at the first non-digit, so `12abc` reads as 12 |
| JsNumber.HexLiteral | backend/src/controllers/quranController.js:58 | `0x` followed by hexadecimal digits reads whole in base 16, and with a leading `-` as its negation |
| JsNumber.HexPrefixWithoutDigits | backend/src/controllers/quranController.js:58 | a `0x` prefix with no hexadecimal digit after it is `NaN` |
| JsNumber.IsNumeric | backend/src/controllers/quranController.js:19 | an identifier the model counts as numeric is never `NaN` to `parseInt` |
| JsNumber.NumericParsesWhole | backend/src/controllers/quranController.js:19-20 | `parseInt` reads a numeric identifier whole in base 10, and its value is the signed value of its digits |
| JsNumber.IntToStringRoundTrip | backend/src/services/genericXmlImporter.js:209 | a rendered integer is numeric and parses back to itself |
| JsNumber.IntToStringInjective | backend/src/services/genericXmlImporter.js:209 | distinct integers have distinct renderings |
| XmlText.FirstCloseFrom | backend/src/services/dataImportService.js:64 | the lazy match ends at the nearest `-->` at or after the given position, and there is none iff no closer follows |
| XmlText.StripFrom | backend/src/services/dataImportService.js:64 | from any scan position the replace never produces more characters than remain |
| XmlText.StripComments | backend/src/services/genericXmlImporter.js:109 | removing comments never lengthens the text |
| XmlText.StripWithoutComment | backend/src/services/dataImportService.js:64 | text holding no complete comment is returned unchanged |
| XmlText.StripFromKeeps | backend/src/services/dataImportService.js:64 | characters before the next opener are kept verbatim |
| XmlText.StripLeftmostComment | backend/src/services/dataImportService.js:64 | the leftmost complete comment is cut from its opener to its nearest closer, the text before it is kept, and the scan resumes after the closer |
| XmlText.StripIsSinglePass | backend/src/services/dataImportService.js:64 | the global replace makes a single pass, so `<!<!---->---->` becomes `<!---->`, which still holds a complete comment |
| XmlText.LeadingSpaces | backend/src/services/dataImportService.js:67 | counts exactly the white space at the front of the text |
| XmlText.TrailingSpaces | backend/src/services/dataImportService.js:67 | counts exactly the white space at the end of the text |
| XmlText.Trim | backend/src/services/dataImportService.js:67 | the result is the slice left once white space is removed at both ends; it neither starts nor ends with white space, and it is empty iff the text is all white space |
| XmlText.TrimIdempotent | backend/src/services/genericXmlImporter.js:110 | trimming twice is trimming once |
| XmlText.CleanXml | backend/src/services/dataImportService.js:64-67 | the cleaned text is never longer than the file |
| XmlText.CleanWithoutOpener | backend/src/services/dataImportService.js:64-67 | text with no `<!--` is changed only by trimming |
| XmlText.CleanRemovesComment | backend/src/services/genericXmlImporter.js:109-110 | a lone complete comment disappears from its opener to its closer, and the rest is trimmed |
| Corpus.Attr | backend/src/services/genericXmlImporter.js:162-164 | an attribute reads as its value, or as `''` when absent |
| Corpus.Translation | backend/src/services/genericXmlImporter.js:158-163 | a verse index that no Urdu verse carries gets the empty translation |
| Corpus.AlignAyahs | backend/src/services/genericXmlImporter.js:150-168 | one built verse per Arabic verse in the same order, with the same index, text, bismillah and the translation of the matching Urdu verse |
| Corpus.AlignWithoutUrdu | backend/src/services/genericXmlImporter.js:152 | without Urdu verses every translation is `''` |
| Corpus.MissingTranslationIsLocal | backend/src/services/genericXmlImporter.js:158-163 | a missing Urdu verse empties that verse's translation only; the other verses are built as if it were not there |
| Corpus.FirstTranslationWins | backend/src/services/genericXmlImporter.js:158 | on duplicate Urdu indexes the first verse supplies the translation |
| Store.Least | backend/src/services/dataImportService.js:174 | returns the least stored index |
| Store.SortedIndexes | backend/src/services/dataImportService.js:174 | the stored indexes in strictly ascending order, one entry per index |
| Store.SortedIndexesComplete | backend/src/services/dataImportService.js:174 | every stored index appears in the ascending list |
| Store.RecordsAt | backend/src/controllers/quranController.js:100-105 | the records at the given indexes, each carrying its index |
| Store.InIndexOrder | backend/src/controllers/quranController.js:100-105 | every stored record exactly once, in strictly ascending index order |
| Store.FindByName | backend/src/controllers/quranController.js:22-31 | a record found matches `name` or `englishName` exactly and has the least index among such records; none is found iff no record matches |
| Store.NoMatchInOrder | backend/src/controllers/quranController.js:22-31 | when no record in index order matches, no stored record matches |
| Store.FirstInOrderIsLeast | backend/src/controllers/quranController.js:22-31 | in a list ascending by index, the first record matching a name has the least index among the matching records |
| Store.FirstMatchIsLeast | backend/src/controllers/quranController.js:22-31 | the first match in index order has the least index among the matches |
| Store.LowerBoundOverRecords | backend/src/controllers/quranController.js:22-31 | a bound on the matching entries of a list holding every stored record bounds all matching stored records |
| Store.SurahStore.constructor | backend/src/models/Surah.js:51 | a new collection is empty |
| Store.SurahStore.Upsert | backend/src/services/genericXmlImporter.js:179-183 | the record for the index becomes the new one, replacing any old one as a whole; every other record is unchanged |
| Store.SurahStore.DeleteAll | backend/src/services/genericXmlImporter.js:43-46 | `deleteMany({})` leaves the collection empty |
| GenericImporter.EnglishName | backend/src/services/genericXmlImporter.js:198-210 | `getEnglishName` never fails and never yields the empty string |
| GenericImporter.EnglishNameFallback | backend/src/services/genericXmlImporter.js:209 | an unmapped index gets `Surah-` followed by its decimal form, which reads back as the index |
| GenericImporter.EnglishNameRoundTrip | backend/src/services/genericXmlImporter.js:198-210 | every index's English name reads back as that index, for the six mapped names and the fallback alike |
| GenericImporter.EnglishNameInjective | backend/src/services/genericXmlImporter.js:198-210 | two chapters never share an English name |
| GenericImporter.AllIndexes | backend/src/services/genericXmlImporter.js:58-65 | the chapter indexes of the Arabic corpus in document order (`arabicSuras.map`), one per chapter element |
| GenericImporter.BuildSurah | backend/src/services/genericXmlImporter.js:126-177 | a built record carries the requested index |
| GenericImporter.BuildSurahSpec | backend/src/services/genericXmlImporter.js:131-177 | a chapter builds iff it is in the Arabic corpus with verses and, when an Urdu corpus is given, that corpus has chapters and the Urdu chapter, if present, has verses; so a chapter missing from the Urdu corpus, or no Urdu corpus, still builds. A built record has the mapped English name, the Arabic name (or `''`), `totalAyahs` equal to its verse count and the aligned verses; an absent Urdu chapter is never the error |
| GenericImporter.UrduAyas | backend/src/services/genericXmlImporter.js:139-152 | without an Urdu corpus there are no Urdu verses |
| GenericImporter.NoUrduNoTranslation | backend/src/services/genericXmlImporter.js:139-163 | without an Urdu corpus a chapter with Arabic verses builds, and every built verse has translation `''` |
| GenericImporter.MissingUrduChapter | backend/src/services/genericXmlImporter.js:144-146 | a chapter missing from the Urdu corpus is built exactly as with no Urdu corpus |
| GenericImporter.Step | backend/src/services/genericXmlImporter.js:179-183 | the store after the upsert that ends `processSurah` in either importer (the same call is at dataImportService.js:139-143): the chapter is stored iff it was before or its record built, and then holds that record; every other record is unchanged, and on a thrown error nothing changes |
| GenericImporter.ProcessSurah | backend/src/services/genericXmlImporter.js:126-191 | succeeds iff the record builds, reports the build error otherwise, and leaves the store as the upsert of the built record, or unchanged on failure |
| GenericImporter.UpsertEach | backend/src/services/genericXmlImporter.js:72-81 | a batch never removes a record and only adds records under target indexes |
| GenericImporter.UpsertEachContents | backend/src/services/genericXmlImporter.js:72-81 | after a batch an index is stored iff it was before or it is a target that builds; a target that builds holds its built record; every other record is unchanged |
| GenericImporter.UpsertNothing | backend/src/services/genericXmlImporter.js:72-81 | when no target builds, the batch leaves the store as it was |
| GenericImporter.Imported | backend/src/services/genericXmlImporter.js:69-81 | the success tally never exceeds the number of targets |
| GenericImporter.ImportContents | backend/src/services/genericXmlImporter.js:72-81 | the batch stores exactly the targets that build, with their built records, on top of the untouched previous records |
| GenericImporter.ImportIdempotent | backend/src/services/genericXmlImporter.js:72-81 | importing the same targets twice is importing them once |
| GenericImporter.ImportOrderIrrelevant | backend/src/services/genericXmlImporter.js:72-81 | the order of the targets, and repeats among them, do not change the resulting store |
| GenericImporter.ImportedExtremes | backend/src/services/genericXmlImporter.js:69-81 | nothing is imported iff every target fails; everything is iff every target builds |
| GenericImporter.AllFailedLeavesStore | backend/src/services/genericXmlImporter.js:72-81 | when every target fails, the store is as before |
| GenericImporter.ImportEachStep | backend/src/services/genericXmlImporter.js:73-81 | processing one more target is one more `processSurah` step on the store so far |
| GenericImporter.ImportedStep | backend/src/services/genericXmlImporter.js:73-81 | processing one more target adds one to the success tally iff that target builds |
| GenericImporter.Prepare | backend/src/services/genericXmlImporter.js:33-56 | the run gets past this stage iff both files exist and parse; a missing file throws with the store untouched, and past the existence checks the store is the cleared one |
| GenericImporter.ImportFromXmlRun | backend/src/services/genericXmlImporter.js:26-97 | the run throws exactly when a file is missing, a parse fails, or every chapter is asked for and the Arabic corpus has no chapter element |
| GenericImporter.ImportParsed | backend/src/services/genericXmlImporter.js:58-91 | after parsing, the run throws only when every chapter is asked for and there is none, leaving the store as cleared; otherwise imported plus errors is the number of targets: the request's length, or the number of Arabic chapters |
| GenericImporter.ParsedStage | backend/src/services/genericXmlImporter.js:43-65 | once both files exist and parse, the run is the target selection and loop on the cleared store |
| GenericImporter.OkRunIsParsed | backend/src/services/genericXmlImporter.js:33-65 | a run that returns a summary had both files present and parsed |
| GenericImporter.ImportTargets | backend/src/services/genericXmlImporter.js:69-81 | the success count is the number of targets that build, success and error counts add up to the number of targets, and the store is the batch's result |
| GenericImporter.ImportFromXml | backend/src/services/genericXmlImporter.js:26-97 | the returned value or thrown error and the new store are those of the run specification on the old store |
| GenericImporter.ImportParsedCorpora | backend/src/services/genericXmlImporter.js:58-91 | after parsing, the result and the store are those of the target selection and loop |
| GenericImporter.MissingFileLeavesStore | backend/src/services/genericXmlImporter.js:33-40 | a missing Arabic file, or a missing Urdu file when one is given, throws before the store is touched |
| GenericImporter.ParseFailureAfterClear | backend/src/services/genericXmlImporter.js:42-56 | with `clearExisting`, a parse failure leaves the store empty |
| GenericImporter.RunTally | backend/src/services/genericXmlImporter.js:69-91 | `success` is always true, `imported + errors == totalProcessed`, which is the number of targets; when nothing is imported the store is as before apart from the clear |
| GenericImporter.RunContents | backend/src/services/genericXmlImporter.js:42-81 | after a run an index is stored iff it was kept from before or it is a target that builds, and then it holds the built record |
| GenericImporter.RerunIsIdempotent | backend/src/services/genericXmlImporter.js:26-97 | running the same import again without clearing leaves the store unchanged |
| GenericImporter.IndexRange | backend/src/services/genericXmlImporter.js:220-258 | the consecutive indexes from the lower to the upper bound in ascending order, and none when the lower bound exceeds the upper |
| GenericImporter.SurahRangeIndexes | backend/src/services/genericXmlImporter.js:221-224 | `importSurahRange(s, e)` requests exactly `s..e` |
| GenericImporter.FirstNIndexes | backend/src/services/genericXmlImporter.js:237-240 | `importFirstNSurahs(n)` requests exactly `1..n` |
| GenericImporter.LastNIndexes | backend/src/services/genericXmlImporter.js:253-256 | `importLastNSurahs(n)` requests exactly `115-n..114`, bounded by 114 whatever the corpus holds |
| GenericImporter.ImportSurahRange | backend/src/services/genericXmlImporter.js:220-227 | the import of the range `s..e` |
| GenericImporter.ImportFirstNSurahs | backend/src/services/genericXmlImporter.js:236-243 | the import of `1..n` |
| GenericImporter.ImportLastNSurahs | backend/src/services/genericXmlImporter.js:252-259 | the import of `115-n..114` |
| GenericImporter.EmptyRangeImportsEverything | backend/src/services/genericXmlImporter.js:220-227 | as written, an empty range runs exactly like a request for every chapter |
| GenericImporter.EmptyRangeExample | backend/src/services/genericXmlImporter.js:220-227 | as written, the range 2..1 of a one-chapter corpus imports chapter 1 |
| GenericImporter.ImportRangeRun | backend/src/services/genericXmlImporter.js:220-227 | the corrected range import: a non-empty range runs as written, and the summary counts exactly the indexes in the range |
| GenericImporter.ImportRangeExact | backend/src/services/genericXmlImporter.js:220-227 | with the correction, an index is stored iff it was kept or it lies in the range and builds |
| DataImport.EnglishName | backend/src/services/dataImportService.js:158-166 | a name is non-empty exactly for 112, 113 and 114 |
| DataImport.EnglishNameAgrees | backend/src/services/dataImportService.js:158-166 | on 112, 113 and 114 both importers give the same English name |
| DataImport.BuildSurah | backend/src/services/dataImportService.js:83-151 | a built record carries the requested index |
| DataImport.BuildSurahSpec | backend/src/services/dataImportService.js:88-137 | a chapter builds iff it is in both corpora with verses in both; a built record has `totalAyahs` equal to its verse count, this importer's English name, the Arabic name and the verses aligned with the Urdu chapter; a chapter missing from the Arabic corpus fails with that error, and one missing only from the Urdu corpus with the Urdu error |
| DataImport.AgreesWithGeneric | backend/src/services/dataImportService.js:83-151 | the older importer builds iff the generic one does and the Urdu chapter is present, and then builds the same record apart from the English name |
| DataImport.ProcessSurah | backend/src/services/dataImportService.js:83-151 | succeeds iff the record builds, reports the build error otherwise, and leaves the store as the upsert of the built record, or unchanged on failure |
| DataImport.UpsertUntilFailure | backend/src/services/dataImportService.js:41-43 | the fail-fast loop never removes a record and only adds records under target indexes |
| DataImport.ImportLastThreeRun | backend/src/services/dataImportService.js:21-52 | a file that fails to read or parse throws before anything is written; nothing is removed, and only 112, 113 and 114 are ever written |
| DataImport.ImportLastThreeSurahs | backend/src/services/dataImportService.js:21-52 | the outcome and the new store are those of processing 112, 113 and 114 in order, stopping at the first failure |
| DataImport.UntilFailureOutcome | backend/src/services/dataImportService.js:41-43 | the run fails with the error of the first target that fails, and passes when none does |
| DataImport.UntilFailureRecords | backend/src/services/dataImportService.js:41-43 | the targets before the first failure stay written with their records, later ones are never written, and other records are unchanged |
| DataImport.UntilFailurePasses | backend/src/services/dataImportService.js:41-43 | the run passes iff every target builds |
| DataImport.LastThreeStopsAtFailure | backend/src/services/dataImportService.js:37-51 | when 112 builds and 113 fails, the import throws 113's error, 112 stays written and 114 is not attempted |
| DataImport.Entries | backend/src/services/dataImportService.js:174 | one `{ index, name, totalAyahs }` entry per record, in place |
| DataImport.CheckDatabaseStatus | backend/src/services/dataImportService.js:171-184 | `totalSurahs`, the `countDocuments` result, is the record count and equals the length of the list, whose entries are those of the records in index order |
| DataImport.StatusSorted | backend/src/services/dataImportService.js:174-178 | the status list is sorted strictly ascending by index |
| DataImport.StatusFromRecords | backend/src/services/dataImportService.js:174-178 | each entry holds the index, name and verse count of the record stored under that index |
| DataImport.StatusComplete | backend/src/services/dataImportService.js:173-178 | every stored chapter has an entry |
| QuranController.FormatAyah | backend/src/controllers/quranController.js:131-146 | `index` and `arabicText` are always copied; `bismillah` is present iff non-empty; `urduTranslation` is present iff requested and non-empty |
| QuranController.FormatAyahRoundTrip | backend/src/controllers/quranController.js:131-146 | with the translation requested formatting loses nothing; without it only the translation is dropped |
| QuranController.TranslationRequested | backend/src/controllers/quranController.js:70 | the comparison with `'true'` is strict: an absent parameter, `True` or `1` leave the translation out |
| QuranController.AyahRequested | backend/src/controllers/quranController.js:57 | a verse is asked for only when the parameter is given, and every numeric value, `0` included, asks for one |
| QuranController.Lookup | backend/src/controllers/quranController.js:16-31 | a numeric identifier finds exactly the record with the index it denotes; any other identifier finds a record whose `name` or `englishName` equals it, and none iff no record matches |
| QuranController.NumericIgnoresNames | backend/src/controllers/quranController.js:19-21 | a numeric identifier never finds a chapter through its name |
| QuranController.IsRequestedAyah | backend/src/controllers/quranController.js:58-59 | a verse is asked for only by a value `parseInt` does not read as `NaN`, and always by its own decimal index |
| QuranController.SelectAyahs | backend/src/controllers/quranController.js:56-76 | without `ayahIndex`, every stored verse formatted in stored order; with it, exactly one verse whose index is `parseInt(ayahIndex)` (white space, sign and `0x` prefix included), and none iff no verse has that index |
| QuranController.FormatAll | backend/src/controllers/quranController.js:73-75 | the map keeps the length and formats each verse in place |
| QuranController.FirstRequestedAyahWins | backend/src/controllers/quranController.js:59 | on duplicate verse indexes the first verse is returned |
| QuranController.HexAyahIndex | backend/src/controllers/quranController.js:58-59 | `ayahIndex=0x…` serves the first verse whose index is the hexadecimal value |
| QuranController.SpacedAyahIndex | backend/src/controllers/quranController.js:58-59 | white space before `ayahIndex` selects the same verses as the value without it |
| QuranController.GetSurah | backend/src/controllers/quranController.js:8-89 | a 404 echoing the identifier iff no chapter matches; a 404 naming the verse number and chapter iff a requested verse is missing; otherwise the header copies `index`, `name`, `englishName` and `totalAyahs` and the verses are the selected ones |
| QuranController.NumericIdentifierExample | backend/src/controllers/quranController.js:19-40 | a chapter named `2` at index 1 is not found by the identifier `2` |
| QuranController.Summaries | backend/src/controllers/quranController.js:100-105 | one `{ index, name, englishName, totalAyahs }` summary per record, in place |
| QuranController.GetAllSurahs | backend/src/controllers/quranController.js:96-123 | `total` is the number of summaries and of stored chapters, and the summaries are those of the records in index order |
| QuranController.GetAllSurahsSorted | backend/src/controllers/quranController.js:100-105 | the listing is sorted strictly ascending by index |
| QuranController.GetAllSurahsFromRecords | backend/src/controllers/quranController.js:100-113 | each summary copies the four fields of the record stored under its index |
| QuranController.GetAllSurahsComplete | backend/src/controllers/quranController.js:100-113 | every stored chapter has a summary in the listing |
| Scenarios.ImportKeepsKeyed | backend/src/services/genericXmlImporter.js:72-81 | a batch keeps every record under its own index |
| Scenarios.RunKeepsKeyed | backend/src/services/genericXmlImporter.js:26-97 | a successful run keeps every record under its own index |
| Scenarios.ImportedChapterIsServed | backend/src/controllers/quranController.js:8-89 | after a run that built chapter `k`, asking for `k` by number returns it with its English name, its Arabic name and all its verses, their count equal to `totalAyahs`, in corpus order with their Arabic text |
| Scenarios.ImportedChapterIsListed | backend/src/controllers/quranController.js:96-123 | after such a run the listing holds chapter `k` with its verse count |

## Left out

- Reading files and the xml2js parser (`fs.existsSync`, `fs.readFileSync`, `parseStringPromise`). File existence is a boolean input, and the parsed tree is a datatype. A parse that throws is `None`.
- A file whose text is empty after comment removal and trimming: xml2js resolves such input to `null` instead of throwing, and `XmlFile` has no state for it. For the generic importer's Urdu file the model represents it by passing no Urdu file (`urdu == None`): `if (urduData)` then skips the Urdu corpus, and every chapter builds with empty translations. Giving it `parsed: Some(Quran([]))` instead would make every chapter fail with `MissingElement`. For the Arabic file, and for both files of the older importer, `Quran([])` stands for it: the source then reads a property of `null` and throws a `TypeError` wherever the model reports `MissingElement`.
- The parser option `explicitArray: false`, which yields a single element instead of an array. The model always has a sequence, so a single chapter or verse is a one-element sequence, as the source's `Array.isArray` fallback makes it.
- Attribute strings and `parseInt` on XML attributes. Indexes are integers. A `NaN` index, which would never match, is not represented.
- JsNumber.IsNumeric: covers only an optional sign followed by decimal digits. The other strings JavaScript's `isNaN` accepts as numbers are left out, for example: white space around digits, decimals, exponents, hexadecimal (`0x`), binary (`0b`) and octal (`0o`) literals, `Infinity` and the empty string. Such identifiers go to the name lookup in the model, where the source would look up `parseInt` of them. `ayahIndex` does not go through `isNaN`, and `parseInt` on it is modelled with white space and the `0x` prefix.
- JsNumber.IntToString, JsNumber.ParseInt, JsNumber.IntToStringRoundTrip, GenericImporter.EnglishNameFallback, GenericImporter.EnglishNameInjective: JavaScript numbers are doubles, and the model's integers are exact. The model agrees with the source only for magnitudes below 2^53. Beyond that `parseInt` rounds (`9007199254740993` reads as 9007199254740992), and from 10^21 up `${n}` switches to exponent form (`Surah-1e+21`, which `parseInt` reads back as 1). Chapter and verse indexes are far below these bounds.
- Store.FindByName: returns the lowest-index match. MongoDB's `findOne` with the `$or` on `name` and `englishName` (both indexed in `backend/src/models/Surah.js`) may return any match, in an order the model does not represent.
- Mongoose behaviour beyond the record shape is left out: schema defaults, validation (update validators are off for `findOneAndUpdate` by default), `_id` and timestamps.
- The older importer stores `arabicText`, `name` and a matched Urdu verse's text without the `|| ''` default. The model stores an absent attribute as `''` there too, where the source would store `undefined`.
- `checkDatabaseStatus` issues two queries, `countDocuments` and `find`. They are modelled as one snapshot of the store.
- The fixed file paths of the older importer. Its two corpora are inputs, and a read or parse failure is `None`.
- Express plumbing: routing, HTTP status codes, the 500 handler, and query values given as arrays. A response is a datatype whose variants are the success and the two 404 bodies.
- Console logging and the `async`/`await` sequencing. Every operation is sequential.
- The stripped text can still hold a complete comment, so "no complete comment remains" is not stated. The replace is a single pass (XmlText.StripIsSinglePass). The model proves what does hold: the leftmost comment is removed up to its nearest closer, and text without `<!--` is only trimmed.

## Findings

| source | as written | input that shows it | evidently intended | confidence | as-written member | corrected member |
|---|---|---|---|---|---|---|
| backend/src/services/genericXmlImporter.js:220-258 | the range, first-N and last-N helpers pass an empty list to `importFromXml` when the range is empty (`startIndex > endIndex`, or `count <= 0`), and `importFromXml` reads an empty list as "every chapter of the Arabic corpus" (lines 59-65) | `importSurahRange(arabic, null, 2, 1)` on a corpus holding only chapter 1 imports chapter 1 and reports `totalProcessed: 1` | an empty range imports nothing and reports zero chapters processed | high, not executed | GenericImporter.EmptyRangeImportsEverything, GenericImporter.EmptyRangeExample | GenericImporter.ImportRangeRun, GenericImporter.ImportRangeExact |
