/** The generic XML importer: imports an explicit list of chapters, every chapter of the Arabic
    corpus, a range, the first N or the last N chapters, aligning each Arabic chapter with an
    optional Urdu translation and upserting the built record by index. A chapter that fails is
    counted and the batch goes on. */
module GenericImporter {
  import opened Wrappers
  import opened Search
  import opened JsNumber
  import opened SurahModel
  import opened Corpus
  import opened Store

  /** `getEnglishName`: six fixed names, and `Surah-<n>` for every other index. */
  function EnglishName(index: int): (r: string)
    ensures r != ""
  {
    if index == 1 then "Al-Fatihah"
    else if index == 2 then "Al-Baqarah"
    else if index == 3 then "Al-Imran"
    else if index == 112 then "Al-Ikhlas"
    else if index == 113 then "Al-Falaq"
    else if index == 114 then "An-Nas"
    else "Surah-" + IntToString(index)
  }

  /** An unmapped index gets `Surah-` followed by its decimal form, which reads back as the index. */
  lemma EnglishNameFallback(index: int)
    requires index !in {1, 2, 3, 112, 113, 114}
    ensures |EnglishName(index)| > 6 && EnglishName(index)[..6] == "Surah-"
    ensures ParseInt(EnglishName(index)[6..]) == Some(index)
  {
    IntToStringRoundTrip(index);
    assert EnglishName(index)[6..] == IntToString(index);
  }

  /** The index an English name stands for: the inverse of `EnglishName`. */
  function EnglishNameIndex(name: string): Option<int>
  {
    if |name| > 6 && name[..6] == "Surah-" then ParseInt(name[6..])
    else if name == "Al-Fatihah" then Some(1)
    else if name == "Al-Baqarah" then Some(2)
    else if name == "Al-Imran" then Some(3)
    else if name == "Al-Ikhlas" then Some(112)
    else if name == "Al-Falaq" then Some(113)
    else if name == "An-Nas" then Some(114)
    else None
  }

  /** Every English name reads back as the index it was made for. */
  lemma EnglishNameRoundTrip(index: int)
    ensures EnglishNameIndex(EnglishName(index)) == Some(index)
  {
    if index in {1, 2, 3, 112, 113, 114} {
      assert EnglishName(index)[0] == 'A';
      assert !(|EnglishName(index)| > 6 && EnglishName(index)[..6] == "Surah-") by {
        if |EnglishName(index)| > 6 {
          assert EnglishName(index)[..6][0] == 'A';
        }
      }
    } else {
      EnglishNameFallback(index);
    }
  }

  /** Different chapters never share an English name. */
  lemma EnglishNameInjective(a: int, b: int)
    requires EnglishName(a) == EnglishName(b)
    ensures a == b
  {
    EnglishNameRoundTrip(a);
    EnglishNameRoundTrip(b);
  }

  /** The chapter indexes of a corpus in document order: `arabicSuras.map(s => s.$.index)`. */
  function AllIndexes(q: Quran): (r: seq<int>)
    ensures |r| == |q.suras|
    ensures forall k :: 0 <= k < |r| ==> r[k] == q.suras[k].index
  {
    seq(|q.suras|, k requires 0 <= k < |q.suras| => q.suras[k].index)
  }

  /** The record `processSurah` writes for `index`, or why it throws. The checks come in the
      order the source makes them: the Arabic corpus has a chapter element at all, the chapter
      is there, the Urdu corpus (when given) has a chapter element, the Arabic chapter has verses,
      the Urdu chapter (when found) has verses. A missing Urdu chapter is not an error. */
  function BuildSurah(index: int, arabic: Quran, urdu: Option<Quran>): (r: Result<Surah, ImportError>)
    ensures r.Ok? ==> r.value.index == index
  {
    if |arabic.suras| == 0 then Err(MissingElement)
    else match FindSura(arabic.suras, index)
      case None => Err(SurahNotFound(Arabic, index))
      case Some(a) =>
        if urdu.Some? && |urdu.value.suras| == 0 then Err(MissingElement)
        else if |a.ayas| == 0 then Err(MissingElement)
        else if urdu.Some? && FindSura(urdu.value.suras, index).Some? && |FindSura(urdu.value.suras, index).value.ayas| == 0 then
          Err(MissingElement)
        else
          var ayahs := AlignAyahs(a.ayas, UrduAyas(index, urdu));
          Ok(Surah(index, Attr(a.name), EnglishName(index), |ayahs|, ayahs))
  }

  /** When a chapter builds: it is in the Arabic corpus with verses, and, when an Urdu corpus is
      given, that corpus has chapters and the Urdu chapter, if present, has verses. A chapter
      absent from the Urdu corpus, or no Urdu corpus at all, does not stop it. What a built
      record holds: the requested index, the verse count equal to the number of verses, the
      mapped English name, the Arabic chapter's name, and the verses aligned with the Urdu
      chapter's. */
  lemma BuildSurahSpec(index: int, arabic: Quran, urdu: Option<Quran>)
    ensures BuildSurah(index, arabic, urdu).Ok? <==>
      FindSura(arabic.suras, index).Some? && |FindSura(arabic.suras, index).value.ayas| > 0
      && (urdu.Some? ==>
            |urdu.value.suras| > 0
            && (FindSura(urdu.value.suras, index).Some? ==> |FindSura(urdu.value.suras, index).value.ayas| > 0))
    ensures var r := BuildSurah(index, arabic, urdu);
      (r.Ok? ==> r.value.index == index && CountsAyahs(r.value) && r.value.englishName == EnglishName(index))
      && (r.Ok? ==> FindSura(arabic.suras, index).Some?
                    && r.value.name == Attr(FindSura(arabic.suras, index).value.name)
                    && r.value.ayahs == AlignAyahs(FindSura(arabic.suras, index).value.ayas, UrduAyas(index, urdu)))
      && (FindSura(arabic.suras, index).None? ==> r.Err?)
      && r != Err(SurahNotFound(Urdu, index))
  {
  }

  /** The Urdu verses of a chapter: none without an Urdu corpus or without that chapter in it. */
  function UrduAyas(index: int, urdu: Option<Quran>): (r: seq<Aya>)
    ensures urdu.None? ==> r == []
  {
    if urdu.None? then []
    else match FindSura(urdu.value.suras, index)
      case Some(u) => u.ayas
      case None => []
  }

  /** Without an Urdu corpus a chapter with verses in the Arabic corpus builds, and every verse
      has an empty translation. */
  lemma NoUrduNoTranslation(index: int, arabic: Quran)
    requires FindSura(arabic.suras, index).Some? && |FindSura(arabic.suras, index).value.ayas| > 0
    ensures BuildSurah(index, arabic, None).Ok?
    ensures forall k :: 0 <= k < |BuildSurah(index, arabic, None).value.ayahs| ==>
      BuildSurah(index, arabic, None).value.ayahs[k].urduTranslation == ""
  {
    BuildSurahSpec(index, arabic, None);
    AlignWithoutUrdu(FindSura(arabic.suras, index).value.ayas);
  }

  /** A chapter missing from a non-empty Urdu corpus is built exactly as with no Urdu corpus. */
  lemma MissingUrduChapter(index: int, arabic: Quran, urdu: Quran)
    requires |urdu.suras| > 0
    requires forall j :: 0 <= j < |urdu.suras| ==> urdu.suras[j].index != index
    ensures BuildSurah(index, arabic, Some(urdu)) == BuildSurah(index, arabic, None)
  {
    assert FindSura(urdu.suras, index).None?;
  }

  /** The store after `processSurah(index)` in either importer, where `built` is the record
      built for `index` or the error thrown while building it: the record replaces whatever was
      stored under `index`; on failure nothing changes. */
  function Step(records: Records, index: int, built: Result<Surah, ImportError>): (r: Records)
    ensures index in r <==> index in records || built.Ok?
    ensures built.Ok? ==> r[index] == built.value
    ensures forall k :: k != index ==> (k in r <==> k in records)
    ensures forall k :: k in records && (k != index || built.Err?) ==> r[k] == records[k]
  {
    match built
    case Ok(s) => records[index := s]
    case Err(_) => records
  }

  /** `processSurah`: builds the verses one by one, then upserts the chapter. */
  method ProcessSurah(store: SurahStore, index: int, arabic: Quran, urdu: Option<Quran>)
    returns (outcome: Outcome<ImportError>)
    requires store.Valid()
    modifies store
    ensures store.Valid()
    ensures outcome.Pass? <==> BuildSurah(index, arabic, urdu).Ok?
    ensures outcome.Fail? ==> BuildSurah(index, arabic, urdu) == Err(outcome.error)
    ensures store.records == Step(old(store.records), index, BuildSurah(index, arabic, urdu))
  {
    if |arabic.suras| == 0 {
      return Fail(MissingElement);
    }
    var arabicSurah := FindSura(arabic.suras, index);
    if arabicSurah.None? {
      return Fail(SurahNotFound(Arabic, index));
    }
    var urduSurah: Option<Sura> := None;
    if urdu.Some? {
      if |urdu.value.suras| == 0 {
        return Fail(MissingElement);
      }
      urduSurah := FindSura(urdu.value.suras, index);
    }
    var arabicAyahs := arabicSurah.value.ayas;
    var urduAyahs := if urduSurah.Some? then urduSurah.value.ayas else [];
    if |arabicAyahs| == 0 || (urduSurah.Some? && |urduAyahs| == 0) {
      return Fail(MissingElement);
    }
    var ayahs: seq<Ayah> := [];
    for k := 0 to |arabicAyahs|
      invariant |ayahs| == k
      invariant forall j :: 0 <= j < k ==> ayahs[j] == AyahRecord(arabicAyahs[j], urduAyahs)
    {
      ayahs := ayahs + [AyahRecord(arabicAyahs[k], urduAyahs)];
    }
    assert urduAyahs == UrduAyas(index, urdu);
    assert ayahs == AlignAyahs(arabicAyahs, urduAyahs);
    assert BuildSurah(index, arabic, urdu) == Ok(Surah(index, Attr(arabicSurah.value.name), EnglishName(index), |ayahs|, ayahs));
    store.Upsert(Surah(index, Attr(arabicSurah.value.name), EnglishName(index), |ayahs|, ayahs));
    outcome := Pass;
  }

  /** The store after upserting, in order, the record `build` gives for each target that
      builds. */
  function UpsertEach(records: Records, targets: seq<int>, build: int -> Result<Surah, ImportError>): (r: Records)
    ensures forall k :: k in records ==> k in r
    ensures forall k :: k in r ==> k in records || k in targets
    decreases |targets|
  {
    if targets == [] then records
    else
      var last := targets[|targets| - 1];
      var before := UpsertEach(records, targets[..|targets| - 1], build);
      Step(before, last, build(last))
  }

  /** The store after processing `targets` in order. */
  function ImportEach(records: Records, targets: seq<int>, arabic: Quran, urdu: Option<Quran>): Records {
    UpsertEach(records, targets, (i: int) => BuildSurah(i, arabic, urdu))
  }

  /** After upserting, a key is present iff it was before or it is a target that builds; a
      target that builds holds its built record, and every other record is untouched. */
  lemma {:induction false} UpsertEachContents(records: Records, targets: seq<int>, build: int -> Result<Surah, ImportError>, k: int)
    ensures k in UpsertEach(records, targets, build) <==> k in records || (k in targets && build(k).Ok?)
    ensures k in targets && build(k).Ok? ==> UpsertEach(records, targets, build)[k] == build(k).value
    ensures (k !in targets || build(k).Err?) && k in records ==> UpsertEach(records, targets, build)[k] == records[k]
    decreases |targets|
  {
    if targets != [] {
      var init := targets[..|targets| - 1];
      UpsertEachContents(records, init, build, k);
      assert targets == init + [targets[|targets| - 1]];
      assert k in targets <==> k in init || k == targets[|targets| - 1];
    }
  }

  /** When no target builds, upserting leaves the store as it was. */
  lemma {:induction false} UpsertNothing(records: Records, targets: seq<int>, build: int -> Result<Surah, ImportError>)
    requires forall i :: 0 <= i < |targets| ==> build(targets[i]).Err?
    ensures UpsertEach(records, targets, build) == records
    decreases |targets|
  {
    if targets != [] {
      var init := targets[..|targets| - 1];
      assert forall i :: 0 <= i < |init| ==> init[i] == targets[i];
      UpsertNothing(records, init, build);
    }
  }

  /** Whether chapter `index` builds. */
  predicate Builds(index: int, arabic: Quran, urdu: Option<Quran>) {
    BuildSurah(index, arabic, urdu).Ok?
  }

  /** How many of `targets` are imported successfully (`successCount`). */
  function Imported(targets: seq<int>, arabic: Quran, urdu: Option<Quran>): (n: nat)
    ensures n <= |targets|
  {
    Count(targets, (i: int) => Builds(i, arabic, urdu))
  }

  /** After a batch, a chapter is stored iff it was stored before or it is a target that builds;
      a target that builds holds its built record, and every other record is untouched. */
  lemma ImportContents(records: Records, targets: seq<int>, arabic: Quran, urdu: Option<Quran>, k: int)
    ensures k in ImportEach(records, targets, arabic, urdu) <==>
      k in records || (k in targets && BuildSurah(k, arabic, urdu).Ok?)
    ensures k in targets && BuildSurah(k, arabic, urdu).Ok? ==>
      ImportEach(records, targets, arabic, urdu)[k] == BuildSurah(k, arabic, urdu).value
    ensures (k !in targets || BuildSurah(k, arabic, urdu).Err?) && k in records ==>
      ImportEach(records, targets, arabic, urdu)[k] == records[k]
  {
    UpsertEachContents(records, targets, (i: int) => BuildSurah(i, arabic, urdu), k);
  }

  /** Importing the same chapters again changes nothing. */
  lemma ImportIdempotent(records: Records, targets: seq<int>, arabic: Quran, urdu: Option<Quran>)
    ensures ImportEach(ImportEach(records, targets, arabic, urdu), targets, arabic, urdu)
         == ImportEach(records, targets, arabic, urdu)
  {
    var once := ImportEach(records, targets, arabic, urdu);
    var twice := ImportEach(once, targets, arabic, urdu);
    forall k | true
      ensures (k in twice <==> k in once) && (k in once ==> twice[k] == once[k])
    {
      ImportContents(records, targets, arabic, urdu, k);
      ImportContents(once, targets, arabic, urdu, k);
    }
  }

  /** The order of the targets, and repeated targets, do not affect the resulting store. */
  lemma ImportOrderIrrelevant(records: Records, t1: seq<int>, t2: seq<int>, arabic: Quran, urdu: Option<Quran>)
    requires forall k :: k in t1 <==> k in t2
    ensures ImportEach(records, t1, arabic, urdu) == ImportEach(records, t2, arabic, urdu)
  {
    var a := ImportEach(records, t1, arabic, urdu);
    var b := ImportEach(records, t2, arabic, urdu);
    forall k | true
      ensures (k in a <==> k in b) && (k in a ==> a[k] == b[k])
    {
      ImportContents(records, t1, arabic, urdu, k);
      ImportContents(records, t2, arabic, urdu, k);
    }
  }

  /** No target is imported iff every target fails to build; all are iff every one builds. */
  lemma ImportedExtremes(targets: seq<int>, arabic: Quran, urdu: Option<Quran>)
    ensures Imported(targets, arabic, urdu) == 0 <==>
      forall i :: 0 <= i < |targets| ==> !Builds(targets[i], arabic, urdu)
    ensures Imported(targets, arabic, urdu) == |targets| <==>
      forall i :: 0 <= i < |targets| ==> Builds(targets[i], arabic, urdu)
  {
    CountZero(targets, (i: int) => Builds(i, arabic, urdu));
    CountFull(targets, (i: int) => Builds(i, arabic, urdu));
  }

  /** When every target fails, the batch leaves the store as it was. */
  lemma AllFailedLeavesStore(records: Records, targets: seq<int>, arabic: Quran, urdu: Option<Quran>)
    requires forall i :: 0 <= i < |targets| ==> !Builds(targets[i], arabic, urdu)
    ensures ImportEach(records, targets, arabic, urdu) == records
  {
    UpsertNothing(records, targets, (i: int) => BuildSurah(i, arabic, urdu));
  }

  /** Processing one more target is one more `processSurah` step on the store so far. */
  lemma ImportEachStep(records: Records, targets: seq<int>, i: nat, arabic: Quran, urdu: Option<Quran>)
    requires i < |targets|
    ensures ImportEach(records, targets[..i + 1], arabic, urdu)
         == Step(ImportEach(records, targets[..i], arabic, urdu), targets[i], BuildSurah(targets[i], arabic, urdu))
  {
    assert targets[..i + 1][..i] == targets[..i];
  }

  /** Processing one more target adds one to the tally iff that target builds. */
  lemma ImportedStep(targets: seq<int>, i: nat, arabic: Quran, urdu: Option<Quran>)
    requires i < |targets|
    ensures Imported(targets[..i + 1], arabic, urdu)
         == Imported(targets[..i], arabic, urdu) + (if Builds(targets[i], arabic, urdu) then 1 else 0)
  {
    assert targets[..i + 1][..i] == targets[..i];
  }

  /** The value `importFromXml` returns when it does not throw. `success` is always true. */
  datatype ImportSummary = ImportSummary(success: bool, imported: nat, errors: nat, totalProcessed: nat)

  /** What a call returns (or throws) together with the store it leaves behind. */
  datatype Run = Run(result: Result<ImportSummary, ImportError>, records: Records)

  /** How far `importFromXml` gets before it chooses the targets: the error it throws together
      with the store it leaves, or the (cleared) store and both parsed corpora. */
  datatype Prepared =
    | Stopped(run: Run)
    | Parsed(cleared: Records, arabicData: Quran, urduData: Option<Quran>)

  /** The first stage of `importFromXml`: the Arabic then the Urdu existence check, the
      optional clear, then parsing Arabic then Urdu. A missing file throws before the clear, a
      parse failure after it. */
  function Prepare(records: Records, arabic: XmlFile, urdu: Option<XmlFile>, clearExisting: bool): (p: Prepared)
    ensures p.Parsed? <==>
      arabic.present && arabic.parsed.Some? && (urdu.Some? ==> urdu.value.present && urdu.value.parsed.Some?)
    ensures p.Stopped? ==> p.run.result.Err?
    ensures !arabic.present || (urdu.Some? && !urdu.value.present) ==> p.run.records == records
    ensures arabic.present && (urdu.Some? ==> urdu.value.present) ==>
      (if p.Parsed? then p.cleared else p.run.records) == (if clearExisting then map[] else records)
    ensures p.Parsed? ==>
      p.arabicData == arabic.parsed.value && p.urduData == (if urdu.Some? then urdu.value.parsed else None)
  {
    if !arabic.present then Stopped(Run(Err(FileNotFound(Arabic)), records))
    else if urdu.Some? && !urdu.value.present then Stopped(Run(Err(FileNotFound(Urdu)), records))
    else
      var cleared: Records := if clearExisting then map[] else records;
      if arabic.parsed.None? then Stopped(Run(Err(ParseFailed(Arabic)), cleared))
      else if urdu.Some? && urdu.value.parsed.None? then Stopped(Run(Err(ParseFailed(Urdu)), cleared))
      else Parsed(cleared, arabic.parsed.value, if urdu.Some? then urdu.value.parsed else None)
  }

  /** `importFromXml(arabicXmlPath, urduXmlPath, surahIndexes, clearExisting)` starting from the
      store `records`. `urdu` is `None` when no Urdu path is given. The run throws exactly when
      a file is missing, a parse fails, or every chapter is asked for and the Arabic corpus has
      no chapter element. */
  function ImportFromXmlRun(records: Records, arabic: XmlFile, urdu: Option<XmlFile>, requested: seq<int>, clearExisting: bool): (run: Run)
    ensures run.result.Ok? <==>
      arabic.present && arabic.parsed.Some? && (urdu.Some? ==> urdu.value.present && urdu.value.parsed.Some?)
      && (|requested| > 0 || |arabic.parsed.value.suras| > 0)
  {
    match Prepare(records, arabic, urdu, clearExisting)
    case Stopped(run) => run
    case Parsed(cleared, arabicData, urduData) => ImportParsed(cleared, arabicData, urduData, requested)
  }

  /** The part of `importFromXml` after both files are parsed: choosing the targets (an empty
      list means every Arabic chapter, in document order) and the per-chapter loop. It throws
      only when every chapter is asked for and there is no chapter element; otherwise every
      target is counted once, as imported or as an error. */
  function ImportParsed(cleared: Records, arabic: Quran, urdu: Option<Quran>, requested: seq<int>): (run: Run)
    ensures run.result.Ok? <==> |requested| > 0 || |arabic.suras| > 0
    ensures run.result.Err? ==> run.records == cleared
    ensures run.result.Ok? ==>
      run.result.value.imported + run.result.value.errors == run.result.value.totalProcessed
      == (if |requested| == 0 then |arabic.suras| else |requested|)
  {
    if |requested| == 0 && |arabic.suras| == 0 then Run(Err(MissingElement), cleared)
    else
      var targets := if |requested| == 0 then AllIndexes(arabic) else requested;
      var n := Imported(targets, arabic, urdu);
      Run(Ok(ImportSummary(true, n, |targets| - n, |targets|)), ImportEach(cleared, targets, arabic, urdu))
  }

  /** Once both files exist and parse, the run is the post-parse stage on the (cleared) store. */
  lemma ParsedStage(records: Records, arabic: XmlFile, urdu: Option<XmlFile>, requested: seq<int>, clearExisting: bool)
    requires arabic.present && arabic.parsed.Some?
    requires urdu.Some? ==> urdu.value.present && urdu.value.parsed.Some?
    ensures ImportFromXmlRun(records, arabic, urdu, requested, clearExisting)
         == ImportParsed(if clearExisting then map[] else records, arabic.parsed.value,
                         if urdu.Some? then urdu.value.parsed else None, requested)
  {
  }

  /** A run that returns a summary got past both existence checks and both parses. */
  lemma OkRunIsParsed(records: Records, arabic: XmlFile, urdu: Option<XmlFile>, requested: seq<int>, clearExisting: bool)
    requires ImportFromXmlRun(records, arabic, urdu, requested, clearExisting).result.Ok?
    ensures arabic.present && arabic.parsed.Some?
    ensures urdu.Some? ==> urdu.value.present && urdu.value.parsed.Some?
    ensures ImportFromXmlRun(records, arabic, urdu, requested, clearExisting)
         == ImportParsed(if clearExisting then map[] else records, arabic.parsed.value,
                         if urdu.Some? then urdu.value.parsed else None, requested)
  {
  }

  /** The per-chapter loop of `importFromXml`: a chapter that throws is counted as an error and
      the loop goes on. */
  method ImportTargets(store: SurahStore, targets: seq<int>, arabic: Quran, urdu: Option<Quran>)
    returns (successCount: nat, errorCount: nat)
    requires store.Valid()
    modifies store
    ensures store.Valid()
    ensures successCount == Imported(targets, arabic, urdu)
    ensures successCount + errorCount == |targets|
    ensures store.records == ImportEach(old(store.records), targets, arabic, urdu)
  {
    successCount, errorCount := 0, 0;
    for i := 0 to |targets|
      invariant store.Valid()
      invariant successCount == Imported(targets[..i], arabic, urdu)
      invariant successCount + errorCount == i
      invariant store.records == ImportEach(old(store.records), targets[..i], arabic, urdu)
    {
      ImportEachStep(old(store.records), targets, i, arabic, urdu);
      ImportedStep(targets, i, arabic, urdu);
      var outcome := ProcessSurah(store, targets[i], arabic, urdu);
      if outcome.Pass? {
        successCount := successCount + 1;
      } else {
        errorCount := errorCount + 1;
      }
    }
    assert targets[..|targets|] == targets;
  }

  /** `importFromXml`. */
  method ImportFromXml(store: SurahStore, arabic: XmlFile, urdu: Option<XmlFile>, requested: seq<int>, clearExisting: bool)
    returns (result: Result<ImportSummary, ImportError>)
    requires store.Valid()
    modifies store
    ensures store.Valid()
    ensures Run(result, store.records) == ImportFromXmlRun(old(store.records), arabic, urdu, requested, clearExisting)
  {
    if !arabic.present {
      return Err(FileNotFound(Arabic));
    }
    if urdu.Some? && !urdu.value.present {
      return Err(FileNotFound(Urdu));
    }
    if clearExisting {
      store.DeleteAll();
    }
    if arabic.parsed.None? {
      return Err(ParseFailed(Arabic));
    }
    var urduData: Option<Quran> := None;
    if urdu.Some? {
      if urdu.value.parsed.None? {
        return Err(ParseFailed(Urdu));
      }
      urduData := urdu.value.parsed;
    }
    ParsedStage(old(store.records), arabic, urdu, requested, clearExisting);
    result := ImportParsedCorpora(store, arabic.parsed.value, urduData, requested);
  }

  /** The rest of `importFromXml` once both files are parsed: the targets, then the loop. */
  method ImportParsedCorpora(store: SurahStore, arabicData: Quran, urduData: Option<Quran>, requested: seq<int>)
    returns (result: Result<ImportSummary, ImportError>)
    requires store.Valid()
    modifies store
    ensures store.Valid()
    ensures Run(result, store.records) == ImportParsed(old(store.records), arabicData, urduData, requested)
  {
    var targetSurahs := requested;
    if |targetSurahs| == 0 {
      if |arabicData.suras| == 0 {
        return Err(MissingElement);
      }
      targetSurahs := AllIndexes(arabicData);
    }
    var successCount, errorCount := ImportTargets(store, targetSurahs, arabicData, urduData);
    result := Ok(ImportSummary(true, successCount, errorCount, |targetSurahs|));
  }

  /** A missing file throws before the store is touched. */
  lemma MissingFileLeavesStore(records: Records, arabic: XmlFile, urdu: Option<XmlFile>, requested: seq<int>, clearExisting: bool)
    requires !arabic.present || (urdu.Some? && !urdu.value.present)
    ensures ImportFromXmlRun(records, arabic, urdu, requested, clearExisting).records == records
    ensures ImportFromXmlRun(records, arabic, urdu, requested, clearExisting).result.Err?
  {
  }

  /** With `clearExisting`, the store is emptied before parsing, so a parse failure leaves it empty. */
  lemma ParseFailureAfterClear(records: Records, arabic: XmlFile, urdu: Option<XmlFile>, requested: seq<int>)
    requires arabic.present && (urdu.Some? ==> urdu.value.present)
    requires arabic.parsed.None? || (urdu.Some? && urdu.value.parsed.None?)
    ensures ImportFromXmlRun(records, arabic, urdu, requested, true) ==
      Run(Err(ParseFailed(if arabic.parsed.None? then Arabic else Urdu)), map[])
  {
  }

  /** The tally: every target is counted once, as imported or as an error, and the result
      reports success even when every chapter failed, in which case the store is unchanged
      apart from the optional clear. */
  lemma RunTally(records: Records, arabic: XmlFile, urdu: Option<XmlFile>, requested: seq<int>, clearExisting: bool)
    requires ImportFromXmlRun(records, arabic, urdu, requested, clearExisting).result.Ok?
    ensures var s := ImportFromXmlRun(records, arabic, urdu, requested, clearExisting).result.value;
      s.success && s.imported + s.errors == s.totalProcessed
      && s.totalProcessed == (if |requested| == 0 then |arabic.parsed.value.suras| else |requested|)
    ensures var run := ImportFromXmlRun(records, arabic, urdu, requested, clearExisting);
      run.result.value.imported == 0 ==> run.records == (if clearExisting then map[] else records)
  {
    OkRunIsParsed(records, arabic, urdu, requested, clearExisting);
    var ar := arabic.parsed.value;
    var ur := if urdu.Some? then urdu.value.parsed else None;
    var targets := if |requested| == 0 then AllIndexes(ar) else requested;
    ImportedExtremes(targets, ar, ur);
    if Imported(targets, ar, ur) == 0 {
      AllFailedLeavesStore(if clearExisting then map[] else records, targets, ar, ur);
    }
  }

  /** After a successful run, a chapter is stored iff it was kept from before or it is a target
      that builds, and it then holds the built record. */
  lemma RunContents(records: Records, arabic: XmlFile, urdu: Option<XmlFile>, requested: seq<int>, clearExisting: bool, k: int)
    requires ImportFromXmlRun(records, arabic, urdu, requested, clearExisting).result.Ok?
    ensures var ar := arabic.parsed.value;
      var ur := if urdu.Some? then urdu.value.parsed else None;
      var targets := if |requested| == 0 then AllIndexes(ar) else requested;
      var after := ImportFromXmlRun(records, arabic, urdu, requested, clearExisting).records;
      (k in after <==> (!clearExisting && k in records) || (k in targets && BuildSurah(k, ar, ur).Ok?))
      && (k in targets && BuildSurah(k, ar, ur).Ok? ==> after[k] == BuildSurah(k, ar, ur).value)
  {
    OkRunIsParsed(records, arabic, urdu, requested, clearExisting);
    var ar := arabic.parsed.value;
    var ur := if urdu.Some? then urdu.value.parsed else None;
    var targets := if |requested| == 0 then AllIndexes(ar) else requested;
    ImportContents(if clearExisting then map[] else records, targets, ar, ur, k);
  }

  /** Running the same import twice without clearing leaves the store as one run does. */
  lemma RerunIsIdempotent(records: Records, arabic: XmlFile, urdu: Option<XmlFile>, requested: seq<int>)
    requires ImportFromXmlRun(records, arabic, urdu, requested, false).result.Ok?
    ensures var once := ImportFromXmlRun(records, arabic, urdu, requested, false).records;
      ImportFromXmlRun(once, arabic, urdu, requested, false).records == once
  {
    OkRunIsParsed(records, arabic, urdu, requested, false);
    var ar := arabic.parsed.value;
    var ur := if urdu.Some? then urdu.value.parsed else None;
    var targets := if |requested| == 0 then AllIndexes(ar) else requested;
    ImportIdempotent(records, targets, ar, ur);
  }

  /** The consecutive indexes `lo..hi` in ascending order; nothing when `lo > hi`. */
  function IndexRange(lo: int, hi: int): (r: seq<int>)
    ensures |r| == if lo <= hi then hi - lo + 1 else 0
    ensures forall k :: 0 <= k < |r| ==> r[k] == lo + k
    decreases hi - lo
  {
    if lo > hi then [] else [lo] + IndexRange(lo + 1, hi)
  }

  /** The list `importSurahRange` builds: `for (i = startIndex; i <= endIndex; i++) push(i)`. */
  method SurahRangeIndexes(startIndex: int, endIndex: int) returns (indexes: seq<int>)
    ensures indexes == IndexRange(startIndex, endIndex)
  {
    indexes := [];
    var i := startIndex;
    while i <= endIndex
      invariant startIndex <= i <= if startIndex <= endIndex then endIndex + 1 else startIndex
      invariant |indexes| == i - startIndex
      invariant forall k :: 0 <= k < |indexes| ==> indexes[k] == startIndex + k
      decreases endIndex - i
    {
      indexes := indexes + [i];
      i := i + 1;
    }
  }

  /** The list `importFirstNSurahs` builds: `1..count`. */
  method FirstNIndexes(count: int) returns (indexes: seq<int>)
    ensures indexes == IndexRange(1, count)
  {
    indexes := [];
    var i := 1;
    while i <= count
      invariant 1 <= i <= if 1 <= count then count + 1 else 1
      invariant |indexes| == i - 1
      invariant forall k :: 0 <= k < |indexes| ==> indexes[k] == 1 + k
      decreases count - i
    {
      indexes := indexes + [i];
      i := i + 1;
    }
  }

  /** The list `importLastNSurahs` builds: `114 - count + 1 .. 114`, whatever the corpus holds. */
  method LastNIndexes(count: int) returns (indexes: seq<int>)
    ensures indexes == IndexRange(115 - count, 114)
  {
    indexes := [];
    var i := 114 - count + 1;
    while i <= 114
      invariant 115 - count <= i <= if 115 - count <= 114 then 115 else 115 - count
      invariant |indexes| == i - (115 - count)
      invariant forall k :: 0 <= k < |indexes| ==> indexes[k] == 115 - count + k
      decreases 114 - i
    {
      indexes := indexes + [i];
      i := i + 1;
    }
  }

  /** `importSurahRange`. */
  method ImportSurahRange(store: SurahStore, arabic: XmlFile, urdu: Option<XmlFile>, startIndex: int, endIndex: int, clearExisting: bool)
    returns (result: Result<ImportSummary, ImportError>)
    requires store.Valid()
    modifies store
    ensures store.Valid()
    ensures Run(result, store.records) ==
      ImportFromXmlRun(old(store.records), arabic, urdu, IndexRange(startIndex, endIndex), clearExisting)
  {
    var surahIndexes := SurahRangeIndexes(startIndex, endIndex);
    result := ImportFromXml(store, arabic, urdu, surahIndexes, clearExisting);
  }

  /** `importFirstNSurahs`. */
  method ImportFirstNSurahs(store: SurahStore, arabic: XmlFile, urdu: Option<XmlFile>, count: int, clearExisting: bool)
    returns (result: Result<ImportSummary, ImportError>)
    requires store.Valid()
    modifies store
    ensures store.Valid()
    ensures Run(result, store.records) ==
      ImportFromXmlRun(old(store.records), arabic, urdu, IndexRange(1, count), clearExisting)
  {
    var surahIndexes := FirstNIndexes(count);
    result := ImportFromXml(store, arabic, urdu, surahIndexes, clearExisting);
  }

  /** `importLastNSurahs`. */
  method ImportLastNSurahs(store: SurahStore, arabic: XmlFile, urdu: Option<XmlFile>, count: int, clearExisting: bool)
    returns (result: Result<ImportSummary, ImportError>)
    requires store.Valid()
    modifies store
    ensures store.Valid()
    ensures Run(result, store.records) ==
      ImportFromXmlRun(old(store.records), arabic, urdu, IndexRange(115 - count, 114), clearExisting)
  {
    var surahIndexes := LastNIndexes(count);
    result := ImportFromXml(store, arabic, urdu, surahIndexes, clearExisting);
  }

  /** As written, an empty range (`startIndex > endIndex`, or a count of zero or less) reaches
      `importFromXml` as an empty list, which means "every chapter of the Arabic corpus". */
  lemma EmptyRangeImportsEverything(records: Records, arabic: XmlFile, urdu: Option<XmlFile>, startIndex: int, endIndex: int, clearExisting: bool)
    requires startIndex > endIndex
    ensures ImportFromXmlRun(records, arabic, urdu, IndexRange(startIndex, endIndex), clearExisting)
         == ImportFromXmlRun(records, arabic, urdu, [], clearExisting)
  {
    assert IndexRange(startIndex, endIndex) == [];
  }

  /** A concrete instance: asking for chapters 2..1 of a one-chapter corpus imports chapter 1. */
  lemma EmptyRangeExample(arabic: XmlFile)
    requires arabic == XmlFile(true, Some(Quran([Sura(1, None, [Aya(1, Some("a"), None)])])))
    ensures var run := ImportFromXmlRun(map[], arabic, None, IndexRange(2, 1), false);
      run.result == Ok(ImportSummary(true, 1, 0, 1)) && 1 in run.records
  {
    var ar := arabic.parsed.value;
    assert AllIndexes(ar) == [1];
    assert FindSura(ar.suras, 1).Some?;
    assert BuildSurah(1, ar, None).Ok?;
    assert [1][..0] == [];
  }

  /** The range import as evidently intended: an empty range imports nothing (after the same
      file checks, clear and parsing) and reports zero chapters processed. */
  function ImportRangeRun(records: Records, arabic: XmlFile, urdu: Option<XmlFile>, startIndex: int, endIndex: int, clearExisting: bool): (run: Run)
    ensures startIndex <= endIndex ==>
      run == ImportFromXmlRun(records, arabic, urdu, IndexRange(startIndex, endIndex), clearExisting)
    ensures run.result.Ok? ==> run.result.value.totalProcessed == |IndexRange(startIndex, endIndex)|
  {
    match Prepare(records, arabic, urdu, clearExisting)
    case Stopped(run) => run
    case Parsed(cleared, arabicData, urduData) =>
      if startIndex <= endIndex then ImportParsed(cleared, arabicData, urduData, IndexRange(startIndex, endIndex))
      else Run(Ok(ImportSummary(true, 0, 0, 0)), cleared)
  }

  /** With the correction, exactly the chapters in the range that build are written. */
  lemma ImportRangeExact(records: Records, arabic: XmlFile, urdu: Option<XmlFile>, startIndex: int, endIndex: int, clearExisting: bool, k: int)
    requires ImportRangeRun(records, arabic, urdu, startIndex, endIndex, clearExisting).result.Ok?
    ensures var ar := arabic.parsed.value;
      var ur := if urdu.Some? then urdu.value.parsed else None;
      var after := ImportRangeRun(records, arabic, urdu, startIndex, endIndex, clearExisting).records;
      k in after <==> (!clearExisting && k in records) || (startIndex <= k <= endIndex && BuildSurah(k, ar, ur).Ok?)
  {
    if startIndex <= endIndex {
      RunContents(records, arabic, urdu, IndexRange(startIndex, endIndex), clearExisting, k);
      var r := IndexRange(startIndex, endIndex);
      assert k in r <==> startIndex <= k <= endIndex by {
        if startIndex <= k <= endIndex {
          assert r[k - startIndex] == k;
        }
      }
    }
  }
}
