/** The older importer: imports chapters 112, 113 and 114 from fixed files, requires each of
    them in both the Arabic and the Urdu corpus, and stops at the first chapter that fails;
    plus the status query that counts and lists the stored chapters. */
module DataImport {
  import opened Wrappers
  import opened SurahModel
  import opened Corpus
  import opened Store
  import GenericImporter

  /** `getEnglishName`: names for the last three chapters only, `''` for every other index. */
  function EnglishName(index: int): (r: string)
    ensures r != "" <==> index in {112, 113, 114}
  {
    if index == 112 then "Al-Ikhlas"
    else if index == 113 then "Al-Falaq"
    else if index == 114 then "An-Nas"
    else ""
  }

  /** On the chapters it maps, the older table agrees with the generic importer's. */
  lemma EnglishNameAgrees(index: int)
    requires index in {112, 113, 114}
    ensures EnglishName(index) == GenericImporter.EnglishName(index)
  {
  }

  /** The record `processSurah` writes for `index`, or why it throws: both corpora must have a
      chapter element, and the chapter must be in both of them. */
  function BuildSurah(index: int, arabic: Quran, urdu: Quran): (r: Result<Surah, ImportError>)
    ensures r.Ok? ==> r.value.index == index
  {
    if |arabic.suras| == 0 then Err(MissingElement)
    else match FindSura(arabic.suras, index)
      case None => Err(SurahNotFound(Arabic, index))
      case Some(a) =>
        if |urdu.suras| == 0 then Err(MissingElement)
        else match FindSura(urdu.suras, index)
          case None => Err(SurahNotFound(Urdu, index))
          case Some(u) =>
            if |a.ayas| == 0 || |u.ayas| == 0 then Err(MissingElement)
            else
              var ayahs := AlignAyahs(a.ayas, u.ayas);
              Ok(Surah(index, Attr(a.name), EnglishName(index), |ayahs|, ayahs))
  }

  /** A chapter builds iff it is in both corpora with verses in both. What a built record
      holds, and which error a missing chapter gives: the Arabic chapter is looked up first,
      then the Urdu one. */
  lemma BuildSurahSpec(index: int, arabic: Quran, urdu: Quran)
    ensures BuildSurah(index, arabic, urdu).Ok? <==>
      FindSura(arabic.suras, index).Some? && |FindSura(arabic.suras, index).value.ayas| > 0
      && FindSura(urdu.suras, index).Some? && |FindSura(urdu.suras, index).value.ayas| > 0
    ensures var r := BuildSurah(index, arabic, urdu);
      (r.Ok? ==> r.value.index == index && CountsAyahs(r.value) && r.value.englishName == EnglishName(index))
      && (r.Ok? ==> FindSura(arabic.suras, index).Some? && FindSura(urdu.suras, index).Some?
                    && r.value.name == Attr(FindSura(arabic.suras, index).value.name)
                    && r.value.ayahs == AlignAyahs(FindSura(arabic.suras, index).value.ayas, FindSura(urdu.suras, index).value.ayas))
      && (|arabic.suras| > 0 && FindSura(arabic.suras, index).None? ==> r == Err(SurahNotFound(Arabic, index)))
      && ((|arabic.suras| > 0 && FindSura(arabic.suras, index).Some? && |urdu.suras| > 0
           && FindSura(urdu.suras, index).None?) ==> r == Err(SurahNotFound(Urdu, index)))
  {
  }

  /** The two importers build the same record whenever the Urdu chapter is present, apart from
      the English name; the older one fails exactly when the generic one does or the Urdu
      chapter is missing. */
  lemma AgreesWithGeneric(index: int, arabic: Quran, urdu: Quran)
    ensures BuildSurah(index, arabic, urdu).Ok? <==>
      GenericImporter.BuildSurah(index, arabic, Some(urdu)).Ok? && FindSura(urdu.suras, index).Some?
    ensures BuildSurah(index, arabic, urdu).Ok? ==>
      GenericImporter.BuildSurah(index, arabic, Some(urdu)).value
        == BuildSurah(index, arabic, urdu).value.(englishName := GenericImporter.EnglishName(index))
  {
  }

  /** `processSurah`: builds the verses one by one, then upserts the chapter. */
  method ProcessSurah(store: SurahStore, index: int, arabic: Quran, urdu: Quran)
    returns (outcome: Outcome<ImportError>)
    requires store.Valid()
    modifies store
    ensures store.Valid()
    ensures outcome.Pass? <==> BuildSurah(index, arabic, urdu).Ok?
    ensures outcome.Fail? ==> BuildSurah(index, arabic, urdu) == Err(outcome.error)
    ensures store.records == GenericImporter.Step(old(store.records), index, BuildSurah(index, arabic, urdu))
  {
    if |arabic.suras| == 0 {
      return Fail(MissingElement);
    }
    var arabicSurah := FindSura(arabic.suras, index);
    if arabicSurah.None? {
      return Fail(SurahNotFound(Arabic, index));
    }
    if |urdu.suras| == 0 {
      return Fail(MissingElement);
    }
    var urduSurah := FindSura(urdu.suras, index);
    if urduSurah.None? {
      return Fail(SurahNotFound(Urdu, index));
    }
    var arabicAyahs := arabicSurah.value.ayas;
    var urduAyahs := urduSurah.value.ayas;
    if |arabicAyahs| == 0 || |urduAyahs| == 0 {
      return Fail(MissingElement);
    }
    var ayahs: seq<Ayah> := [];
    for k := 0 to |arabicAyahs|
      invariant |ayahs| == k
      invariant forall j :: 0 <= j < k ==> ayahs[j] == AyahRecord(arabicAyahs[j], urduAyahs)
    {
      ayahs := ayahs + [AyahRecord(arabicAyahs[k], urduAyahs)];
    }
    assert ayahs == AlignAyahs(arabicAyahs, urduAyahs);
    assert BuildSurah(index, arabic, urdu) == Ok(Surah(index, Attr(arabicSurah.value.name), EnglishName(index), |ayahs|, ayahs));
    store.Upsert(Surah(index, Attr(arabicSurah.value.name), EnglishName(index), |ayahs|, ayahs));
    outcome := Pass;
  }

  /** What an import returns (or throws) together with the store it leaves behind. */
  datatype Run = Run(outcome: Outcome<ImportError>, records: Records)

  /** Processing `targets` in order with no per-chapter catch, `build` giving each chapter's
      record or error: the first failure ends the run, and chapters already written stay
      written. */
  function UpsertUntilFailure(records: Records, targets: seq<int>, build: int -> Result<Surah, ImportError>): (run: Run)
    ensures forall k :: k in records ==> k in run.records
    ensures forall k :: k in run.records ==> k in records || k in targets
    decreases |targets|
  {
    if targets == [] then Run(Pass, records)
    else match build(targets[0])
      case Err(e) => Run(Fail(e), records)
      case Ok(s) => UpsertUntilFailure(records[targets[0] := s], targets[1..], build)
  }

  /** The fail-fast loop of `importLastThreeSurahs` over this importer's `processSurah`. */
  function ImportUntilFailure(records: Records, targets: seq<int>, arabic: Quran, urdu: Quran): Run {
    UpsertUntilFailure(records, targets, (i: int) => BuildSurah(i, arabic, urdu))
  }

  /** The fixed target list. */
  const LastThree: seq<int> := [112, 113, 114]

  /** `importLastThreeSurahs` starting from the store `records`. `arabic` and `urdu` are the
      parsed files, `None` when reading or parsing throws; the Arabic file is read first. A
      file that fails throws before anything is written, and only 112, 113 and 114 are ever
      written. */
  function ImportLastThreeRun(records: Records, arabic: Option<Quran>, urdu: Option<Quran>): (run: Run)
    ensures arabic.None? || urdu.None? ==> run.outcome.Fail? && run.records == records
    ensures forall k :: k in records ==> k in run.records
    ensures forall k :: k in run.records ==> k in records || k in {112, 113, 114}
  {
    if arabic.None? then Run(Fail(ParseFailed(Arabic)), records)
    else if urdu.None? then Run(Fail(ParseFailed(Urdu)), records)
    else ImportUntilFailure(records, LastThree, arabic.value, urdu.value)
  }

  /** `importLastThreeSurahs`. */
  method ImportLastThreeSurahs(store: SurahStore, arabic: Option<Quran>, urdu: Option<Quran>)
    returns (outcome: Outcome<ImportError>)
    requires store.Valid()
    modifies store
    ensures store.Valid()
    ensures Run(outcome, store.records) == ImportLastThreeRun(old(store.records), arabic, urdu)
  {
    if arabic.None? {
      return Fail(ParseFailed(Arabic));
    }
    if urdu.None? {
      return Fail(ParseFailed(Urdu));
    }
    var arabicData, urduData := arabic.value, urdu.value;
    var targetSurahs := LastThree;
    var i := 0;
    while i < |targetSurahs|
      invariant 0 <= i <= |targetSurahs|
      invariant store.Valid()
      invariant ImportUntilFailure(store.records, targetSurahs[i..], arabicData, urduData)
             == ImportLastThreeRun(old(store.records), arabic, urdu)
    {
      assert targetSurahs[i..][0] == targetSurahs[i] && targetSurahs[i..][1..] == targetSurahs[i + 1..];
      var step := ProcessSurah(store, targetSurahs[i], arabicData, urduData);
      if step.Fail? {
        return step;
      }
      i := i + 1;
    }
    outcome := Pass;
  }

  /** With `k` the position of the first target that fails (or the number of targets when none
      does), the run fails with that target's error, or passes when there is none. */
  lemma {:induction false} UntilFailureOutcome(records: Records, targets: seq<int>, build: int -> Result<Surah, ImportError>, k: nat)
    requires k <= |targets|
    requires forall j :: 0 <= j < k ==> build(targets[j]).Ok?
    requires k < |targets| ==> build(targets[k]).Err?
    ensures UpsertUntilFailure(records, targets, build).outcome ==
      (if k < |targets| then Fail(build(targets[k]).error) else Pass)
    decreases k
  {
    if k > 0 {
      var rest := targets[1..];
      assert forall j :: 0 <= j < k - 1 ==> rest[j] == targets[j + 1];
      UntilFailureOutcome(records[targets[0] := build(targets[0]).value], rest, build, k - 1);
    }
  }

  /** With `k` as above, the store afterwards holds exactly the records of the targets before
      `k` on top of what it held before: chapters written before a failure stay written. */
  lemma {:induction false} UntilFailureRecords(records: Records, targets: seq<int>, build: int -> Result<Surah, ImportError>, k: nat, c: int)
    requires k <= |targets|
    requires forall j :: 0 <= j < k ==> build(targets[j]).Ok?
    requires k < |targets| ==> build(targets[k]).Err?
    ensures var after := UpsertUntilFailure(records, targets, build).records;
      (c in after <==> c in records || c in targets[..k])
      && (c in targets[..k] ==> after[c] == build(c).value)
      && (c !in targets[..k] && c in records ==> after[c] == records[c])
    decreases k
  {
    if k > 0 {
      var rest := targets[1..];
      assert forall j :: 0 <= j < k - 1 ==> rest[j] == targets[j + 1];
      UntilFailureRecords(records[targets[0] := build(targets[0]).value], rest, build, k - 1, c);
      assert targets[..k] == [targets[0]] + rest[..k - 1];
    }
  }

  /** The import passes iff every chapter builds. */
  lemma {:induction false} UntilFailurePasses(records: Records, targets: seq<int>, build: int -> Result<Surah, ImportError>)
    ensures UpsertUntilFailure(records, targets, build).outcome.Pass? <==>
      forall j :: 0 <= j < |targets| ==> build(targets[j]).Ok?
    decreases |targets|
  {
    if targets != [] && build(targets[0]).Ok? {
      UntilFailurePasses(records[targets[0] := build(targets[0]).value], targets[1..], build);
      assert forall j :: 1 <= j < |targets| ==> targets[j] == targets[1..][j - 1];
    }
  }

  /** For the last three chapters: when chapter 112 builds and 113 does not, the import fails
      with 113's error, 112's record stays written and 114 is never attempted. */
  lemma LastThreeStopsAtFailure(records: Records, arabic: Quran, urdu: Quran)
    requires BuildSurah(112, arabic, urdu).Ok? && BuildSurah(113, arabic, urdu).Err?
    ensures var run := ImportLastThreeRun(records, Some(arabic), Some(urdu));
      run.outcome == Fail(BuildSurah(113, arabic, urdu).error)
      && run.records == records[112 := BuildSurah(112, arabic, urdu).value]
  {
  }

  /** One entry of the status list: the projection `{ index, name, totalAyahs }`. */
  datatype StatusEntry = StatusEntry(index: int, name: string, totalAyahs: int)

  /** `checkDatabaseStatus`'s result. */
  datatype DbStatus = DbStatus(totalSurahs: nat, surahs: seq<StatusEntry>)

  function Entry(s: Surah): StatusEntry {
    StatusEntry(s.index, s.name, s.totalAyahs)
  }

  /** The projection `{ index, name, totalAyahs }` of each record, in place. */
  function Entries(order: seq<Surah>): (r: seq<StatusEntry>)
    ensures |r| == |order|
    ensures forall i :: 0 <= i < |r| ==> r[i] == Entry(order[i])
  {
    if order == [] then [] else [Entry(order[0])] + Entries(order[1..])
  }

  /** `checkDatabaseStatus`: the number of stored chapters and the entries of the records in
      index order. */
  function CheckDatabaseStatus(records: Records): (r: DbStatus)
    requires Keyed(records)
    ensures r.totalSurahs == |records| == |r.surahs|
    ensures forall i :: 0 <= i < |r.surahs| ==> r.surahs[i] == Entry(InIndexOrder(records)[i])
  {
    DbStatus(|records|, Entries(InIndexOrder(records)))
  }

  /** The status list is sorted strictly ascending by index. */
  lemma StatusSorted(records: Records)
    requires Keyed(records)
    ensures var list := CheckDatabaseStatus(records).surahs;
      forall i, j :: 0 <= i < j < |list| ==> list[i].index < list[j].index
  {
    var order := InIndexOrder(records);
    var list := CheckDatabaseStatus(records).surahs;
    forall i, j | 0 <= i < j < |list| ensures list[i].index < list[j].index {
      assert list[i].index == order[i].index && list[j].index == order[j].index;
    }
  }

  /** Each entry is that of the stored record under its index. */
  lemma StatusFromRecords(records: Records)
    requires Keyed(records)
    ensures var list := CheckDatabaseStatus(records).surahs;
      forall i :: 0 <= i < |list| ==> list[i].index in records && list[i] == Entry(records[list[i].index])
  {
    var order := InIndexOrder(records);
    var list := CheckDatabaseStatus(records).surahs;
    forall i | 0 <= i < |list| ensures list[i].index in records && list[i] == Entry(records[list[i].index]) {
      assert list[i] == Entry(order[i]);
    }
  }

  /** Every stored chapter has an entry in the status list. */
  lemma StatusComplete(records: Records)
    requires Keyed(records)
    ensures var list := CheckDatabaseStatus(records).surahs;
      forall k :: k in records ==> exists i :: 0 <= i < |list| && list[i].index == k
  {
    var order := InIndexOrder(records);
    var list := CheckDatabaseStatus(records).surahs;
    forall k | k in records ensures exists i :: 0 <= i < |list| && list[i].index == k {
      var i :| 0 <= i < |order| && order[i].index == k;
      assert list[i] == Entry(order[i]);
    }
  }
}
