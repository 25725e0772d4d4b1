/** How the import side and the read side fit together: what `importFromXml` writes is what
    `getSurah` and `getAllSurahs` then serve. */
module Scenarios {
  import opened Wrappers
  import opened JsNumber
  import opened SurahModel
  import opened Corpus
  import opened Store
  import opened GenericImporter
  import opened QuranController

  /** A batch keeps every record stored under its own index. */
  lemma ImportKeepsKeyed(records: Records, targets: seq<int>, arabic: Quran, urdu: Option<Quran>)
    requires Keyed(records)
    ensures Keyed(ImportEach(records, targets, arabic, urdu))
  {
    var after := ImportEach(records, targets, arabic, urdu);
    forall k | k in after ensures after[k].index == k {
      ImportContents(records, targets, arabic, urdu, k);
    }
  }

  /** A successful run leaves a store whose records sit under their own indexes. */
  lemma RunKeepsKeyed(records: Records, arabic: XmlFile, urdu: Option<XmlFile>, requested: seq<int>, clearExisting: bool)
    requires Keyed(records)
    requires ImportFromXmlRun(records, arabic, urdu, requested, clearExisting).result.Ok?
    ensures Keyed(ImportFromXmlRun(records, arabic, urdu, requested, clearExisting).records)
  {
    OkRunIsParsed(records, arabic, urdu, requested, clearExisting);
    var cleared: Records := if clearExisting then map[] else records;
    var ar := arabic.parsed.value;
    var ur := if urdu.Some? then urdu.value.parsed else None;
    var targets := if |requested| == 0 then AllIndexes(ar) else requested;
    ImportKeepsKeyed(cleared, targets, ar, ur);
  }

  /** After a run in which chapter `k` was a target that built, asking for `k` by number
      returns that chapter: its index, its mapped English name, its Arabic name, all its verses
      (as many as `totalAyahs` says) with the Arabic text of the corpus, in corpus order. */
  lemma ImportedChapterIsServed(records: Records, arabic: XmlFile, urdu: Option<XmlFile>, requested: seq<int>, clearExisting: bool, k: int, includeTranslation: Option<string>)
    requires Keyed(records)
    requires ImportFromXmlRun(records, arabic, urdu, requested, clearExisting).result.Ok?
    requires var ar := arabic.parsed.value;
      var ur := if urdu.Some? then urdu.value.parsed else None;
      k in (if |requested| == 0 then AllIndexes(ar) else requested) && BuildSurah(k, ar, ur).Ok?
    ensures Keyed(ImportFromXmlRun(records, arabic, urdu, requested, clearExisting).records)
    ensures var response := GetSurah(ImportFromXmlRun(records, arabic, urdu, requested, clearExisting).records,
                                     IntToString(k), includeTranslation, None);
      var sura := FindSura(arabic.parsed.value.suras, k);
      response.Found? && sura.Some?
      && response.data.index == k
      && response.data.englishName == GenericImporter.EnglishName(k)
      && response.data.name == Attr(sura.value.name)
      && response.data.totalAyahs == |response.data.ayahs| == |sura.value.ayas|
      && forall i :: 0 <= i < |response.data.ayahs| ==>
           response.data.ayahs[i].index == sura.value.ayas[i].index
           && response.data.ayahs[i].arabicText == Attr(sura.value.ayas[i].text)
  {
    var ar := arabic.parsed.value;
    var ur := if urdu.Some? then urdu.value.parsed else None;
    var after := ImportFromXmlRun(records, arabic, urdu, requested, clearExisting).records;
    RunKeepsKeyed(records, arabic, urdu, requested, clearExisting);
    RunContents(records, arabic, urdu, requested, clearExisting, k);
    BuildSurahSpec(k, ar, ur);
    IntToStringRoundTrip(k);
    var s := BuildSurah(k, ar, ur).value;
    assert Lookup(after, IntToString(k)) == Some(s);
  }

  /** After such a run, the listing holds a summary of chapter `k` with its verse count. */
  lemma ImportedChapterIsListed(records: Records, arabic: XmlFile, urdu: Option<XmlFile>, requested: seq<int>, clearExisting: bool, k: int)
    requires Keyed(records)
    requires ImportFromXmlRun(records, arabic, urdu, requested, clearExisting).result.Ok?
    requires var ar := arabic.parsed.value;
      var ur := if urdu.Some? then urdu.value.parsed else None;
      k in (if |requested| == 0 then AllIndexes(ar) else requested) && BuildSurah(k, ar, ur).Ok?
    ensures Keyed(ImportFromXmlRun(records, arabic, urdu, requested, clearExisting).records)
    ensures var listing := GetAllSurahs(ImportFromXmlRun(records, arabic, urdu, requested, clearExisting).records);
      exists i :: 0 <= i < |listing.data| && listing.data[i].index == k
        && listing.data[i].totalAyahs == |FindSura(arabic.parsed.value.suras, k).value.ayas|
  {
    var ar := arabic.parsed.value;
    var ur := if urdu.Some? then urdu.value.parsed else None;
    var after := ImportFromXmlRun(records, arabic, urdu, requested, clearExisting).records;
    RunKeepsKeyed(records, arabic, urdu, requested, clearExisting);
    RunContents(records, arabic, urdu, requested, clearExisting, k);
    BuildSurahSpec(k, ar, ur);
    GetAllSurahsComplete(after);
    GetAllSurahsFromRecords(after);
    var listing := GetAllSurahs(after);
    var i :| 0 <= i < |listing.data| && listing.data[i].index == k;
    assert listing.data[i] == Summary(after[k]);
  }
}
