/** The read side: `getSurah` finds one chapter by index or by name and returns its header with
    one verse or all verses, `getAllSurahs` lists every chapter in index order, and
    `formatAyah` shapes a verse for the response. Both handlers only read the store, so they
    are functions of the stored records. */
module QuranController {
  import opened Wrappers
  import opened Search
  import opened JsNumber
  import opened SurahModel
  import opened Store
  import opened XmlText

  /** A verse as sent to the client: optional fields are absent rather than empty. */
  datatype AyahView = AyahView(index: int, arabicText: string, bismillah: Option<string>, urduTranslation: Option<string>)

  /** The `data` object of a successful `getSurah` response. */
  datatype SurahView = SurahView(index: int, name: string, englishName: string, totalAyahs: int, ayahs: seq<AyahView>)

  /** What `getSurah` sends: the chapter, a 404 naming the identifier, or a 404 naming the
      requested verse number (`None` stands for `NaN`) and the chapter's name. */
  datatype Response =
    | Found(data: SurahView)
    | SurahNotFound(identifier: string)
    | AyahNotFound(ayahIndex: Option<int>, surahName: string)

  /** `formatAyah(ayah, includeTranslation)`: `index` and `arabicText` always; `bismillah` only
      when non-empty; `urduTranslation` only when asked for and non-empty. */
  function FormatAyah(a: Ayah, includeTranslation: bool): (v: AyahView)
    ensures v.index == a.index && v.arabicText == a.arabicText
    ensures v.bismillah.Some? <==> a.bismillah != ""
    ensures v.bismillah.Some? ==> v.bismillah.value == a.bismillah
    ensures v.urduTranslation.Some? <==> includeTranslation && a.urduTranslation != ""
    ensures v.urduTranslation.Some? ==> v.urduTranslation.value == a.urduTranslation
  {
    AyahView(
      a.index, a.arabicText,
      if a.bismillah != "" then Some(a.bismillah) else None,
      if includeTranslation && a.urduTranslation != "" then Some(a.urduTranslation) else None)
  }

  /** Reads a formatted verse back as a stored verse, an absent field as the empty string. */
  function Unformat(v: AyahView): Ayah {
    Ayah(v.index, v.arabicText, v.urduTranslation.GetOr(""), v.bismillah.GetOr(""))
  }

  /** With the translation included, formatting loses nothing; without it, only the
      translation is dropped. */
  lemma FormatAyahRoundTrip(a: Ayah)
    ensures Unformat(FormatAyah(a, true)) == a
    ensures Unformat(FormatAyah(a, false)) == a.(urduTranslation := "")
  {
  }

  /** `includeTranslation === 'true'`: the query parameter is exactly the string `true`. The
      comparison is strict, so an absent parameter (defaulted to the boolean `false`) and other
      spellings such as `True` or `1` leave the translation out. */
  predicate TranslationRequested(includeTranslation: Option<string>)
    ensures includeTranslation.None? || includeTranslation == Some("True") || includeTranslation == Some("1") ==>
      !TranslationRequested(includeTranslation)
  {
    includeTranslation == Some("true")
  }

  /** `if (ayahIndex)`: the query parameter is present and not the empty string. Query values
      are strings, so every number, `0` included, asks for a verse. */
  predicate AyahRequested(ayahIndex: Option<string>)
    ensures AyahRequested(ayahIndex) ==> ayahIndex.Some?
    ensures ayahIndex.Some? && IsNumeric(ayahIndex.value) ==> AyahRequested(ayahIndex)
  {
    ayahIndex.Some? && ayahIndex.value != ""
  }

  /** The `findOne` query: a numeric identifier looks up the index it denotes, anything else
      a chapter whose `name` or `englishName` equals it. */
  function Lookup(records: Records, identifier: string): (r: Option<Surah>)
    requires Keyed(records)
    ensures r.Some? ==> r.value.index in records && records[r.value.index] == r.value
    ensures IsNumeric(identifier) ==> ParseInt(identifier).Some?
    ensures IsNumeric(identifier) ==>
      (r.Some? <==> ParseInt(identifier).value in records)
    ensures IsNumeric(identifier) && r.Some? ==> r.value.index == ParseInt(identifier).value
    ensures !IsNumeric(identifier) && r.Some? ==> NameMatches(r.value, identifier)
    ensures !IsNumeric(identifier) ==>
      (r.None? <==> forall k :: k in records ==> !NameMatches(records[k], identifier))
  {
    if IsNumeric(identifier) then
      NumericParsesWhole(identifier);
      var index := ParseInt(identifier).value;
      if index in records then Some(records[index]) else None
    else FindByName(records, identifier)
  }

  /** A numeric identifier never reaches a chapter through its name: a chapter whose name is
      that string but whose index differs is not what the lookup returns. */
  lemma NumericIgnoresNames(records: Records, identifier: string, k: int)
    requires Keyed(records)
    requires IsNumeric(identifier)
    requires k in records && NameMatches(records[k], identifier)
    requires ParseInt(identifier) != Some(k)
    ensures Lookup(records, identifier) != Some(records[k])
  {
  }

  /** Whether verse `a` is the one `ayahIndex` asks for: `ayah.index === parseInt(ayahIndex)`,
      which no verse satisfies when the number is `NaN`. */
  predicate IsRequestedAyah(a: Ayah, ayahIndex: string)
    ensures IsRequestedAyah(a, ayahIndex) ==> ParseInt(ayahIndex).Some?
    ensures ayahIndex == IntToString(a.index) ==> IsRequestedAyah(a, ayahIndex)
  {
    IntToStringRoundTrip(a.index);
    ParseInt(ayahIndex) == Some(a.index)
  }

  /** The verses of the response: the requested one alone, or every verse in stored order;
      `None` when a requested verse is missing. */
  function SelectAyahs(s: Surah, includeTranslation: bool, ayahIndex: Option<string>): (r: Option<seq<AyahView>>)
    ensures !AyahRequested(ayahIndex) ==> r.Some? && |r.value| == |s.ayahs|
    ensures !AyahRequested(ayahIndex) ==>
      forall i :: 0 <= i < |s.ayahs| ==> r.value[i] == FormatAyah(s.ayahs[i], includeTranslation)
    ensures AyahRequested(ayahIndex) ==>
      (r.None? <==> forall j :: 0 <= j < |s.ayahs| ==> !IsRequestedAyah(s.ayahs[j], ayahIndex.value))
    ensures AyahRequested(ayahIndex) && r.Some? ==>
      |r.value| == 1 &&
      exists a :: a in s.ayahs && IsRequestedAyah(a, ayahIndex.value) && r.value[0] == FormatAyah(a, includeTranslation)
  {
    if AyahRequested(ayahIndex) then
      match Find(s.ayahs, (a: Ayah) => IsRequestedAyah(a, ayahIndex.value))
      case Some(a) => Some([FormatAyah(a, includeTranslation)])
      case None => None
    else Some(FormatAll(s.ayahs, includeTranslation))
  }

  /** `ayahs.map(ayah => formatAyah(ayah, includeTranslation))`. */
  function FormatAll(ayahs: seq<Ayah>, includeTranslation: bool): (r: seq<AyahView>)
    ensures |r| == |ayahs|
    ensures forall i :: 0 <= i < |ayahs| ==> r[i] == FormatAyah(ayahs[i], includeTranslation)
  {
    if ayahs == [] then []
    else [FormatAyah(ayahs[0], includeTranslation)] + FormatAll(ayahs[1..], includeTranslation)
  }

  /** When several verses carry the requested number, the first of them is returned. */
  lemma FirstRequestedAyahWins(s: Surah, includeTranslation: bool, ayahIndex: Option<string>, j: nat)
    requires AyahRequested(ayahIndex)
    requires j < |s.ayahs| && IsRequestedAyah(s.ayahs[j], ayahIndex.value)
    requires forall i :: 0 <= i < j ==> !IsRequestedAyah(s.ayahs[i], ayahIndex.value)
    ensures SelectAyahs(s, includeTranslation, ayahIndex) == Some([FormatAyah(s.ayahs[j], includeTranslation)])
  {
    FindFirstWins(s.ayahs, (a: Ayah) => IsRequestedAyah(a, ayahIndex.value), j);
  }

  /** `?ayahIndex=0x…` is read in base 16, as `parseInt` does: the first verse whose index is
      the hexadecimal value is served. */
  lemma HexAyahIndex(s: Surah, includeTranslation: bool, digits: string, j: nat)
    requires |digits| > 0 && AllHexDigits(digits)
    requires j < |s.ayahs| && s.ayahs[j].index == HexValue(digits)
    requires forall i :: 0 <= i < j ==> s.ayahs[i].index != HexValue(digits)
    ensures SelectAyahs(s, includeTranslation, Some("0x" + digits)) == Some([FormatAyah(s.ayahs[j], includeTranslation)])
  {
    var request := "0x" + digits;
    assert request[2..] == digits;
    HexLiteral(request);
    FirstRequestedAyahWins(s, includeTranslation, Some(request), j);
  }

  /** White space before `ayahIndex` selects the same verses as the value without it. */
  lemma SpacedAyahIndex(s: Surah, includeTranslation: bool, c: char, ayahIndex: string)
    requires IsJsSpace(c) && ayahIndex != ""
    ensures SelectAyahs(s, includeTranslation, Some([c] + ayahIndex)) == SelectAyahs(s, includeTranslation, Some(ayahIndex))
  {
    ParseIntSkipsSpace(c, ayahIndex);
    var spaced := [c] + ayahIndex;
    assert forall a :: IsRequestedAyah(a, spaced) <==> IsRequestedAyah(a, ayahIndex);
    match FirstMatch(s.ayahs, (a: Ayah) => IsRequestedAyah(a, ayahIndex))
    case Some(k) =>
      FirstRequestedAyahWins(s, includeTranslation, Some(spaced), k);
      FirstRequestedAyahWins(s, includeTranslation, Some(ayahIndex), k);
    case None =>
  }

  /** `getSurah` with route parameter `identifier` and the optional query parameters. */
  function GetSurah(records: Records, identifier: string, includeTranslation: Option<string>, ayahIndex: Option<string>): (r: Response)
    requires Keyed(records)
    ensures r.SurahNotFound? <==> Lookup(records, identifier).None?
    ensures r.SurahNotFound? ==> r.identifier == identifier
    ensures Lookup(records, identifier).Some? ==>
      (r.Found? <==> SelectAyahs(Lookup(records, identifier).value, TranslationRequested(includeTranslation), ayahIndex).Some?)
    ensures r.AyahNotFound? ==>
      AyahRequested(ayahIndex) && r.ayahIndex == ParseInt(ayahIndex.value)
      && r.surahName == Lookup(records, identifier).value.name
    ensures r.Found? ==>
      var s := Lookup(records, identifier).value;
      r.data.index == s.index && r.data.name == s.name && r.data.englishName == s.englishName
      && r.data.totalAyahs == s.totalAyahs
      && SelectAyahs(s, TranslationRequested(includeTranslation), ayahIndex) == Some(r.data.ayahs)
  {
    match Lookup(records, identifier)
    case None => SurahNotFound(identifier)
    case Some(s) =>
      match SelectAyahs(s, TranslationRequested(includeTranslation), ayahIndex)
      case None => AyahNotFound(ParseInt(ayahIndex.value), s.name)
      case Some(ayahs) => Found(SurahView(s.index, s.name, s.englishName, s.totalAyahs, ayahs))
  }

  /** A chapter named "2" at index 1 is not found by the identifier "2" when no chapter has
      index 2. */
  lemma NumericIdentifierExample(records: Records)
    requires records == map[1 := Surah(1, "2", "2", 0, [])]
    ensures GetSurah(records, "2", None, None) == SurahNotFound("2")
  {
    IntToStringRoundTrip(2);
    assert IntToString(2) == "2";
  }

  /** One chapter in `getAllSurahs`'s listing: the four projected fields. */
  datatype SurahSummary = SurahSummary(index: int, name: string, englishName: string, totalAyahs: int)

  /** `getAllSurahs`'s response body. */
  datatype Listing = Listing(data: seq<SurahSummary>, total: nat)

  function Summary(s: Surah): SurahSummary {
    SurahSummary(s.index, s.name, s.englishName, s.totalAyahs)
  }

  /** The projection `{ index, name, englishName, totalAyahs }` of each record, in place. */
  function Summaries(order: seq<Surah>): (r: seq<SurahSummary>)
    ensures |r| == |order|
    ensures forall i :: 0 <= i < |r| ==> r[i] == Summary(order[i])
  {
    if order == [] then [] else [Summary(order[0])] + Summaries(order[1..])
  }

  /** `getAllSurahs`: the summaries of the records in index order, with `total` the count. */
  function GetAllSurahs(records: Records): (r: Listing)
    requires Keyed(records)
    ensures r.total == |r.data| == |records|
    ensures forall i :: 0 <= i < |r.data| ==> r.data[i] == Summary(InIndexOrder(records)[i])
  {
    var data := Summaries(InIndexOrder(records));
    Listing(data, |data|)
  }

  /** The listing is sorted strictly ascending by index. */
  lemma GetAllSurahsSorted(records: Records)
    requires Keyed(records)
    ensures var data := GetAllSurahs(records).data;
      forall i, j :: 0 <= i < j < |data| ==> data[i].index < data[j].index
  {
    var order := InIndexOrder(records);
    var data := GetAllSurahs(records).data;
    forall i, j | 0 <= i < j < |data| ensures data[i].index < data[j].index {
      assert data[i].index == order[i].index && data[j].index == order[j].index;
    }
  }

  /** Each summary is that of the stored record under its index. */
  lemma GetAllSurahsFromRecords(records: Records)
    requires Keyed(records)
    ensures var data := GetAllSurahs(records).data;
      forall i :: 0 <= i < |data| ==> data[i].index in records && data[i] == Summary(records[data[i].index])
  {
    var order := InIndexOrder(records);
    var data := GetAllSurahs(records).data;
    forall i | 0 <= i < |data| ensures data[i].index in records && data[i] == Summary(records[data[i].index]) {
      assert data[i] == Summary(order[i]);
    }
  }

  /** Every stored chapter has a summary in the listing. */
  lemma GetAllSurahsComplete(records: Records)
    requires Keyed(records)
    ensures var data := GetAllSurahs(records).data;
      forall k :: k in records ==> exists i :: 0 <= i < |data| && data[i].index == k
  {
    var order := InIndexOrder(records);
    var data := GetAllSurahs(records).data;
    forall k | k in records ensures exists i :: 0 <= i < |data| && data[i].index == k {
      var i :| 0 <= i < |order| && order[i].index == k;
      assert data[i] == Summary(order[i]);
    }
  }
}
