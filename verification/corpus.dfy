/** The parsed XML corpora and the verse-by-verse alignment of an Arabic chapter with its Urdu
    translation, shared by both importers.

    A corpus is the tree the XML parser returns for `<quran><sura index name><aya index text
    bismillah/>...</sura>...</quran>`, with the one-or-many ambiguity of the parser already
    resolved into sequences. An EMPTY sequence stands for the element being absent: the source
    then wraps `undefined` into a one-element array and fails with a TypeError as soon as it
    reads an attribute of it. */
module Corpus {
  import opened Wrappers
  import opened Search
  import opened SurahModel

  /** An `<aya>` element: the `index` attribute and the optional `text` and `bismillah`. */
  datatype Aya = Aya(index: int, text: Option<string>, bismillah: Option<string>)

  /** A `<sura>` element: the `index` attribute, the optional `name` and its `<aya>` children. */
  datatype Sura = Sura(index: int, name: Option<string>, ayas: seq<Aya>)

  /** A parsed `<quran>` document. */
  datatype Quran = Quran(suras: seq<Sura>)

  /** A source file as the importer sees it: whether it exists, and what reading and parsing it
      yields (`None` when either throws). */
  datatype XmlFile = XmlFile(present: bool, parsed: Option<Quran>)

  datatype Language = Arabic | Urdu

  /** Why a chapter, or a whole import, fails. */
  datatype ImportError =
    | FileNotFound(lang: Language)              // the existence check failed
    | ParseFailed(lang: Language)               // reading or parsing the file threw
    | MissingElement                            // an attribute was read from an absent element
    | SurahNotFound(lang: Language, index: int) // the corpus holds no chapter with that index

  /** An optional attribute with the `value || ''` default. */
  function Attr(o: Option<string>): (r: string)
    ensures o.Some? ==> r == o.value
    ensures o.None? ==> r == ""
  {
    o.GetOr("")
  }

  /** `suras.find(s => parseInt(s.$.index) === index)`. */
  function FindSura(suras: seq<Sura>, index: int): Option<Sura> {
    Find(suras, (s: Sura) => s.index == index)
  }

  /** `ayas.find(a => parseInt(a.$.index) === index)`. */
  function FindAya(ayas: seq<Aya>, index: int): Option<Aya> {
    Find(ayas, (a: Aya) => a.index == index)
  }

  /** The translation of the verse with this index: the `text` of the first Urdu verse carrying
      it, or the empty string when there is none. */
  function Translation(urdu: seq<Aya>, index: int): (t: string)
    ensures (forall j :: 0 <= j < |urdu| ==> urdu[j].index != index) ==> t == ""
  {
    match FindAya(urdu, index)
    case Some(u) => Attr(u.text)
    case None => ""
  }

  /** The stored verse built from one Arabic verse. */
  function AyahRecord(a: Aya, urdu: seq<Aya>): Ayah {
    Ayah(a.index, Attr(a.text), Translation(urdu, a.index), Attr(a.bismillah))
  }

  /** The verses of a chapter: one per Arabic verse, in Arabic order, with the Arabic indexes;
      the Urdu verses contribute only translations. */
  function AlignAyahs(arabic: seq<Aya>, urdu: seq<Aya>): (r: seq<Ayah>)
    ensures |r| == |arabic|
    ensures forall k :: 0 <= k < |r| ==> r[k].index == arabic[k].index
    ensures forall k :: 0 <= k < |r| ==> r[k].arabicText == Attr(arabic[k].text)
    ensures forall k :: 0 <= k < |r| ==> r[k].bismillah == Attr(arabic[k].bismillah)
    ensures forall k :: 0 <= k < |r| ==> r[k].urduTranslation == Translation(urdu, arabic[k].index)
  {
    seq(|arabic|, k requires 0 <= k < |arabic| => AyahRecord(arabic[k], urdu))
  }

  /** With no Urdu verses at all, every translation is empty. */
  lemma AlignWithoutUrdu(arabic: seq<Aya>)
    ensures forall k :: 0 <= k < |arabic| ==> AlignAyahs(arabic, [])[k].urduTranslation == ""
  {
  }

  /** An Arabic verse whose index no Urdu verse carries gets an empty translation, and its
      neighbours are unaffected. */
  lemma MissingTranslationIsLocal(arabic: seq<Aya>, urdu: seq<Aya>, k: nat)
    requires k < |arabic|
    requires forall j :: 0 <= j < |urdu| ==> urdu[j].index != arabic[k].index
    ensures AlignAyahs(arabic, urdu)[k].urduTranslation == ""
    ensures forall i :: 0 <= i < |arabic| && i != k ==>
      AlignAyahs(arabic, urdu)[i] == AlignAyahs(arabic[..k] + arabic[k + 1..], urdu)[if i < k then i else i - 1]
  {
  }

  /** When several Urdu verses carry the same index, the first one supplies the translation. */
  lemma FirstTranslationWins(urdu: seq<Aya>, index: int, j: nat)
    requires j < |urdu| && urdu[j].index == index
    requires forall i :: 0 <= i < j ==> urdu[i].index != index
    ensures Translation(urdu, index) == Attr(urdu[j].text)
  {
    FindFirstWins(urdu, (a: Aya) => a.index == index, j);
  }
}
