/** The stored record shape: one document per chapter (surah) holding its verses (ayahs), with
    the fields of `backend/src/models/Surah.js`. */
module SurahModel {

  /** One verse: its index within the chapter, the Arabic text, the Urdu translation (empty
      when none is available) and the bismillah line (empty when absent). */
  datatype Ayah = Ayah(index: int, arabicText: string, urduTranslation: string, bismillah: string)

  /** One chapter, keyed by `index`. */
  datatype Surah = Surah(index: int, name: string, englishName: string, totalAyahs: int, ayahs: seq<Ayah>)

  /** The shape both importers establish at write time: the verse count is the number of verses. */
  predicate CountsAyahs(s: Surah) {
    s.totalAyahs == |s.ayahs|
  }
}
