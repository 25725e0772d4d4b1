/** The document store behind the `Surah` model: one record per chapter index (the schema
    declares `index` unique), written by upsert and read by index, by name or in index order. */
module Store {
  import opened Wrappers
  import opened Search
  import opened SurahModel

  /** The stored records, one per chapter index. */
  type Records = map<int, Surah>

  /** Every record is stored under its own `index`: the schema's unique index on `index`. */
  predicate Keyed(records: Records) {
    forall k :: k in records ==> records[k].index == k
  }

  lemma NonEmpty(s: set<int>)
    requires s != {}
    ensures exists x :: x in s
  {
    if forall x :: x !in s {
      assert false;
    }
  }

  /** A finite non-empty set of indexes has a least element. */
  lemma {:induction false} MinExists(s: set<int>)
    requires s != {}
    ensures exists m :: m in s && forall k :: k in s ==> m <= k
    decreases |s|
  {
    NonEmpty(s);
    var x :| x in s;
    if s != {x} {
      var rest := s - {x};
      MinExists(rest);
      var m :| m in rest && forall k :: k in rest ==> m <= k;
      var least := if x < m then x else m;
      assert forall k :: k in s ==> k == x || k in rest;
      assert least in s && forall k :: k in s ==> least <= k;
    } else {
      assert forall k :: k in s ==> x <= k;
    }
  }

  /** The least element of a non-empty set of indexes. */
  function Least(keys: set<int>): (m: int)
    requires keys != {}
    ensures m in keys && forall k :: k in keys ==> m <= k
  {
    MinExists(keys);
    var m :| m in keys && forall k :: k in keys ==> m <= k;
    m
  }

  /** The indexes in ascending order, each once. */
  function SortedIndexes(keys: set<int>): (r: seq<int>)
    ensures |r| == |keys|
    ensures forall i :: 0 <= i < |r| ==> r[i] in keys
    ensures forall i, j :: 0 <= i < j < |r| ==> r[i] < r[j]
    decreases |keys|
  {
    if keys == {} then []
    else
      var m := Least(keys);
      [m] + SortedIndexes(keys - {m})
  }

  /** No index is left out of the ascending order. */
  lemma {:induction false} SortedIndexesComplete(keys: set<int>)
    ensures forall k :: k in keys ==> k in SortedIndexes(keys)
    decreases |keys|
  {
    if keys != {} {
      var m := Least(keys);
      SortedIndexesComplete(keys - {m});
      assert SortedIndexes(keys) == [m] + SortedIndexes(keys - {m});
    }
  }

  /** The records stored under `keys`, in the order of `keys`. */
  function RecordsAt(records: Records, keys: seq<int>): (r: seq<Surah>)
    requires Keyed(records)
    requires forall i :: 0 <= i < |keys| ==> keys[i] in records
    ensures |r| == |keys|
    ensures forall i :: 0 <= i < |r| ==> r[i] == records[keys[i]] && r[i].index == keys[i]
  {
    if keys == [] then [] else [records[keys[0]]] + RecordsAt(records, keys[1..])
  }

  /** `find({}).sort({ index: 1 })`: every record once, in ascending index order. */
  function InIndexOrder(records: Records): (r: seq<Surah>)
    requires Keyed(records)
    ensures |r| == |records|
    ensures forall i :: 0 <= i < |r| ==> r[i].index in records && records[r[i].index] == r[i]
    ensures forall k :: k in records ==> exists i :: 0 <= i < |r| && r[i].index == k
    ensures forall i, j :: 0 <= i < j < |r| ==> r[i].index < r[j].index
  {
    var keys := SortedIndexes(records.Keys);
    SortedIndexesComplete(records.Keys);
    var r := RecordsAt(records, keys);
    assert |records.Keys| == |records|;
    forall k | k in records
      ensures exists i :: 0 <= i < |r| && r[i].index == k
    {
      var i :| 0 <= i < |keys| && keys[i] == k;
      assert r[i].index == k;
    }
    r
  }

  /** The `$or` filter of a name lookup: the Arabic name or the English name equals `name`. */
  predicate NameMatches(s: Surah, name: string) {
    s.name == name || s.englishName == name
  }

  /** `findOne({ $or: [{ name }, { englishName: name }] })`, taking the matching record with the
      lowest index when several match. */
  function FindByName(records: Records, name: string): (r: Option<Surah>)
    requires Keyed(records)
    ensures r.Some? ==> r.value.index in records && records[r.value.index] == r.value
    ensures r.Some? ==> NameMatches(r.value, name)
    ensures r.Some? ==> forall k :: k in records && NameMatches(records[k], name) ==> r.value.index <= k
    ensures r.None? <==> forall k :: k in records ==> !NameMatches(records[k], name)
  {
    var order := InIndexOrder(records);
    var found := FirstMatch(order, (s: Surah) => NameMatches(s, name));
    if found.None? then
      NoMatchInOrder(records, name);
      None
    else
      FirstMatchIsLeast(records, name, found.value);
      Some(order[found.value])
  }

  /** A name absent from the ordered records is absent from the store. */
  lemma NoMatchInOrder(records: Records, name: string)
    requires Keyed(records)
    requires forall i :: 0 <= i < |InIndexOrder(records)| ==> !NameMatches(InIndexOrder(records)[i], name)
    ensures forall k :: k in records ==> !NameMatches(records[k], name)
  {
    var order := InIndexOrder(records);
    forall k | k in records ensures !NameMatches(records[k], name) {
      var i :| 0 <= i < |order| && order[i].index == k;
      assert order[i] == records[k];
    }
  }

  /** In a list ascending by index, the first record matching `name` has the least index
      among the matching records of the list. */
  lemma FirstInOrderIsLeast(order: seq<Surah>, name: string, j: nat)
    requires forall i, i' :: 0 <= i < i' < |order| ==> order[i].index < order[i'].index
    requires j < |order|
    requires forall i :: 0 <= i < j ==> !NameMatches(order[i], name)
    ensures forall i :: 0 <= i < |order| && NameMatches(order[i], name) ==> order[j].index <= order[i].index
  {
  }

  /** The first match in index order has the least index among all matches. */
  lemma FirstMatchIsLeast(records: Records, name: string, j: nat)
    requires Keyed(records)
    requires j < |InIndexOrder(records)|
    requires forall i :: 0 <= i < j ==> !NameMatches(InIndexOrder(records)[i], name)
    ensures forall k :: k in records && NameMatches(records[k], name) ==> InIndexOrder(records)[j].index <= k
  {
    var order := InIndexOrder(records);
    FirstInOrderIsLeast(order, name, j);
    LowerBoundOverRecords(records, order, name, order[j].index);
  }

  /** A lower bound on the indexes of the matching records of a list that holds every stored
      record bounds the indexes of all matching stored records. */
  lemma LowerBoundOverRecords(records: Records, order: seq<Surah>, name: string, least: int)
    requires forall i :: 0 <= i < |order| ==> order[i].index in records && records[order[i].index] == order[i]
    requires forall k :: k in records ==> exists i :: 0 <= i < |order| && order[i].index == k
    requires forall i :: 0 <= i < |order| && NameMatches(order[i], name) ==> least <= order[i].index
    ensures forall k :: k in records && NameMatches(records[k], name) ==> least <= k
  {
    forall k | k in records && NameMatches(records[k], name) ensures least <= k {
      var i :| 0 <= i < |order| && order[i].index == k;
      assert NameMatches(order[i], name);
    }
  }

  /** The collection behind the `Surah` model. */
  class SurahStore {
    var records: Records

    ghost predicate Valid()
      reads this
    {
      Keyed(records)
    }

    /** An empty collection. */
    constructor ()
      ensures Valid() && records == map[]
    {
      records := map[];
    }

    /** `findOneAndUpdate({ index }, s, { upsert: true })`: the record for `s.index` becomes `s`,
        whether or not one existed; every other record is unchanged. */
    method Upsert(s: Surah)
      requires Valid()
      modifies this
      ensures Valid()
      ensures records == old(records)[s.index := s]
      ensures s.index in records && records[s.index] == s
      ensures forall k :: k != s.index ==> (k in records <==> k in old(records))
      ensures forall k :: k in old(records) && k != s.index ==> records[k] == old(records)[k]
    {
      records := records[s.index := s];
    }

    /** `deleteMany({})`. */
    method DeleteAll()
      modifies this
      ensures Valid() && records == map[]
    {
      records := map[];
    }
  }
}
