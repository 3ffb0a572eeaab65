/** The bookmark record, the form in which records are stored and loaded
    (where `isFavorite` may be absent), the load-time migration, and the
    `find` lookup by id used by toggle and edit. */
module Records {
  import opened Wrappers

  /** A bookmark as the application holds it in memory after migration.
      Timestamps are milliseconds since the epoch. */
  datatype Bookmark = Bookmark(
    id: string,
    title: string,
    url: string,
    category: string,
    description: string,
    createdAt: int,
    updatedAt: int,
    isFavorite: bool)

  /** A bookmark as it comes out of storage or an imported file: records
      written before favourites existed have no `isFavorite` field. */
  datatype StoredBookmark = StoredBookmark(
    id: string,
    title: string,
    url: string,
    category: string,
    description: string,
    createdAt: int,
    updatedAt: int,
    isFavorite: Option<bool>)

  /** The fields the form insists on are present. */
  predicate Complete(b: Bookmark) {
    b.title != [] && b.url != [] && b.category != []
  }

  predicate AllComplete(bs: seq<Bookmark>) {
    forall i :: 0 <= i < |bs| ==> Complete(bs[i])
  }

  /** `b` and `r` agree on every field except the favourite flag. */
  predicate SameExceptFavorite(b: Bookmark, r: StoredBookmark) {
    b.id == r.id && b.title == r.title && b.url == r.url && b.category == r.category &&
    b.description == r.description && b.createdAt == r.createdAt && b.updatedAt == r.updatedAt
  }

  /** A stored record with its favourite flag filled in: a missing flag
      reads as false (app.js:27-30). */
  function MigrateRecord(r: StoredBookmark): Bookmark {
    Bookmark(r.id, r.title, r.url, r.category, r.description, r.createdAt, r.updatedAt,
             r.isFavorite.GetOr(false))
  }

  /** The load migration: same length and order, every field kept, an absent
      favourite flag becomes `false` and a present one is kept. */
  function Migrate(rs: seq<StoredBookmark>): (bs: seq<Bookmark>)
    ensures |bs| == |rs|
    ensures forall i :: 0 <= i < |rs| ==> SameExceptFavorite(bs[i], rs[i])
    ensures forall i :: 0 <= i < |rs| && rs[i].isFavorite.None? ==> !bs[i].isFavorite
    ensures forall i :: 0 <= i < |rs| && rs[i].isFavorite.Some? ==> bs[i].isFavorite == rs[i].isFavorite.value
  {
    seq(|rs|, i requires 0 <= i < |rs| => MigrateRecord(rs[i]))
  }

  /** Migration acts element by element, so it distributes over appending. */
  lemma MigrateConcat(a: seq<StoredBookmark>, b: seq<StoredBookmark>)
    ensures Migrate(a + b) == Migrate(a) + Migrate(b)
  {
  }

  /** A record as `JSON.stringify` writes it: the flag is always present. */
  function Stored(b: Bookmark): StoredBookmark {
    StoredBookmark(b.id, b.title, b.url, b.category, b.description, b.createdAt, b.updatedAt,
                   Some(b.isFavorite))
  }

  function Export(bs: seq<Bookmark>): (rs: seq<StoredBookmark>)
    ensures |rs| == |bs|
    ensures forall i :: 0 <= i < |bs| ==> SameExceptFavorite(bs[i], rs[i]) && rs[i].isFavorite == Some(bs[i].isFavorite)
  {
    seq(|bs|, i requires 0 <= i < |bs| => Stored(bs[i]))
  }

  /** Saving and then loading gives back exactly the saved collection. */
  lemma MigrateExport(bs: seq<Bookmark>)
    ensures Migrate(Export(bs)) == bs
  {
    var m := Migrate(Export(bs));
    assert forall i :: 0 <= i < |bs| ==> m[i] == bs[i];
  }

  /** The lookup toggle and edit do before changing a record (app.js:171,
      181): the index of the first record with the given id, if any. */
  function FindIndex(bs: seq<Bookmark>, id: string): (r: Option<nat>)
    ensures r.None? <==> forall i :: 0 <= i < |bs| ==> bs[i].id != id
    ensures r.Some? ==> r.value < |bs| && bs[r.value].id == id &&
                        forall i :: 0 <= i < r.value ==> bs[i].id != id
    decreases |bs|
  {
    if bs == [] then None
    else if bs[0].id == id then Some(0)
    else match FindIndex(bs[1..], id)
      case None => None
      case Some(k) => Some(k + 1)
  }

  /** The first match is determined by the ids alone. */
  lemma FindIndexSameIds(bs: seq<Bookmark>, cs: seq<Bookmark>, id: string)
    requires |bs| == |cs|
    requires forall i :: 0 <= i < |bs| ==> bs[i].id == cs[i].id
    ensures FindIndex(bs, id) == FindIndex(cs, id)
  {
  }
}
