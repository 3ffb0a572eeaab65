/** Export and the import merge: an imported file is checked for shape and
    required fields, its records whose ids already exist are dropped, the
    rest are migrated and appended, and the counts are reported. */
module Transfer {
  import opened Wrappers
  import opened Seqs
  import opened Records

  /** What reading and parsing the chosen file produced. */
  datatype ImportInput =
    | ReadFailed               // the file reader reported an error
    | ParseFailed              // the text is not valid JSON
    | NotAnArray               // valid JSON, but not an array
    | Items(items: seq<StoredBookmark>)

  /** What the user is told. */
  datatype ImportOutcome =
    | ReadError
    | ParseError
    | FormatError
    | MissingFields
    | Cancelled
    | Imported(imported: nat, duplicates: nat)

  /** The import's required-field check (app.js:302-304): id, title, url
      and category must all be truthy, and a string is truthy when it is
      not empty. */
  predicate HasRequiredFields(r: StoredBookmark) {
    r.id != [] && r.title != [] && r.url != [] && r.category != []
  }

  predicate AllHaveRequiredFields(items: seq<StoredBookmark>) {
    forall i :: 0 <= i < |items| ==> HasRequiredFields(items[i])
  }

  /** The set of ids the collection holds before the merge (app.js:328). */
  function ExistingIds(bs: seq<Bookmark>): (ids: set<string>)
    ensures forall i :: 0 <= i < |bs| ==> bs[i].id in ids
    ensures forall id :: id in ids ==> exists i :: 0 <= i < |bs| && bs[i].id == id
  {
    set i | 0 <= i < |bs| :: bs[i].id
  }

  function IdNotIn(ids: set<string>): StoredBookmark -> bool {
    (r: StoredBookmark) => r.id !in ids
  }

  /** The incoming records whose ids are not already in the collection. */
  function NewItems(existing: seq<Bookmark>, incoming: seq<StoredBookmark>): seq<StoredBookmark> {
    Filter(incoming, IdNotIn(ExistingIds(existing)))
  }

  /** The collection after a successful import. */
  function Merge(existing: seq<Bookmark>, incoming: seq<StoredBookmark>): seq<Bookmark> {
    existing + Migrate(NewItems(existing, incoming))
  }

  /** The import's verdict: each failure in the order the code checks it, a
      refused confirmation (asked only when the collection is not empty),
      or the two counts, which always add up to the number of incoming
      records. */
  function ImportOutcomeOf(existing: seq<Bookmark>, input: ImportInput, confirmed: bool): (r: ImportOutcome)
    ensures input.ReadFailed? ==> r == ReadError
    ensures input.ParseFailed? ==> r == ParseError
    ensures input.NotAnArray? ==> r == FormatError
    ensures input.Items? && !AllHaveRequiredFields(input.items) ==> r == MissingFields
    ensures r == Cancelled <==>
      input.Items? && AllHaveRequiredFields(input.items) && existing != [] && !confirmed
    ensures r.Imported? <==>
      input.Items? && AllHaveRequiredFields(input.items) && (existing == [] || confirmed)
    ensures r.Imported? ==>
      r.imported == |NewItems(existing, input.items)| &&
      r.imported + r.duplicates == |input.items|
  {
    match input
    case ReadFailed => ReadError
    case ParseFailed => ParseError
    case NotAnArray => FormatError
    case Items(items) =>
      if !AllHaveRequiredFields(items) then MissingFields
      else if |existing| > 0 && !confirmed then Cancelled
      else
        var kept := NewItems(existing, items);
        Imported(|kept|, |items| - |kept|)
  }

  /** The merge keeps the old collection as a prefix and appends, migrated
      and in input order, exactly the incoming records whose ids are new:
      every occurrence of such a record and none of any other. */
  lemma MergeSpec(existing: seq<Bookmark>, incoming: seq<StoredBookmark>)
    ensures var m := Merge(existing, incoming);
      var kept := NewItems(existing, incoming);
      |m| == |existing| + |kept| &&
      m[..|existing|] == existing &&
      m[|existing|..] == Migrate(kept) &&
      IsSubsequence(kept, incoming) &&
      (forall r :: multiset(kept)[r] ==
         if r.id in ExistingIds(existing) then 0 else multiset(incoming)[r]) &&
      (forall i :: |existing| <= i < |m| ==> m[i].id !in ExistingIds(existing))
  {
    var kept := NewItems(existing, incoming);
    var p := IdNotIn(ExistingIds(existing));
    FilterIsSubsequence(incoming, p);
    FilterCount(incoming, p);
    var m := Merge(existing, incoming);
    forall i | |existing| <= i < |m| ensures m[i].id !in ExistingIds(existing) {
      assert m[i].id == kept[i - |existing|].id;
      assert kept[i - |existing|] in kept;
    }
  }

  function IdIs(id: string): Bookmark -> bool {
    (b: Bookmark) => b.id == id
  }

  /** The records of `bs` with the given id. */
  function WithId(bs: seq<Bookmark>, id: string): seq<Bookmark> {
    Filter(bs, IdIs(id))
  }

  /** Import never adds a record under an id that already exists, so it
      duplicates no existing id (records within the imported batch may
      still share ids with one another). */
  lemma MergeKeepsExistingIds(existing: seq<Bookmark>, incoming: seq<StoredBookmark>, id: string)
    requires id in ExistingIds(existing)
    ensures WithId(Merge(existing, incoming), id) == WithId(existing, id)
  {
    var appended := Migrate(NewItems(existing, incoming));
    MergeSpec(existing, incoming);
    FilterConcat(existing, appended, IdIs(id));
    forall i | 0 <= i < |appended| ensures !IdIs(id)(appended[i]) {
      assert Merge(existing, incoming)[|existing| + i] == appended[i];
    }
    FilterKeepsNone(appended, IdIs(id));
  }

  /** An id held by at most one record before the import is held by at
      most one record after it. */
  lemma MergeUniqueExistingIds(existing: seq<Bookmark>, incoming: seq<StoredBookmark>, id: string)
    requires id in ExistingIds(existing) && |WithId(existing, id)| <= 1
    ensures |WithId(Merge(existing, incoming), id)| <= 1
  {
    MergeKeepsExistingIds(existing, incoming, id);
  }

  /** Deduplication is only against the existing collection: two records
      of one file that share a new id are both appended. */
  lemma BatchDuplicatesKept(r: StoredBookmark)
    requires HasRequiredFields(r)
    ensures |WithId(Merge([], [r, r]), r.id)| == 2
  {
    var m := Merge([], [r, r]);
    FilterKeepsAll([r, r], IdNotIn(ExistingIds([])));
    assert m == [MigrateRecord(r), MigrateRecord(r)];
    FilterKeepsAll(m, IdIs(r.id));
  }

  /** Importing a file whose records all have their required fields keeps
      every record's required fields present. */
  lemma MergeKeepsComplete(existing: seq<Bookmark>, incoming: seq<StoredBookmark>)
    requires AllComplete(existing) && AllHaveRequiredFields(incoming)
    ensures AllComplete(Merge(existing, incoming))
  {
    var kept := NewItems(existing, incoming);
    var m := Merge(existing, incoming);
    forall i | |existing| <= i < |m| ensures Complete(m[i]) {
      assert kept[i - |existing|] in kept;
    }
  }

  /** Exporting a collection and importing the file into an empty
      collection gives back the same collection, in the same order, with
      nothing counted as a duplicate. */
  lemma ExportImportRoundTrip(bs: seq<Bookmark>, confirmed: bool)
    requires forall i :: 0 <= i < |bs| ==> Complete(bs[i]) && bs[i].id != []
    ensures ImportOutcomeOf([], Items(Export(bs)), confirmed) == Imported(|bs|, 0)
    ensures Merge([], Export(bs)) == bs
  {
    FilterKeepsAll(Export(bs), IdNotIn(ExistingIds([])));
    MigrateExport(bs);
  }

  /** Importing ids "1" and "2" into a collection holding "1" imports one
      record and counts one duplicate. */
  lemma ImportCountsExample(b: Bookmark, r1: StoredBookmark, r2: StoredBookmark)
    requires b.id == "1" && r1.id == "1" && r2.id == "2"
    requires HasRequiredFields(r1) && HasRequiredFields(r2)
    ensures ImportOutcomeOf([b], Items([r1, r2]), true) == Imported(1, 1)
    ensures Merge([b], [r1, r2]) == [b, MigrateRecord(r2)]
  {
    var ids := ExistingIds([b]);
    var p := IdNotIn(ids);
    assert [b][0] == b;
    assert "1" in ids;
    assert "2" !in ids;
    assert !p(r1) && p(r2);
    assert [r1, r2][1..] == [r2] && [r2][1..] == [];
    assert Filter([r2], p) == [r2];
    assert NewItems([b], [r1, r2]) == [r2];
  }
}
