/** Items as a parsed import file holds them. The import's required-field
    check (app.js:302-304) looks at id, title, url and category only, so an
    accepted item may lack `description`; the item is then appended and
    saved (app.js:337-338). The list view's search lower-cases the
    description of every record whose title and url do not contain the term
    (app.js:97-99), which throws when the description is absent. The
    record types of the rest of the model always hold a description:
    `ToStored` is the reading under which an absent one is empty. */
module RawImport {
  import opened Wrappers
  import opened Text
  import opened Records
  import opened Query
  import opened Transfer

  /** An imported item with an optional description. */
  datatype RawItem = RawItem(
    id: string,
    title: string,
    url: string,
    category: string,
    description: Option<string>,
    createdAt: int,
    updatedAt: int,
    isFavorite: Option<bool>)

  /** The required-field check applied to a raw item. */
  predicate PassesCheck(r: RawItem) {
    r.id != [] && r.title != [] && r.url != [] && r.category != []
  }

  /** The search test on the record appended for `r`, evaluated as the code
      does, left to right with short-circuiting; `None` when the evaluation
      throws. `term` is the lower-cased search input. */
  function SearchAsWritten(r: RawItem, term: string): (res: Option<bool>)
    ensures res.None? <==>
      r.description.None? && !Includes(ToLower(r.title), term) && !Includes(ToLower(r.url), term)
    ensures res.Some? && r.description.Some? ==>
      res.value == (Includes(ToLower(r.title), term) || Includes(ToLower(r.url), term) ||
                    Includes(ToLower(r.description.value), term))
  {
    if Includes(ToLower(r.title), term) || Includes(ToLower(r.url), term) then Some(true)
    else if r.description.None? then None
    else Some(Includes(ToLower(r.description.value), term))
  }

  /** An item without a description passes the check, and the search then
      throws for a term that is in neither its title nor its url, while an
      empty term is still evaluated. */
  lemma AcceptedItemBreaksSearch()
    ensures var r := RawItem("1", "Go", "https://go.dev", "dev", None, 0, 0, None);
      PassesCheck(r) && SearchAsWritten(r, "wiki").None? && SearchAsWritten(r, "") == Some(true)
  {
    var r := RawItem("1", "Go", "https://go.dev", "dev", None, 0, 0, None);
    assert ToLower(r.title) == "go";
    assert ToLower(r.url) == r.url;
    IncludesFirstChar(ToLower(r.title), "wiki");
    IncludesFirstChar(ToLower(r.url), "wiki");
    IncludesEmpty(ToLower(r.title));
  }

  /** The corrected reading of an item: an absent description is empty, the
      way `addBookmark` stores a blank one; every other field as given. */
  function ToStored(r: RawItem): (s: StoredBookmark)
    ensures r.description.Some? ==> s.description == r.description.value
    ensures r.description.None? ==> s.description == []
    ensures s.id == r.id && s.title == r.title && s.url == r.url && s.category == r.category
    ensures s.createdAt == r.createdAt && s.updatedAt == r.updatedAt && s.isFavorite == r.isFavorite
  {
    StoredBookmark(r.id, r.title, r.url, r.category, r.description.GetOr([]),
                   r.createdAt, r.updatedAt, r.isFavorite)
  }

  /** The items of a parsed file under the corrected reading: the list an
      `ImportInput.Items` carries. The check accepts it exactly when it
      accepts every raw item. */
  function ParsedItems(raw: seq<RawItem>): (items: seq<StoredBookmark>)
    ensures |items| == |raw|
    ensures forall i :: 0 <= i < |raw| ==> items[i] == ToStored(raw[i])
    ensures AllHaveRequiredFields(items) <==> forall i :: 0 <= i < |raw| ==> PassesCheck(raw[i])
  {
    seq(|raw|, i requires 0 <= i < |raw| => ToStored(raw[i]))
  }

  /** Under the corrected reading the check accepts the same items, the
      search is defined for every record and term, it agrees with the code
      wherever the code does not throw, and a missing description matches
      only the empty term. */
  lemma CorrectedSearchIsTotal(r: RawItem, term: string)
    ensures HasRequiredFields(ToStored(r)) == PassesCheck(r)
    ensures SearchAsWritten(r, term).Some? ==>
      MatchesSearch(MigrateRecord(ToStored(r)), term) == SearchAsWritten(r, term).value
    ensures r.description.None? ==>
      (MatchesSearch(MigrateRecord(ToStored(r)), term) <==>
       Includes(ToLower(r.title), term) || Includes(ToLower(r.url), term) || term == [])
  {
    assert ToLower([]) == [];
  }
}
