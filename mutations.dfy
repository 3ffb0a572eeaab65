/** The rules by which delete, toggle-favourite, edit and add change the
    collection, as functions of the old collection and the user's input. */
module Mutations {
  import opened Wrappers
  import opened Seqs
  import opened Text
  import opened Records

  // ---------------------------------------------------------------------
  // Delete: keep the records whose id differs (app.js:162)

  function IdIsNot(id: string): Bookmark -> bool {
    (b: Bookmark) => b.id != id
  }

  function RemoveId(bs: seq<Bookmark>, id: string): seq<Bookmark> {
    Filter(bs, IdIsNot(id))
  }

  /** Delete removes every record with the id and keeps every other record,
      all of its occurrences, in the original order. */
  lemma RemoveIdSpec(bs: seq<Bookmark>, id: string)
    ensures var r := RemoveId(bs, id);
      IsSubsequence(r, bs) &&
      (forall i :: 0 <= i < |r| ==> r[i].id != id) &&
      (forall b :: multiset(r)[b] == if b.id == id then 0 else multiset(bs)[b])
  {
    FilterIsSubsequence(bs, IdIsNot(id));
    FilterCount(bs, IdIsNot(id));
    var r := RemoveId(bs, id);
    forall i | 0 <= i < |r| ensures r[i].id != id {
      assert r[i] in r;
    }
  }

  /** Deleting an id that is not there changes nothing. */
  lemma RemoveAbsentId(bs: seq<Bookmark>, id: string)
    requires forall i :: 0 <= i < |bs| ==> bs[i].id != id
    ensures RemoveId(bs, id) == bs
  {
    FilterKeepsAll(bs, IdIsNot(id));
  }

  lemma RemoveIdKeepsComplete(bs: seq<Bookmark>, id: string)
    requires AllComplete(bs)
    ensures AllComplete(RemoveId(bs, id))
  {
    var r := RemoveId(bs, id);
    forall i | 0 <= i < |r| ensures Complete(r[i]) {
      assert r[i] in r;
    }
  }

  // ---------------------------------------------------------------------
  // Toggle and edit both change, in place, the record `find` returns

  /** `bs` with `update` applied to the first record whose id is `id`. */
  function UpdateFirst(bs: seq<Bookmark>, id: string, update: Bookmark -> Bookmark): (r: seq<Bookmark>)
    ensures |r| == |bs|
    decreases |bs|
  {
    if bs == [] then []
    else if bs[0].id == id then [update(bs[0])] + bs[1..]
    else [bs[0]] + UpdateFirst(bs[1..], id, update)
  }

  /** Only the record `find` returns is updated; an absent id changes
      nothing. */
  lemma {:induction false} UpdateFirstAt(bs: seq<Bookmark>, id: string, update: Bookmark -> Bookmark)
    ensures UpdateFirst(bs, id, update) ==
      match FindIndex(bs, id)
      case None => bs
      case Some(k) => bs[k := update(bs[k])]
    decreases |bs|
  {
    if bs == [] {
    } else if bs[0].id == id {
      assert [update(bs[0])] + bs[1..] == bs[0 := update(bs[0])];
    } else {
      var tail := bs[1..];
      UpdateFirstAt(tail, id, update);
      assert UpdateFirst(bs, id, update) == [bs[0]] + UpdateFirst(tail, id, update);
      match FindIndex(tail, id)
      case None =>
        assert [bs[0]] + tail == bs;
      case Some(k) =>
        assert FindIndex(bs, id) == Some(k + 1);
        assert [bs[0]] + tail[k := update(tail[k])] == bs[k + 1 := update(bs[k + 1])];
    }
  }

  // Toggle favourite: the first record with the id has its flag flipped

  function Flip(b: Bookmark): (r: Bookmark)
    ensures r.isFavorite == !b.isFavorite
    ensures r.(isFavorite := b.isFavorite) == b
  {
    b.(isFavorite := !b.isFavorite)
  }

  function ToggleFirst(bs: seq<Bookmark>, id: string): seq<Bookmark> {
    UpdateFirst(bs, id, Flip)
  }

  /** Toggling flips the flag of the record `find` returns and leaves every
      other record, and every other field, as it was; an absent id changes
      nothing. */
  lemma ToggleFirstSpec(bs: seq<Bookmark>, id: string)
    ensures var r := ToggleFirst(bs, id);
      |r| == |bs| &&
      match FindIndex(bs, id)
      case None => r == bs
      case Some(k) =>
        r[k].isFavorite == !bs[k].isFavorite && r[k].(isFavorite := bs[k].isFavorite) == bs[k] &&
        forall i :: 0 <= i < |bs| && i != k ==> r[i] == bs[i]
  {
    UpdateFirstAt(bs, id, Flip);
  }

  /** Toggling twice restores the collection. */
  lemma ToggleTwice(bs: seq<Bookmark>, id: string)
    ensures ToggleFirst(ToggleFirst(bs, id), id) == bs
  {
    var once := ToggleFirst(bs, id);
    UpdateFirstAt(bs, id, Flip);
    FindIndexSameIds(bs, once, id);
    UpdateFirstAt(once, id, Flip);
  }

  lemma ToggleKeepsComplete(bs: seq<Bookmark>, id: string)
    requires AllComplete(bs)
    ensures AllComplete(ToggleFirst(bs, id))
  {
    UpdateFirstAt(bs, id, Flip);
  }

  // ---------------------------------------------------------------------
  // Edit: the field-update rule applied to the record `find` returns

  /** The trimmed answer, or the current value when the trimmed answer is
      empty (app.js:197-199). */
  function KeepIfBlank(input: string, current: string): string {
    var t := Trim(input);
    if t == [] then current else t
  }

  /** `editBookmark` applied to one record, given the four answers. */
  function EditRecord(b: Bookmark, newTitle: string, newUrl: string, newCategory: string,
                      newDescription: string, now: int): (r: Bookmark)
    ensures r.id == b.id && r.createdAt == b.createdAt && r.isFavorite == b.isFavorite
    ensures r.updatedAt == now
    ensures r.description == Trim(newDescription)
  {
    b.(title := KeepIfBlank(newTitle, b.title),
       url := KeepIfBlank(newUrl, b.url),
       category := KeepIfBlank(newCategory, b.category),
       description := Trim(newDescription),
       updatedAt := now)
  }

  /** A field takes the trimmed answer when the answer holds any
      non-whitespace character and keeps its value when the answer is
      blank; the description takes its trimmed answer even when blank. */
  lemma EditFieldRule(b: Bookmark, newTitle: string, newUrl: string, newCategory: string,
                      newDescription: string, now: int)
    ensures var r := EditRecord(b, newTitle, newUrl, newCategory, newDescription, now);
      ((forall k :: 0 <= k < |newTitle| ==> IsWhitespace(newTitle[k])) ==> r.title == b.title) &&
      ((exists k :: 0 <= k < |newTitle| && !IsWhitespace(newTitle[k])) ==> r.title == Trim(newTitle) != []) &&
      ((forall k :: 0 <= k < |newUrl| ==> IsWhitespace(newUrl[k])) ==> r.url == b.url) &&
      ((exists k :: 0 <= k < |newUrl| && !IsWhitespace(newUrl[k])) ==> r.url == Trim(newUrl) != []) &&
      ((forall k :: 0 <= k < |newCategory| ==> IsWhitespace(newCategory[k])) ==> r.category == b.category) &&
      ((exists k :: 0 <= k < |newCategory| && !IsWhitespace(newCategory[k])) ==> r.category == Trim(newCategory) != []) &&
      ((forall k :: 0 <= k < |newDescription| ==> IsWhitespace(newDescription[k])) ==> r.description == [])
  {
    TrimEmptyIff(newTitle);
    TrimEmptyIff(newUrl);
    TrimEmptyIff(newCategory);
    TrimEmptyIff(newDescription);
  }

  /** Accepting every prompt with its pre-filled value leaves an already
      trimmed record as it was, apart from the refreshed `updatedAt`. */
  lemma EditWithCurrentValues(b: Bookmark, now: int)
    requires Trim(b.title) == b.title && Trim(b.url) == b.url
    requires Trim(b.category) == b.category && Trim(b.description) == b.description
    ensures EditRecord(b, b.title, b.url, b.category, b.description, now) == b.(updatedAt := now)
  {
  }

  /** A blank answer never empties a required field. */
  lemma EditKeepsComplete(b: Bookmark, newTitle: string, newUrl: string, newCategory: string,
                          newDescription: string, now: int)
    requires Complete(b)
    ensures Complete(EditRecord(b, newTitle, newUrl, newCategory, newDescription, now))
  {
  }

  function Edited(newTitle: string, newUrl: string, newCategory: string, newDescription: string,
                  now: int): Bookmark -> Bookmark {
    b => EditRecord(b, newTitle, newUrl, newCategory, newDescription, now)
  }

  function EditFirst(bs: seq<Bookmark>, id: string, newTitle: string, newUrl: string,
                     newCategory: string, newDescription: string, now: int): seq<Bookmark> {
    UpdateFirst(bs, id, Edited(newTitle, newUrl, newCategory, newDescription, now))
  }

  /** Editing rewrites only the record `find` returns, keeping every id and
      creation time in the collection; an absent id changes nothing. */
  lemma EditFirstSpec(bs: seq<Bookmark>, id: string, newTitle: string, newUrl: string,
                      newCategory: string, newDescription: string, now: int)
    ensures var r := EditFirst(bs, id, newTitle, newUrl, newCategory, newDescription, now);
      |r| == |bs| &&
      (forall i :: 0 <= i < |bs| ==> r[i].id == bs[i].id && r[i].createdAt == bs[i].createdAt) &&
      match FindIndex(bs, id)
      case None => r == bs
      case Some(k) =>
        r[k] == EditRecord(bs[k], newTitle, newUrl, newCategory, newDescription, now) &&
        forall i :: 0 <= i < |bs| && i != k ==> r[i] == bs[i]
  {
    UpdateFirstAt(bs, id, Edited(newTitle, newUrl, newCategory, newDescription, now));
  }

  lemma EditKeepsAllComplete(bs: seq<Bookmark>, id: string, newTitle: string, newUrl: string,
                             newCategory: string, newDescription: string, now: int)
    requires AllComplete(bs)
    ensures AllComplete(EditFirst(bs, id, newTitle, newUrl, newCategory, newDescription, now))
  {
    EditFirstSpec(bs, id, newTitle, newUrl, newCategory, newDescription, now);
    match FindIndex(bs, id)
    case None =>
    case Some(k) => EditKeepsComplete(bs[k], newTitle, newUrl, newCategory, newDescription, now);
  }

  // ---------------------------------------------------------------------
  // Add: validation and the new record

  /** The form check: title and url are trimmed, the category (a selector
      value) is not. */
  predicate AddAccepted(title: string, url: string, category: string) {
    Trim(title) != [] && Trim(url) != [] && category != []
  }

  /** An add is refused exactly when the title or the url is all whitespace
      or no category is chosen. */
  lemma AddRejectedIff(title: string, url: string, category: string)
    ensures !AddAccepted(title, url, category) <==>
      (forall k :: 0 <= k < |title| ==> IsWhitespace(title[k])) ||
      (forall k :: 0 <= k < |url| ==> IsWhitespace(url[k])) ||
      category == []
  {
    TrimEmptyIff(title);
    TrimEmptyIff(url);
  }

  /** A blank title is refused whatever the other fields hold. */
  lemma AddRejectsBlankTitle(url: string, category: string)
    ensures !AddAccepted("", url, category) && !AddAccepted(" \t", url, category)
  {
    assert Trim(" \t") == [];
  }

  /** The record `addBookmark` builds from the form. */
  function NewBookmark(id: string, title: string, url: string, category: string,
                       description: string, now: int): Bookmark
  {
    Bookmark(id, Trim(title), Trim(url), category, Trim(description), now, now, false)
  }

  /** A new record has the given id, trimmed text fields, the category as
      chosen, no favourite flag and one timestamp; once the form check has
      passed its required fields are present. */
  lemma NewBookmarkSpec(id: string, title: string, url: string, category: string,
                        description: string, now: int)
    ensures var b := NewBookmark(id, title, url, category, description, now);
      b.id == id && b.category == category &&
      Trim(b.title) == b.title && Trim(b.url) == b.url && Trim(b.description) == b.description &&
      !b.isFavorite && b.createdAt == b.updatedAt == now &&
      (AddAccepted(title, url, category) ==> Complete(b))
  {
    TrimIdempotent(title);
    TrimIdempotent(url);
    TrimIdempotent(description);
  }

  lemma AddKeepsComplete(bs: seq<Bookmark>, id: string, title: string, url: string, category: string,
                         description: string, now: int)
    requires AllComplete(bs) && AddAccepted(title, url, category)
    ensures AllComplete(bs + [NewBookmark(id, title, url, category, description, now)])
  {
  }
}
