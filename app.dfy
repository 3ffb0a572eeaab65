/** The application's collection (the global `bookmarks` array) and the
    operations the page triggers on it. Storage, dialogs and the page are
    outside: what they contribute arrives as arguments (the stored records,
    the user's answers, the clock reading and the generated id). */
module App {
  import opened Wrappers
  import opened Text
  import opened Records
  import opened Query
  import opened Mutations
  import opened Transfer

  class BookmarkApp {
    var bookmarks: seq<Bookmark>

    constructor ()
      ensures bookmarks == []
    {
      bookmarks := [];
    }

    /** `loadBookmarks`: nothing is stored, or the stored array replaces the
        collection after migration. */
    method LoadBookmarks(stored: Option<seq<StoredBookmark>>)
      modifies this
      ensures bookmarks == if stored.Some? then Migrate(stored.value) else old(bookmarks)
    {
      if stored.Some? {
        bookmarks := Migrate(stored.value);
      }
    }

    /** `addBookmark`: refused, leaving the collection as it was, when the
        trimmed title or url or the category is empty; otherwise exactly one
        new record is appended. */
    method AddBookmark(title: string, url: string, category: string, description: string,
                       id: string, now: int) returns (added: bool)
      modifies this
      ensures added == AddAccepted(title, url, category)
      ensures !added ==> bookmarks == old(bookmarks)
      ensures added ==> bookmarks == old(bookmarks) + [NewBookmark(id, title, url, category, description, now)]
      ensures added ==> var b := bookmarks[|bookmarks| - 1];
        |bookmarks| == |old(bookmarks)| + 1 && bookmarks[..|old(bookmarks)|] == old(bookmarks) &&
        b.id == id && b.title == Trim(title) && b.url == Trim(url) && b.category == category &&
        b.description == Trim(description) && !b.isFavorite && b.createdAt == b.updatedAt == now
    {
      var t := Trim(title);
      var u := Trim(url);
      var d := Trim(description);
      if t == [] || u == [] || category == [] {
        return false;
      }
      var newBookmark := Bookmark(id, t, u, category, d, now, now, false);
      bookmarks := bookmarks + [newBookmark];
      added := true;
    }

    /** `displayBookmarks`: the filtered records, sorted by the chosen
        method. The collection is not changed. */
    method DisplayBookmarks(searchInput: string, selectedCategory: string, favoriteMode: string,
                            sortMethod: string) returns (shown: seq<Bookmark>)
      ensures shown == SortSpec(FilterBookmarks(bookmarks, searchInput, selectedCategory, favoriteMode), sortMethod)
    {
      var filtered := FilterBookmarks(bookmarks, searchInput, selectedCategory, favoriteMode);
      shown := SortBookmarks(filtered, sortMethod);
    }

    /** `deleteBookmark`: once confirmed, every record with the id goes. */
    method DeleteBookmark(id: string, confirmed: bool)
      modifies this
      ensures bookmarks == if confirmed then RemoveId(old(bookmarks), id) else old(bookmarks)
    {
      if confirmed {
        bookmarks := RemoveId(bookmarks, id);
      }
    }

    /** `toggleFavorite`: the record `find` returns has its flag flipped in
        place. */
    method ToggleFavorite(id: string)
      modifies this
      ensures bookmarks == ToggleFirst(old(bookmarks), id)
    {
      UpdateFirstAt(bookmarks, id, Flip);
      var found := FindIndex(bookmarks, id);
      if found.Some? {
        var k := found.value;
        bookmarks := bookmarks[k := bookmarks[k].(isFavorite := !bookmarks[k].isFavorite)];
      }
    }

    /** `editBookmark`: the four prompts' answers, `None` for a cancelled
        prompt. A cancelled prompt or an unknown id changes nothing;
        otherwise the record `find` returns is rewritten in place. */
    method EditBookmark(id: string, newTitle: Option<string>, newUrl: Option<string>,
                        newCategory: Option<string>, newDescription: Option<string>, now: int)
      modifies this
      ensures bookmarks ==
        if newTitle.Some? && newUrl.Some? && newCategory.Some? && newDescription.Some?
        then EditFirst(old(bookmarks), id, newTitle.value, newUrl.value, newCategory.value,
                       newDescription.value, now)
        else old(bookmarks)
    {
      var found := FindIndex(bookmarks, id);
      if found.None? {
        // no prompt is shown for an unknown id
        if newTitle.Some? && newUrl.Some? && newCategory.Some? && newDescription.Some? {
          UpdateFirstAt(bookmarks, id,
                        Edited(newTitle.value, newUrl.value, newCategory.value, newDescription.value, now));
        }
        return;
      }
      if newTitle.None? || newUrl.None? || newCategory.None? || newDescription.None? {
        return;
      }
      UpdateFirstAt(bookmarks, id,
                    Edited(newTitle.value, newUrl.value, newCategory.value, newDescription.value, now));
      var k := found.value;
      var b := bookmarks[k];
      b := b.(title := KeepIfBlank(newTitle.value, b.title));
      b := b.(url := KeepIfBlank(newUrl.value, b.url));
      b := b.(category := KeepIfBlank(newCategory.value, b.category));
      b := b.(description := Trim(newDescription.value));
      b := b.(updatedAt := now);
      bookmarks := bookmarks[k := b];
    }

    /** `importBookmarks`, once the file has been read and parsed. The user
        is asked to confirm only when the collection is not empty. */
    method ImportBookmarks(input: ImportInput, confirmed: bool) returns (outcome: ImportOutcome)
      modifies this
      ensures outcome == ImportOutcomeOf(old(bookmarks), input, confirmed)
      ensures bookmarks == if outcome.Imported? then Merge(old(bookmarks), input.items) else old(bookmarks)
    {
      match input
      case ReadFailed => return ReadError;
      case ParseFailed => return ParseError;
      case NotAnArray => return FormatError;
      case Items(importedData) =>
        if !AllHaveRequiredFields(importedData) {
          return MissingFields;
        }
        var shouldProceed := true;
        if |bookmarks| > 0 {
          shouldProceed := confirmed;
        }
        if !shouldProceed {
          return Cancelled;
        }
        var existingIds := ExistingIds(bookmarks);
        var newBookmarks := Seqs.Filter(importedData, IdNotIn(existingIds));
        var migratedBookmarks := Migrate(newBookmarks);
        bookmarks := bookmarks + migratedBookmarks;
        outcome := Imported(|newBookmarks|, |importedData| - |newBookmarks|);
    }
  }
}
