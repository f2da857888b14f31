/**
  The editor session (`App`, foleskine_notes.py:98-455, 596-617) without its
  widgets: the library directory, the open notebook and the current page
  index, and the actions that change them. Dialog answers, the text-widget
  content, the clock and the success of OS calls are parameters.
 */
module Session {
  import opened Wrappers
  import opened Documents
  import opened Slug
  import opened Store
  import opened Notebooks
  import Editor

  /** How an action ended; each non-`Done` case is an early `return` or an error box in the source. */
  datatype Outcome = Done | NoNotebook | Cancelled | Conflict | IOFailure | Unreadable

  /** Only the file at `path` may have been rewritten; no file appeared or vanished. */
  predicate OnlyRewrote(before: map<string, FileContent>, after: map<string, FileContent>, path: string) {
    && after.Keys == before.Keys
    && forall p | p in before && p != path :: after[p] == before[p]
  }

  /** Navigation keeps the title and creation time and at most re-stamps `updated_at`. */
  predicate SameMetadata(before: Doc, after: Doc, now: string) {
    && after.title == before.title
    && after.createdAt == before.createdAt
    && (after.updatedAt == before.updatedAt || after.updatedAt == Some(now))
  }

  class App {
    const lib: Library
    var nb: Notebook?
    var index: nat

    /** The open notebook keeps the constructor's invariant. */
    ghost predicate Open()
      reads this, nb
    {
      nb != null ==> nb.Valid()
    }

    /** What is on disk for the open notebook reloads as what is in memory. */
    ghost predicate Synced()
      reads this, lib, nb
    {
      nb != null ==>
        && nb.path in lib.files
        && lib.files[nb.path].Json?
        && Normalize(lib.files[nb.path].doc) == nb.data
    }

    ghost predicate Valid()
      reads this, lib, nb
    {
      && Open()
      && Synced()
      && (nb != null ==> index < |nb.Pages()|)
      && (nb == null ==> index == 0)
    }

    /** The open notebook's pages and the current index. */
    function View(): Editor.Cursor
      reads this, nb
      requires nb != null && nb.Valid()
    {
      Editor.Cursor(nb.Pages(), index)
    }

    /**
      The open notebook was saved: its document is the one before with the
      new pages and `updated_at` set to `now`, and its file, and no other,
      now holds that document.
     */
    ghost predicate Stamped(before: Doc, filesBefore: map<string, FileContent>, now: string)
      reads this, lib, nb
      requires nb != null && nb.Valid()
    {
      && nb.data == before.(pages := Some(nb.Pages()), updatedAt := Some(now))
      && lib.files == filesBefore[nb.path := Json(nb.data)]
    }

    /**
      The state `refresh_library` leaves when it finds nothing open: the
      first library entry is open on page 1 if it loads, else nothing is.
     */
    ghost predicate AutoOpened()
      reads this, lib, nb
    {
      var entries := LibraryEntries(lib.files);
      && index == 0
      && if entries != [] && entries[0] in lib.files && lib.files[entries[0]].Json? then
           nb != null && nb.path == entries[0] && nb.data == Normalize(lib.files[entries[0]].doc)
         else
           nb == null
    }

    /** `App.__init__`: nothing open, then a first `refresh_library`. */
    constructor (lib: Library)
      ensures Valid() && this.lib == lib
      ensures AutoOpened()
    {
      this.lib := lib;
      nb := null;
      index := 0;
      new;
      var items, titles := RefreshLibrary();
    }

    /**
      `ensure_page_saved`: pad the page list up to the index, then store the
      editor text in the current slot and save, only when it differs.
     */
    method EnsurePageSaved(content: string, now: string)
      requires Open()
      modifies nb, lib
      ensures Open()
      ensures old(Valid()) ==> Valid()
      ensures nb == null ==> lib.files == old(lib.files)
      ensures nb != null ==> nb.path == old(nb.path) && View() == Editor.Commit(old(View()), content)
      ensures nb != null && old(Editor.Dirty(View(), content)) ==>
        && nb.data == old(nb.data).(pages := Some(nb.Pages()), updatedAt := Some(now))
        && lib.files == old(lib.files)[nb.path := Json(nb.data)]
      ensures nb != null && !old(Editor.Dirty(View(), content)) ==>
        && nb.data == old(nb.data).(pages := Some(nb.Pages()))
        && lib.files == old(lib.files)
    {
      if nb == null {
        return;
      }
      ghost var before := nb.Pages();
      var pages := nb.data.pages.value;
      while index >= |pages|
        invariant |before| <= |pages|
        invariant forall k :: 0 <= k < |before| ==> pages[k] == before[k]
        invariant forall k :: |before| <= k < |pages| ==> pages[k] == ""
        invariant |pages| > |before| ==> |pages| <= index + 1
      {
        pages := pages + [""];
      }
      assert pages == Editor.Padded(before, index);
      nb.data := nb.data.(pages := Some(pages));
      if pages[index] != content {
        pages := pages[index := content];
        nb.data := nb.data.(pages := Some(pages));
        nb.Save(lib, now);
      }
    }

    /** `prev_page`. */
    method PrevPage(content: string, now: string)
      requires Valid()
      modifies this, nb, lib
      ensures Valid() && nb == old(nb)
      ensures nb == null ==> lib.files == old(lib.files) && index == old(index)
      ensures nb != null ==> View() == Editor.PrevPage(old(View()), content)
      ensures nb != null ==> OnlyRewrote(old(lib.files), lib.files, nb.path)
      ensures nb != null ==> nb.path == old(nb.path) && SameMetadata(old(nb.data), nb.data, now)
      ensures nb != null && old(Editor.Dirty(View(), content)) ==> Stamped(old(nb.data), old(lib.files), now)
      ensures nb != null && !old(Editor.Dirty(View(), content)) ==> nb.data == old(nb.data) && lib.files == old(lib.files)
    {
      if nb == null {
        return;
      }
      EnsurePageSaved(content, now);
      if index > 0 {
        index := index - 1;
      }
    }

    /** `add_page`: always appends one empty page, moves onto it and saves. */
    method AddPage(content: string, now: string)
      requires Valid()
      modifies this, nb, lib
      ensures Valid() && nb == old(nb)
      ensures nb == null ==> lib.files == old(lib.files) && index == old(index)
      ensures nb != null ==> View() == Editor.AddPage(old(View()), content)
      ensures nb != null ==> nb.path == old(nb.path) && SameMetadata(old(nb.data), nb.data, now)
      ensures nb != null ==> nb.data == old(nb.data).(pages := Some(nb.Pages()), updatedAt := Some(now))
      ensures nb != null ==> lib.files == old(lib.files)[nb.path := Json(nb.data)]
    {
      if nb == null {
        return;
      }
      EnsurePageSaved(content, now);
      AppendPage(now);
    }

    /** Append one empty page, move onto it and save (the tail of `add_page` and `fullscreen_next_page`). */
    method AppendPage(now: string)
      requires Valid() && nb != null
      modifies this, nb, lib
      ensures Valid() && nb == old(nb) && nb.path == old(nb.path)
      ensures nb.data == old(nb.data).(pages := Some(old(nb.Pages()) + [""]), updatedAt := Some(now))
      ensures index == |old(nb.Pages())|
      ensures lib.files == old(lib.files)[nb.path := Json(nb.data)]
    {
      nb.data := nb.data.(pages := Some(nb.data.pages.value + [""]));
      index := |nb.data.pages.value| - 1;
      nb.Save(lib, now);
    }

    /** `next_page`: forward one page, or `add_page` on the last one. */
    method NextPage(content: string, now: string)
      requires Valid()
      modifies this, nb, lib
      ensures Valid() && nb == old(nb)
      ensures nb == null ==> lib.files == old(lib.files) && index == old(index)
      ensures nb != null ==> View() == Editor.NextPage(old(View()), content)
      ensures nb != null ==> OnlyRewrote(old(lib.files), lib.files, nb.path)
      ensures nb != null ==> nb.path == old(nb.path) && SameMetadata(old(nb.data), nb.data, now)
      ensures nb != null && (old(Editor.Dirty(View(), content)) || old(index) == |old(nb.Pages())| - 1) ==>
        Stamped(old(nb.data), old(lib.files), now)
      ensures nb != null && !old(Editor.Dirty(View(), content)) && old(index) < |old(nb.Pages())| - 1 ==>
        nb.data == old(nb.data) && lib.files == old(lib.files)
    {
      if nb == null {
        return;
      }
      EnsurePageSaved(content, now);
      if index < |nb.data.pages.value| - 1 {
        index := index + 1;
      } else {
        AddPage(content, now);
        return;
      }
    }

    /**
      `goto_page_dialog`; `answer` is what `askinteger` returned, `None` when
      the dialog was cancelled. The dialog only accepts 1..len(pages).
     */
    method GotoPage(content: string, answer: Option<nat>, now: string)
      requires Valid()
      requires nb != null && answer.Some? ==> 1 <= answer.value <= |nb.Pages()|
      modifies this, nb, lib
      ensures Valid() && nb == old(nb)
      ensures nb == null || answer.None? ==> lib.files == old(lib.files) && index == old(index)
      ensures nb != null && answer.None? ==> nb.data == old(nb.data)
      ensures nb != null && answer.Some? ==> View() == Editor.GotoPage(old(View()), content, answer.value)
      ensures nb != null ==> OnlyRewrote(old(lib.files), lib.files, nb.path)
      ensures nb != null ==> nb.path == old(nb.path) && SameMetadata(old(nb.data), nb.data, now)
      ensures nb != null && answer.Some? && old(Editor.Dirty(View(), content)) ==> Stamped(old(nb.data), old(lib.files), now)
      ensures nb != null && !(answer.Some? && old(Editor.Dirty(View(), content))) ==>
        nb.data == old(nb.data) && lib.files == old(lib.files)
    {
      if nb == null {
        return;
      }
      if answer.Some? {
        EnsurePageSaved(content, now);
        index := answer.value - 1;
      }
    }

    /** `fullscreen_prev_page`. */
    method FullscreenPrevPage(content: string, now: string)
      requires Valid()
      modifies this, nb, lib
      ensures Valid() && nb == old(nb)
      ensures nb == null ==> lib.files == old(lib.files) && index == old(index)
      ensures nb != null ==> View() == Editor.FullscreenPrevPage(old(View()), content)
      ensures nb != null ==> OnlyRewrote(old(lib.files), lib.files, nb.path)
      ensures nb != null ==> nb.path == old(nb.path) && SameMetadata(old(nb.data), nb.data, now)
      ensures nb != null && old(index) > 0 && old(Editor.Dirty(View(), content)) ==> Stamped(old(nb.data), old(lib.files), now)
      ensures nb != null && !(old(index) > 0 && old(Editor.Dirty(View(), content))) ==>
        nb.data == old(nb.data) && lib.files == old(lib.files)
    {
      if nb == null || index <= 0 {
        return;
      }
      EnsurePageSaved(content, now);
      index := index - 1;
    }

    /** `fullscreen_next_page`. */
    method FullscreenNextPage(content: string, now: string)
      requires Valid()
      modifies this, nb, lib
      ensures Valid() && nb == old(nb)
      ensures nb == null ==> lib.files == old(lib.files) && index == old(index)
      ensures nb != null ==> View() == Editor.FullscreenNextPage(old(View()), content)
      ensures nb != null ==> OnlyRewrote(old(lib.files), lib.files, nb.path)
      ensures nb != null ==> nb.path == old(nb.path) && SameMetadata(old(nb.data), nb.data, now)
      ensures nb != null && (old(Editor.Dirty(View(), content)) || old(index) == |old(nb.Pages())| - 1) ==>
        Stamped(old(nb.data), old(lib.files), now)
      ensures nb != null && !old(Editor.Dirty(View(), content)) && old(index) < |old(nb.Pages())| - 1 ==>
        nb.data == old(nb.data) && lib.files == old(lib.files)
    {
      if nb == null {
        return;
      }
      EnsurePageSaved(content, now);
      if index < |nb.data.pages.value| - 1 {
        index := index + 1;
      } else {
        AppendPage(now);
      }
    }

    /**
      `create_new` followed by making the new notebook current on page 1;
      `created` and `saved` are its two clock reads.
     */
    method OpenNew(title: string, created: string, saved: string)
      requires Valid()
      modifies this, lib
      ensures Valid()
      ensures fresh(nb) && index == 0
      ensures nb.path == NotebookFileName(title)
      ensures nb.data == Doc(Some(title), Some(created), Some(saved), Some([""]))
      ensures lib.files == old(lib.files)[nb.path := Json(nb.data)]
    {
      nb := Notebook.CreateNew(lib, title, created, saved);
      index := 0;
    }

    /**
      `new_notebook` as written: an empty title (or a cancelled dialog) does
      nothing; otherwise `create_new` writes `<slug>.json` and the new
      notebook is opened on page 1. A file already at that name, another
      notebook with all its pages, is replaced by the empty one.
     */
    method NewNotebook(title: string, created: string, saved: string)
      requires Valid()
      modifies this, lib
      ensures Valid()
      ensures title == "" ==> nb == old(nb) && index == old(index) && lib.files == old(lib.files)
      ensures title != "" ==>
        && fresh(nb) && index == 0
        && nb.path == NotebookFileName(title)
        && nb.data == Doc(Some(title), Some(created), Some(saved), Some([""]))
        && lib.files == old(lib.files)[nb.path := Json(nb.data)]
      ensures title != "" && NotebookFileName(title) in old(lib.files) ==>
        && lib.files.Keys == old(lib.files).Keys
        && lib.files[NotebookFileName(title)] == Json(Doc(Some(title), Some(created), Some(saved), Some([""])))
    {
      if title == "" {
        return;
      }
      OpenNew(title, created, saved);
      var items, titles := RefreshLibrary();
    }

    /** The successful part of `rename_notebook`: move the file (when the name changes), set the title, save. */
    method MoveAndRetitle(newPath: string, title: string, now: string)
      requires Valid() && nb != null
      requires newPath == nb.path || newPath !in lib.files
      modifies nb, lib
      ensures Valid()
      ensures nb.path == newPath
      ensures nb.data == old(nb.data).(title := Some(title), updatedAt := Some(now))
      ensures lib.files == (old(lib.files) - {old(nb.path)})[newPath := Json(nb.data)]
    {
      ghost var before := lib.files;
      ghost var oldPath := nb.path;
      if newPath != nb.path {
        lib.files := (lib.files - {nb.path})[newPath := lib.files[nb.path]];
        nb.path := newPath;
      }
      nb.data := nb.data.(title := Some(title));
      nb.Save(lib, now);
      if newPath == oldPath {
        assert (before - {oldPath})[oldPath := Json(nb.data)] == before[oldPath := Json(nb.data)];
      } else {
        assert (before - {oldPath})[newPath := before[oldPath]][newPath := Json(nb.data)]
            == (before - {oldPath})[newPath := Json(nb.data)];
      }
    }

    /**
      `new_notebook` guarded like `rename_notebook`: a title whose file name
      is taken is refused with `Conflict`, so no existing file is replaced.
     */
    method NewNotebookGuarded(title: string, created: string, saved: string) returns (outcome: Outcome)
      requires Valid()
      modifies this, lib
      ensures Valid()
      ensures outcome == Done <==> title != "" && NotebookFileName(title) !in old(lib.files)
      ensures title == "" ==> outcome == Cancelled
      ensures title != "" && NotebookFileName(title) in old(lib.files) ==> outcome == Conflict
      ensures outcome != Done ==> nb == old(nb) && index == old(index) && lib.files == old(lib.files)
      ensures outcome == Done ==>
        && fresh(nb) && index == 0
        && nb.path == NotebookFileName(title) && nb.Title() == title
        && lib.files == old(lib.files)[nb.path := Json(nb.data)]
        && forall p | p in old(lib.files) :: p in lib.files && lib.files[p] == old(lib.files)[p]
    {
      if title == "" {
        return Cancelled;
      }
      if NotebookFileName(title) in lib.files {
        return Conflict;
      }
      NewNotebook(title, created, saved);
      outcome := Done;
    }

    /**
      `rename_notebook`: the file moves to the new title's slug unless a
      different file already has that name; the title is updated and saved.
      `moveFails` stands for `os.replace` raising.
     */
    method RenameNotebook(title: string, moveFails: bool, now: string) returns (outcome: Outcome)
      requires Valid()
      modifies this, nb, lib
      ensures Valid() && nb == old(nb) && index == old(index)
      ensures nb == null ==> outcome == NoNotebook && lib.files == old(lib.files)
      ensures nb != null && title == "" ==> outcome == Cancelled
      ensures nb != null && title != "" ==>
        var target := NotebookFileName(title);
        && (outcome == Conflict <==> target != old(nb.path) && target in old(lib.files))
        && (outcome == IOFailure <==> target != old(nb.path) && target !in old(lib.files) && moveFails)
        && (outcome == Done <==> target == old(nb.path) || (target !in old(lib.files) && !moveFails))
      ensures nb != null && outcome != Done ==>
        nb.path == old(nb.path) && nb.data == old(nb.data) && lib.files == old(lib.files)
      ensures nb != null && outcome == Done ==>
        && nb.path == NotebookFileName(title)
        && nb.Title() == title
        && nb.data == old(nb.data).(title := Some(title), updatedAt := Some(now))
        && lib.files == (old(lib.files) - {old(nb.path)})[nb.path := Json(nb.data)]
    {
      if nb == null {
        return NoNotebook;
      }
      if title == "" {
        return Cancelled;
      }
      var newPath := NotebookFileName(title);
      if newPath != nb.path {
        if newPath in lib.files {
          return Conflict;
        }
        if moveFails {
          return IOFailure;
        }
      }
      MoveAndRetitle(newPath, title, now);
      var items, titles := RefreshLibrary();
      outcome := Done;
    }

    /**
      The library part of `delete_notebook`: after confirmation the file is
      removed, nothing is open, and `refresh_library` opens the first entry
      left. `removeFails` stands for `os.remove` raising.
     */
    method RemoveCurrent(confirmed: bool, removeFails: bool) returns (outcome: Outcome)
      requires Valid()
      modifies this, lib
      ensures Valid()
      ensures outcome == Done <==> old(nb) != null && confirmed && !removeFails
      ensures old(nb) == null ==> outcome == NoNotebook
      ensures old(nb) != null && !confirmed ==> outcome == Cancelled
      ensures old(nb) != null && confirmed && removeFails ==> outcome == IOFailure
      ensures outcome == Done ==>
        && lib.files == old(lib.files) - {old(nb.path)}
        && AutoOpened() && (nb != null ==> fresh(nb))
      ensures outcome != Done ==> nb == old(nb) && index == old(index) && lib.files == old(lib.files)
    {
      if nb == null {
        return NoNotebook;
      }
      if !confirmed {
        return Cancelled;
      }
      if removeFails {
        return IOFailure;
      }
      lib.files := lib.files - {nb.path};
      nb := null;
      index := 0;
      var items, titles := RefreshLibrary();
      outcome := Done;
    }

    /**
      `delete_notebook` as written: `clear_editor` runs after
      `refresh_library`, so when the refresh opened another notebook the
      editor shows "" instead of that notebook's first page, and the next
      `ensure_page_saved` (an autosave) overwrites that page with "".
      `content` is the editor text before the action; `shown` is the text
      after it.
     */
    method DeleteNotebookAsWritten(content: string, confirmed: bool, removeFails: bool)
      returns (outcome: Outcome, shown: string)
      requires Valid()
      modifies this, lib
      ensures Valid()
      ensures outcome == Done <==> old(nb) != null && confirmed && !removeFails
      ensures old(nb) == null ==> outcome == NoNotebook
      ensures old(nb) != null && !confirmed ==> outcome == Cancelled
      ensures old(nb) != null && confirmed && removeFails ==> outcome == IOFailure
      ensures outcome == Done ==> lib.files == old(lib.files) - {old(nb.path)} && AutoOpened()
      ensures outcome != Done ==> nb == old(nb) && lib.files == old(lib.files) && shown == content
      ensures outcome == Done && nb != null && nb.Pages()[0] != "" ==>
        Editor.Dirty(View(), shown) && Editor.Commit(View(), shown).pages[0] == ""
    {
      outcome := RemoveCurrent(confirmed, removeFails);
      shown := content;
      if outcome == Done {
        shown := "";
        if nb != null && nb.Pages()[0] != "" {
          Editor.BlankEditorErasesPage(View());
        }
      }
    }

    /**
      `delete_notebook` with the editor reloaded after the refresh: it shows
      the page now current, so the next autosave writes nothing.
     */
    method DeleteNotebook(content: string, confirmed: bool, removeFails: bool)
      returns (outcome: Outcome, shown: string)
      requires Valid()
      modifies this, lib
      ensures Valid()
      ensures outcome == Done <==> old(nb) != null && confirmed && !removeFails
      ensures old(nb) == null ==> outcome == NoNotebook
      ensures old(nb) != null && !confirmed ==> outcome == Cancelled
      ensures old(nb) != null && confirmed && removeFails ==> outcome == IOFailure
      ensures outcome == Done ==> lib.files == old(lib.files) - {old(nb.path)} && AutoOpened()
      ensures outcome != Done ==> nb == old(nb) && lib.files == old(lib.files) && shown == content
      ensures outcome == Done && nb == null ==> shown == ""
      ensures outcome == Done && nb != null ==>
        !Editor.Dirty(View(), shown) && Editor.Commit(View(), shown) == View()
    {
      outcome := RemoveCurrent(confirmed, removeFails);
      shown := content;
      if outcome == Done {
        if nb == null {
          shown := "";
        } else {
          shown := nb.data.pages.value[index];
          Editor.ShownPageIsClean(View());
        }
      }
    }

    /**
      `import_notebook`: copy a document verbatim into the library under the
      first free name derived from its title (or its file name). `source` is
      the chosen path, empty when the dialog was cancelled; `content` is what
      reading it gives. `openFails` stands for `open(dest, "w")` raising,
      which creates nothing; `dumpFails` for `json.dump` or the close raising
      after the file was created, which leaves a truncated, unreadable file
      at `dest`. Either error skips the refresh.
     */
    method ImportNotebook(source: string, content: FileContent, openFails: bool, dumpFails: bool)
      returns (outcome: Outcome, dest: string)
      requires Valid()
      modifies this, lib
      ensures Valid()
      ensures outcome != Done || old(nb) != null ==> nb == old(nb) && index == old(index)
      ensures outcome == Done && old(nb) == null ==> AutoOpened() && (nb != null ==> fresh(nb))
      ensures source == "" ==> outcome == Cancelled
      ensures source != "" && content.Malformed? ==> outcome == Unreadable
      ensures outcome == Done <==> source != "" && content.Json? && !openFails && !dumpFails
      ensures source != "" && content.Json? && (openFails || dumpFails) ==> outcome == IOFailure
      ensures source == "" || content.Malformed? || openFails ==> lib.files == old(lib.files)
      ensures source != "" && content.Json? && !openFails ==>
        && dest !in old(lib.files)
        && IsFirstFreeName(old(lib.files), Slugify(ShownTitle(content.doc, source)), dest)
        && lib.files == old(lib.files)[dest := if dumpFails then Malformed else content]
    {
      dest := "";
      if source == "" {
        return Cancelled, dest;
      }
      if content.Malformed? {
        return Unreadable, dest;
      }
      var title := ShownTitle(content.doc, source);
      var k;
      dest, k := FindFreeName(lib.files, Slugify(title));
      assert IsFirstFreeName(lib.files, Slugify(title), dest);
      if openFails {
        return IOFailure, dest;
      }
      assert nb != null ==> dest != nb.path;
      if dumpFails {
        lib.files := lib.files[dest := Malformed];
        return IOFailure, dest;
      }
      lib.files := lib.files[dest := content];
      assert Valid();
      var items, titles := RefreshLibrary();
      outcome := Done;
    }

    /**
      `refresh_library`: the sorted list of `.json` entries with their titles
      and, when nothing is open, opening the first entry (a load that fails
      leaves nothing open).
     */
    method RefreshLibrary() returns (items: seq<string>, titles: seq<string>)
      requires Valid()
      modifies this
      ensures Valid()
      ensures items == LibraryEntries(lib.files)
      ensures |titles| == |items|
      ensures forall i :: 0 <= i < |items| ==> items[i] in lib.files && titles[i] == EntryTitle(lib.files[items[i]], items[i])
      ensures old(nb) != null ==> nb == old(nb) && index == old(index)
      ensures old(nb) == null ==> AutoOpened() && (nb != null ==> fresh(nb))
    {
      var names := ListDir(lib.files);
      items, titles := ScanLibrary(lib.files, names);
      ListingGivesLibraryEntries(lib.files, names);
      if nb == null {
        OpenFirst(items);
      }
    }

    /** The end of `refresh_library`: with nothing open, open the first entry if there is one. */
    method OpenFirst(entries: seq<string>)
      requires Valid() && nb == null
      requires entries == LibraryEntries(lib.files)
      requires forall i :: 0 <= i < |entries| ==> entries[i] in lib.files
      modifies this
      ensures Valid() && AutoOpened() && (nb != null ==> fresh(nb))
    {
      if entries != [] {
        var loaded := Notebook.Load(lib, entries[0]);
        if loaded != null {
          nb := loaded;
          index := 0;
        }
      }
    }
  }
}
