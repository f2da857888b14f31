# Foleskine notes — a Dafny model of the notebook store and the page editor

Foleskine is a desktop notebook ("carnet") program. Each notebook is a JSON
file `<slug>.json` in a library directory. The file holds a title, creation
and update timestamps, and a list of page texts. The program shows one page
at a time in a text editor, saves the page when the text changes, and keeps
a side list of the library's notebooks.

This project models the part of `foleskine_notes.py` that decides what is
stored and where, with the directory as a map from file name to content:

- `slug.dfy` — `slugify`, character by character: strip Python whitespace,
  squash each run of characters outside `[A-Za-z0-9_-]` into one `-`, strip
  `-`, and fall back to `carnet`.
- `paths.dfy` — `os.path.basename` and the root of `os.path.splitext`, used
  for the "file-name stem" title fallback.
- `lexorder.dfy` — Python's string order, `sorted` as an insertion sort, and
  an order-keeping filter.
- `documents.dfy` — the notebook document, the `pages` repair made on
  construction, and the two title fallbacks: `data.get("title", stem)` in the
  header and `data.get("title") or stem` in the list.
- `notebooks.dfy` — the `Notebook` class: constructor, `save`, `create_new`
  and `load`.
- `store.dfy` — the library: the file a title is stored under, the listing
  of `refresh_library`/`lib_paths`, and the free-name search of
  `import_notebook`.
- `editor.dfy` — the page-editing state machine as functions on a page list
  and an index. These serve as the specification of the session methods.
- `session.dfy` — the `App` state as a class: the library, the open notebook
  and the current page index. It holds `ensure_page_saved`, the navigation
  actions, new/rename/delete/import and `refresh_library`. Each navigation
  method is proved to move its state exactly as the matching `Editor`
  function does.

Inputs the program gets from outside are parameters of the methods that use
them:

- the text in the editor widget (`content`);
- the answers of dialogs (`title`, `answer`, `confirmed`, `source`);
- the clock (`now`, an opaque ISO string; `created` and `saved` for the two reads of `create_new`);
- whether `os.replace` or `os.remove` raises (`moveFails`, `removeFails`),
  and whether the import's `open(dest, "w")` raises (`openFails`) or the
  `json.dump` into the file it created does (`dumpFails`).

An unreadable or non-JSON file is the `Malformed` content.

`slugify` keeps letter case: a notebook titled "My Diary" is stored as
`My-Diary.json`.

## Model

| member | source | states |
|---|---|---|
| Slug.Slugify | foleskine_notes.py:53-55 | The slug is non-empty, uses only `[A-Za-z0-9_-]`, and neither starts nor ends with `-`. |
| Slug.LStripSpec | foleskine_notes.py:54 | Left strip keeps a suffix, removes only characters of the stripped class, and stops at the first other character. |
| Slug.RStripSpec | foleskine_notes.py:54 | Right strip keeps a prefix, removes only characters of the stripped class, and stops at the last other character. |
| Slug.StripSpec | foleskine_notes.py:54 | `strip` leaves no stripped character at either end and adds no character that was not in the input. |
| Slug.SquashAllowed | foleskine_notes.py:54 | After the substitution, every character is in `[A-Za-z0-9_-]`. |
| Slug.Squash | foleskine_notes.py:54 | Computes the `re.sub` step. `Slug.SquashRun` and `Slug.SquashOfAllowed` pin it down completely: allowed characters stay, and each maximal run of other characters becomes exactly one `-`. |
| Slug.SquashRun | foleskine_notes.py:54 | A maximal run of characters outside `[A-Za-z0-9_-]`, with an allowed character or an end on each side, becomes exactly one `-`: `Squash(a + r + b) == Squash(a) + "-" + Squash(b)`. |
| Slug.SquashOfAllowed | foleskine_notes.py:54 | A string with only allowed characters is left as it is. |
| Slug.SquashKeepsWordChars | foleskine_notes.py:54 | The substitution keeps every letter, digit and underscore, in order. |
| Slug.CoreIsSlugOrEmpty | foleskine_notes.py:54 | Before the fallback, the result is empty or already a well-formed slug. |
| Slug.CoreKeepsWordChars | foleskine_notes.py:54 | Stripping, substituting and stripping again keep the title's letters, digits and underscores, in order. |
| Slug.FallbackExactlyWhenNoWordChar | foleskine_notes.py:54-55 | The fallback `carnet` is taken exactly when the title has no letter, digit or underscore. |
| Slug.SlugifyKeepsWordChars | foleskine_notes.py:53-55 | A title without word characters gives `carnet`; any other title gives a slug with exactly the title's word characters. |
| Slug.SlugifyFixesExactlySlugs | foleskine_notes.py:53-55 | `slugify(s) == s` if and only if `s` is a well-formed slug. |
| Slug.SlugifyIdempotent | foleskine_notes.py:53-55 | `slugify(slugify(x)) == slugify(x)`. |
| Slug.SlugifyMyDiary | foleskine_notes.py:53-55 | "My Diary" slugifies to `My-Diary`: the space becomes `-` and letter case is kept. |
| Paths.LastIndexOf | foleskine_notes.py:68 | `rfind` gives -1 or an in-range position that holds the character. |
| Paths.LastIndexOfIsLast | foleskine_notes.py:68 | No occurrence follows the position `rfind` reports. |
| Paths.Basename | foleskine_notes.py:68 | Computes `os.path.basename`: the text after the last `/`. Its property is stated by `Paths.BasenameHasNoSeparator`. |
| Paths.BasenameOfJoined | foleskine_notes.py:177-185 | The base name of a separator-free name joined to the directory is the name again, so titles computed from joined paths equal those computed from names. |
| Paths.SplitExtRoot | foleskine_notes.py:68 | Computes `os.path.splitext(p)[0]`: drops from the last `.` of the last component, unless only dots precede it there. Its property is stated by `Paths.SplitExtRootOfJsonName`. |
| Paths.Stem | foleskine_notes.py:68 | Computes the file-name stem `splitext(basename(p))[0]`. Its property is stated by `Paths.StemOfJsonName`. |
| Paths.BasenameHasNoSeparator | foleskine_notes.py:68 | `basename` leaves no `/` in its result. |
| Paths.SplitExtRootOfJsonName | foleskine_notes.py:68 | `splitext` on `s + ".json"` gives back `s` when `s` has no `/` and is not all dots. |
| Paths.StemOfJsonName | foleskine_notes.py:68 | The stem of `s + ".json"` is `s` under the same conditions. |
| LexOrder.LeTotal | foleskine_notes.py:175 | Python's string order compares any two strings. |
| LexOrder.Le | foleskine_notes.py:175 | Computes `a <= b` on Python strings: lexicographic on code points, a prefix first. Its properties are stated by `LexOrder.LeTotal`, `LexOrder.LeTransitive` and `LexOrder.LeAntisymmetric`. |
| LexOrder.LeTransitive | foleskine_notes.py:175 | The string order is transitive. |
| LexOrder.LeAntisymmetric | foleskine_notes.py:175 | Two strings that are each at most the other are equal. |
| LexOrder.LeCommonPrefix | foleskine_notes.py:177 | Prefixing both strings with the same text (the library directory) does not change their order. |
| LexOrder.PrefixedInsert | foleskine_notes.py:193-198 | Inserting into a sorted list commutes with prefixing every element with the same text. |
| LexOrder.SortPrefixed | foleskine_notes.py:193-198 | Sorting paths that share a directory prefix equals sorting the names and then joining them. |
| LexOrder.Sort | foleskine_notes.py:175 | `sorted` returns an ascending permutation of its input. |
| LexOrder.SortedUnique | foleskine_notes.py:175 | Two ascending lists with the same elements are equal, so `sorted` has one result. |
| LexOrder.KeepMembers | foleskine_notes.py:176 | The filter keeps exactly the elements that pass the test. |
| LexOrder.KeepSort | foleskine_notes.py:175-177 | Filtering a sorted list equals sorting the filtered list. On names, the filter-then-sort of `lib_paths` and the sort-then-filter of `refresh_library` agree. `Store.JoinedListsAgree` carries this over to joined paths. |
| Documents.Normalize | foleskine_notes.py:58-64 | The repaired document has a non-empty page list. A document that had one is unchanged. A missing or empty list becomes `[""]`. No other key changes. |
| Documents.NormalizeIdempotent | foleskine_notes.py:58-64 | Repairing twice is repairing once, so a saved notebook reloads as it is in memory. |
| Documents.UntitledFileIsNamedAfterItsStem | foleskine_notes.py:66-68 | An untitled `s.json` is titled `s`, both in the header and in the list. |
| Documents.TitlesDifferOnlyOnEmptyTitle | foleskine_notes.py:68 | The header title and the list title agree, except on a stored empty title: the header shows it, and the list shows the stem instead. |
| Documents.NotebookTitle | foleskine_notes.py:68 | Computes `data.get("title", stem)`. Its properties are stated by `Documents.UntitledFileIsNamedAfterItsStem` and `Documents.TitlesDifferOnlyOnEmptyTitle`. |
| Documents.ShownTitle | foleskine_notes.py:183 | Computes `data.get("title") or stem`. Its properties are stated by the same two lemmas. |
| Notebooks.Notebook.constructor | foleskine_notes.py:58-64 | Path as given, document repaired, and the non-empty-pages invariant established. |
| Notebooks.Notebook.Save | foleskine_notes.py:70-74 | Only `updated_at` changes. The file at the notebook's path now holds the whole document, and no other file changes. |
| Notebooks.Notebook.CreateNew | foleskine_notes.py:76-89 | A fresh notebook at `<slugify(title)>.json` with one empty page. `created_at` is the first clock read (line 80). `updated_at` is the second, made by the `save` at line 88 through line 71. It is written at once, and a file already at that name is overwritten. |
| Notebooks.Notebook.Load | foleskine_notes.py:91-95 | Loading fails exactly when the file is missing or unreadable. Otherwise it gives the repaired document. |
| Notebooks.Notebook.Title | foleskine_notes.py:66-68 | The `title` property: `Documents.NotebookTitle` of the notebook's document and path. `CreateNew`, `RenameNotebook` and `NewNotebookGuarded` state what it returns after them. |
| Store.Library.constructor | foleskine_notes.py:40-42 | The library starts with the given directory contents. |
| Store.NotebookFileName | foleskine_notes.py:78 | The file name of a title ends in `.json`, and its stem is the title's slug. |
| Store.ListDir | foleskine_notes.py:175 | `os.listdir` returns each file of the directory exactly once. |
| Store.LibPathsAreTheJsonFiles | foleskine_notes.py:193-198 | `lib_paths` is ascending and holds exactly the directory's names that end in `.json` in any letter case. |
| Store.IsJsonName | foleskine_notes.py:176 | Computes `name.lower().endswith(".json")`. Lowering only ASCII capitals is exact here, since no other character lowers to `.`, `j`, `s`, `o` or `n`. `Store.NotebookFileName` and `Store.CandidateIsJsonName` state that every name the program writes passes it. |
| Store.LibPaths | foleskine_notes.py:193-198 | Computes `lib_paths` on names: keep the `.json` names, then sort. Its properties are stated by `Store.LibPathsAreTheJsonFiles` and `Store.LibPathsIgnoreListingOrder`. `Store.JoinedListsAgree` shows that sorting the joined paths, as the code does, gives these names joined in the same order. |
| Store.LibPathsIgnoreListingOrder | foleskine_notes.py:193-198 | `lib_paths` does not depend on the order `os.listdir` returns. |
| Store.ListingGivesLibraryEntries | foleskine_notes.py:173-177 | Any listing of the directory gives the same sorted list of `.json` entries. |
| Store.JsonEntries | foleskine_notes.py:176-177 | The loop keeps exactly the `.json` names, in listing order. |
| Store.SortedJsonEntries | foleskine_notes.py:174-177 | The first loop of `refresh_library`, on names, yields `LibPaths`, the `.json` names of the listing in ascending order. |
| Store.JoinedListsAgree | foleskine_notes.py:174-198 | With the paths joined to the directory, `refresh_library`'s list (sort the names, filter, join) and `lib_paths()` (filter, join, sort the paths) are the same list, the joined `LibPaths`. So list row i is `lib_paths()[i]`. |
| Store.ScanLibrary | foleskine_notes.py:173-187 | There is one title per entry. It is the stored title when present and non-empty, and otherwise (including for an unreadable file) the stem. |
| Store.EntryTitle | foleskine_notes.py:180-185 | Computes one list title: `Documents.ShownTitle` of a readable file, the stem of an unreadable one. `Store.ScanLibrary` states that each row gets it. |
| Store.Dec | foleskine_notes.py:304 | Decimal notation has only digits, and is one digit long exactly below 10. |
| Store.DecInjective | foleskine_notes.py:304 | Different counters give different decimal strings. |
| Store.CandidateInjective | foleskine_notes.py:301-305 | The names the import tries are pairwise different. |
| Store.Candidate | foleskine_notes.py:299-304 | Computes the k-th name tried: `<base>.json`, then `<base>-k.json`. Its properties are stated by `Store.CandidateInjective`, `Store.CandidateIsJsonName` and `Store.FindFreeName`. |
| Store.CandidateIsJsonName | foleskine_notes.py:304 | Every name the import may choose shows up in the library list. |
| Store.FindFreeName | foleskine_notes.py:299-305 | The result is `<base>.json` if that name is free. Otherwise it is `<base>-i.json` for the least `i >= 1` that is free. The search ends because every name it skips is a distinct existing file. |
| Editor.Padded | foleskine_notes.py:402-403 | Padding keeps every page and appends only empty pages, exactly up to the index. |
| Editor.Commit | foleskine_notes.py:401-405 | The editor text lands at the index, and every other page is kept or is new padding. When the slot already held the text, only padding happens. |
| Editor.CommitIdempotent | foleskine_notes.py:404-406 | A second `ensure_page_saved` with the same text writes nothing and changes nothing. |
| Editor.ShownPageIsClean | foleskine_notes.py:404 | An editor showing the stored page is clean, so saving changes nothing. |
| Editor.BlankEditorErasesPage | foleskine_notes.py:404-405 | An empty editor over a non-empty page is dirty, and saving it erases that page. |
| Editor.PrevPage | foleskine_notes.py:419-425 | Saves the page, then steps back unless on page 1. The index stays in range. |
| Editor.AddPage | foleskine_notes.py:438-445 | Saves the page, appends exactly one empty page, and moves onto it. |
| Editor.NextPage | foleskine_notes.py:427-436 | Saves the page and steps forward. On the last page it appends exactly one empty page and moves onto it. The index stays in range. |
| Editor.GotoPage | foleskine_notes.py:447-455 | Saves the page and moves to the chosen page number, minus one. |
| Editor.FullscreenPrevPage | foleskine_notes.py:596-602 | On page 1 nothing changes and nothing is stored. Elsewhere it saves the page and steps back. The index stays in range. |
| Editor.FullscreenNextPage | foleskine_notes.py:604-617 | Saves the page and steps forward. On the last page it appends exactly one empty page and moves onto it. The index stays in range. |
| Editor.NextOnLastPageIsAddPage | foleskine_notes.py:431-435 | On the last page, "next" is `add_page`. |
| Editor.FullscreenNextIsNext | foleskine_notes.py:604-617 | The full-screen "next" gives the same pages and index as `next_page`. |
| Editor.FullscreenPrevDiffersOnlyOnFirstPage | foleskine_notes.py:596-602 | The full-screen "previous" equals `prev_page` except on page 1. There it returns before saving, while `prev_page` still saves. |
| Editor.NavigationKeepsOtherPages | foleskine_notes.py:419-455 | No navigation action (previous, next, add, go-to, and the two full-screen buttons) loses or reorders a page. Only the current slot is rewritten, and the list grows by at most one empty page. |
| Session.App.constructor | foleskine_notes.py:126-148 | Nothing open and index 0, then the first `refresh_library` opens the first entry when it loads. |
| Session.App.EnsurePageSaved | foleskine_notes.py:397-407 | The pages become the `Editor.Commit` of the editor text. The notebook is stamped and its file rewritten exactly when the slot differed. With nothing open, nothing happens. |
| Session.App.PrevPage | foleskine_notes.py:419-425 | The state moves as `Editor.PrevPage` says. The notebook is stamped and its file, and no other, rewritten exactly when the editor text differed from the stored page; otherwise the document and the directory are untouched. |
| Session.App.NextPage | foleskine_notes.py:427-436 | The state moves as `Editor.NextPage` says. The notebook is stamped and its file rewritten exactly when the editor text differed or a page was appended on the last page; otherwise nothing is written. |
| Session.App.AddPage | foleskine_notes.py:438-445 | The state moves as `Editor.AddPage` says. The document keeps title and creation time, gets the new pages and `updated_at`, and only its file is rewritten. |
| Session.App.AppendPage | foleskine_notes.py:442-444 | Appends one empty page, sets the index to the new last slot, and saves. |
| Session.App.GotoPage | foleskine_notes.py:447-455 | A cancelled dialog changes nothing. An accepted page number moves the state as `Editor.GotoPage` says, and the notebook is stamped and saved exactly when the editor text differed. |
| Session.App.FullscreenPrevPage | foleskine_notes.py:596-602 | The state moves as `Editor.FullscreenPrevPage` says. On page 1 nothing changes; elsewhere the notebook is stamped and saved exactly when the editor text differed. |
| Session.App.FullscreenNextPage | foleskine_notes.py:604-617 | The state moves as `Editor.FullscreenNextPage` says. The notebook is stamped and saved exactly when the editor text differed or a page was appended; otherwise nothing is written. |
| Session.App.OpenNew | foleskine_notes.py:228-230 | The new notebook is current on page 1, and only its file is written. |
| Session.App.NewNotebook | foleskine_notes.py:224-234 | An empty title does nothing. Otherwise the new notebook is open on page 1 in `<slug>.json`. A notebook already stored under that name is replaced by the empty one. |
| Session.App.NewNotebookGuarded | foleskine_notes.py:224-234 | As `NewNotebook`, except that a taken file name is refused with `Conflict` and every existing file is kept. |
| Session.App.MoveAndRetitle | foleskine_notes.py:248-255 | The file moves to the new path when that path differs, the title is set, and the notebook is saved there. |
| Session.App.RenameNotebook | foleskine_notes.py:236-258 | Renaming to a different existing file is a `Conflict`, and a failed move is an `IOFailure`. Both leave path, title and directory unchanged. Otherwise the file moves (when the path differs), the title is set, and the notebook is saved. |
| Session.App.RemoveCurrent | foleskine_notes.py:260-272 | After confirmation and a successful remove, exactly the current file is gone. Then nothing is open, and the refresh opens the first remaining entry. With nothing open the outcome is NoNotebook, without confirmation Cancelled, and a failing `os.remove` gives IOFailure. In each of these cases nothing changes. |
| Session.App.DeleteNotebookAsWritten | foleskine_notes.py:260-274 | As the code is written: after a delete that auto-opened a notebook whose page 1 is non-empty, the editor is blank and dirty, and the next save erases that page. |
| Session.App.DeleteNotebook | foleskine_notes.py:260-274 | With the editor reloaded after the refresh, the editor shows the current page and the next save writes nothing. |
| Session.App.ImportNotebook | foleskine_notes.py:291-311 | A readable file is copied verbatim under the first free name derived from its title or stem. That name was not in the directory, and every existing file is kept. A cancel, an unreadable file or a failing `open` leaves the directory as it was; a dump failing after `open` leaves an unreadable file at the chosen name. |
| Session.App.RefreshLibrary | foleskine_notes.py:173-191 | The list is the sorted `.json` entries of the directory, with one title each. With nothing open, it opens the first entry. |
| Session.App.OpenFirst | foleskine_notes.py:188-191 | With nothing open, the first entry is opened on page 1 if it loads. Otherwise nothing is open. |

## Left out

- The tkinter interface is not modelled: windows, styling, the listbox and its selection (`select_current_in_list`, `on_select_notebook`), `update_title`, and how `load_page` displays a page. What the editor holds is the `content` parameter.
- Full-screen mode, other than its two page buttons, is not modelled: opening and closing the window and copying text between the two editors.
- The debounce and periodic autosave timers are not modelled. Both only call `ensure_page_saved`, which is modelled.
- `export_notebook` is not modelled. It runs the modelled `ensure_page_saved`, then writes the document to a path chosen in a dialog. That path may lie inside the library and overwrite a notebook there without a check.
- `open_notebook` with its "save changes?" dialog (`confirm_save_changes`) is not modelled. Only the automatic opening by `refresh_library` is modelled, when nothing is open and the dialog is not shown.
- `get_data_dir` and `get_icon_path` are not modelled: platform and environment lookups.
- JSON is not modelled beyond the four keys the program uses. Other keys and values of other types are not modelled. A file that is not valid JSON, or is not an object, is `Malformed`.
- Timestamps are opaque `now` strings and are never parsed.
- Paths are names inside the library directory, with `/` as the only separator. Windows separators are not modelled, and neither are case-insensitive filesystems, where `os.path.exists` may match another name.
- A failing `save()` is not modelled. Failures are modelled only where the code catches them: `os.replace`, `os.remove` and the import's write.
- Session.App.RefreshLibrary: returns the titles as a sequence instead of inserting them into the listbox one by one.
- Session.App.ImportNotebook: stores the parsed document itself, not its re-serialised JSON text; the truncated file a failed dump leaves is `Malformed`, its bytes are not modelled.
- Slug.FallbackExactlyWhenNoWordChar: says when the fallback branch is taken. A title whose slug is literally `carnet` gives the same file name without taking it.

## Findings

| source | as written | input that shows it | evidently intended | confidence | as-written member | corrected member |
|---|---|---|---|---|---|---|
| foleskine_notes.py:270-274 | `delete_notebook` calls `clear_editor` after `refresh_library`. The refresh auto-opens the first remaining notebook, but the editor is left empty. The next `ensure_page_saved` (an autosave or any page button) then stores "" over that notebook's page 1. | A library with `a.json` (page 1 "hello") and `b.json`, with `b` open. Delete `b`: `a` is opened with a blank editor, and the next save writes `pages[0] = ""` to `a.json`. | After the refresh, the editor shows the page of the notebook that was opened, so saving writes nothing. | not executed | Session.App.DeleteNotebookAsWritten | Session.App.DeleteNotebook |
| foleskine_notes.py:76-89, 224-234 | `new_notebook` calls `create_new`, which writes `<slug>.json` without checking whether it exists. A new notebook whose title slugs to an existing file replaces that notebook with an empty one. | A library with `Journal.json` holding pages. New notebook titled "Journal!": the slug is `Journal`, and `Journal.json` is overwritten with one empty page. | Refuse a taken name, as `rename_notebook` does at lines 244-247. | not executed | Session.App.NewNotebook | Session.App.NewNotebookGuarded |
