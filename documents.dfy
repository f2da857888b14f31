/**
  The notebook document as stored in a `<slug>.json` file
  (foleskine_notes.py:45-51) and the two ways the program derives a title
  from it.
 */
module Documents {
  import opened Wrappers
  import opened Paths

  /**
    The keys of a notebook file the program reads or writes; `None` is a
    missing key. Timestamps are ISO-8601 strings the program never parses.
   */
  datatype Doc = Doc(
    title: Option<string>,
    createdAt: Option<string>,
    updatedAt: Option<string>,
    pages: Option<seq<string>>)

  /** What reading a file yields: a JSON object, or something `json.load` rejects. */
  datatype FileContent = Json(doc: Doc) | Malformed

  /** The invariant of an open notebook: a non-empty page list. */
  predicate HasPages(d: Doc) {
    d.pages.Some? && d.pages.value != []
  }

  /** The repair `Notebook.__init__` applies to the loaded dictionary. */
  function Normalize(d: Doc): (r: Doc)
    ensures HasPages(r)
    ensures r.(pages := d.pages) == d
    ensures HasPages(d) ==> r == d
    ensures !HasPages(d) ==> r.pages == Some([""])
  {
    if d.pages.None? then d.(pages := Some([""]))
    else if d.pages.value == [] then
      assert d.pages.value + [""] == [""];
      d.(pages := Some(d.pages.value + [""]))
    else d
  }

  /** `Notebook.title`: `data.get("title", stem)`; a stored empty title is kept. */
  function NotebookTitle(d: Doc, path: string): string {
    if d.title.Some? then d.title.value else Stem(path)
  }

  /** The library list's title: `data.get("title") or stem`; an empty title falls back. */
  function ShownTitle(d: Doc, path: string): string {
    if d.title.Some? && d.title.value != "" then d.title.value else Stem(path)
  }

  /** Normalizing twice changes nothing: a saved notebook reloads as it is in memory. */
  lemma NormalizeIdempotent(d: Doc)
    ensures Normalize(Normalize(d)) == Normalize(d)
  {
  }

  /** An untitled file `s.json` is called `s`, both in the header and in the list. */
  lemma UntitledFileIsNamedAfterItsStem(d: Doc, s: string)
    requires d.title.None?
    requires '/' !in s && !AllDots(s)
    ensures NotebookTitle(d, s + ".json") == s
    ensures ShownTitle(d, s + ".json") == s
  {
    StemOfJsonName(s);
  }

  /**
    The two titles agree except on a stored empty title, which the header
    shows as it is and the list replaces by the file-name stem.
   */
  lemma TitlesDifferOnlyOnEmptyTitle(d: Doc, path: string)
    ensures d.title != Some("") ==> NotebookTitle(d, path) == ShownTitle(d, path)
    ensures d.title == Some("") ==> NotebookTitle(d, path) == "" && ShownTitle(d, path) == Stem(path)
  {
  }
}
