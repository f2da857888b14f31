/**
  The `Notebook` class (foleskine_notes.py:57-95): a path and the document
  dictionary, repaired on construction so that it always has a page.
 */
module Notebooks {
  import opened Wrappers
  import opened Documents
  import opened Store

  class Notebook {
    var path: string
    var data: Doc

    /** The invariant the constructor establishes. */
    ghost predicate Valid()
      reads this
    {
      HasPages(data)
    }

    function Pages(): seq<string>
      reads this
      requires Valid()
    {
      data.pages.value
    }

    /** The `title` property. */
    function Title(): string
      reads this
    {
      NotebookTitle(data, path)
    }

    /** `Notebook.__init__`: a missing `pages` becomes `[""]`, an empty one gets one `""`. */
    constructor (path: string, data: Doc)
      ensures this.path == path && this.data == Normalize(data)
      ensures Valid()
    {
      var d := data;
      if d.pages.None? {
        d := d.(pages := Some([""]));
      }
      if d.pages.value == [] {
        d := d.(pages := Some(d.pages.value + [""]));
      }
      this.path := path;
      this.data := d;
    }

    /** `save`: stamp `updated_at` and overwrite the file with the whole document. */
    method Save(lib: Library, now: string)
      modifies this, lib
      ensures path == old(path)
      ensures data == old(data).(updatedAt := Some(now))
      ensures lib.files == old(lib.files)[path := Json(data)]
    {
      data := data.(updatedAt := Some(now));
      lib.files := lib.files[path := Json(data)];
    }

    /**
      `create_new`: a one-empty-page notebook stored at `<slug>.json` and
      written at once; a file already there is overwritten. The clock is read
      twice: `created` for both timestamps of the new document, then `saved`
      by the `save` that re-stamps `updated_at`.
     */
    static method CreateNew(lib: Library, title: string, created: string, saved: string) returns (nb: Notebook)
      modifies lib
      ensures fresh(nb) && nb.Valid()
      ensures nb.path == NotebookFileName(title)
      ensures nb.data == Doc(Some(title), Some(created), Some(saved), Some([""]))
      ensures nb.Title() == title
      ensures lib.files == old(lib.files)[nb.path := Json(nb.data)]
    {
      var fname := NotebookFileName(title);
      var data := Doc(Some(title), Some(created), Some(created), Some([""]));
      nb := new Notebook(fname, data);
      nb.Save(lib, saved);
    }

    /** `load`: a missing or unreadable file fails; otherwise the repaired document. */
    static method Load(lib: Library, path: string) returns (nb: Notebook?)
      ensures nb != null <==> path in lib.files && lib.files[path].Json?
      ensures nb != null ==> fresh(nb) && nb.Valid()
      ensures nb != null ==> nb.path == path && nb.data == Normalize(lib.files[path].doc)
    {
      if path in lib.files && lib.files[path].Json? {
        nb := new Notebook(path, lib.files[path].doc);
      } else {
        nb := null;
      }
    }
  }
}
