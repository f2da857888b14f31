/**
  The page-editing state machine of the editor (foleskine_notes.py:397-455,
  596-617) on values: the page list of the open notebook and the index of
  the page on screen. `content` is what the text widget holds when the
  action fires. The methods of `Session.App` are proved against these
  functions.
 */
module Editor {

  /** The pages of the open notebook and the index of the page being edited. */
  datatype Cursor = Cursor(pages: seq<string>, index: nat)

  /** The index names an existing page: `0 <= index <= len(pages) - 1`. */
  predicate InRange(c: Cursor) {
    c.index < |c.pages|
  }

  function Blanks(n: nat): (r: seq<string>)
    ensures |r| == n && forall k :: 0 <= k < n ==> r[k] == ""
  {
    seq(n, _ => "")
  }

  /** `while index >= len(pages): pages.append("")`. */
  function Padded(pages: seq<string>, index: nat): (r: seq<string>)
    ensures |r| == if index < |pages| then |pages| else index + 1
    ensures forall k :: 0 <= k < |pages| ==> r[k] == pages[k]
    ensures forall k :: |pages| <= k < |r| ==> r[k] == ""
  {
    if index < |pages| then pages else pages + Blanks(index + 1 - |pages|)
  }

  /** `ensure_page_saved` writes, and saves, exactly when the editor differs from the stored page. */
  predicate Dirty(c: Cursor, content: string) {
    Padded(c.pages, c.index)[c.index] != content
  }

  /**
    `ensure_page_saved`: pad the list up to the index, then store the editor
    text at the index and nowhere else.
   */
  function Commit(c: Cursor, content: string): (r: Cursor)
    ensures InRange(r) && r.index == c.index
    ensures |r.pages| == if InRange(c) then |c.pages| else c.index + 1
    ensures r.pages[c.index] == content
    ensures forall k :: 0 <= k < |c.pages| && k != c.index ==> r.pages[k] == c.pages[k]
    ensures forall k :: |c.pages| <= k < |r.pages| && k != c.index ==> r.pages[k] == ""
    ensures !Dirty(c, content) ==> r.pages == Padded(c.pages, c.index)
  {
    Cursor(Padded(c.pages, c.index)[c.index := content], c.index)
  }

  /** Committing the same text again changes nothing and writes nothing. */
  lemma CommitIdempotent(c: Cursor, content: string)
    ensures !Dirty(Commit(c, content), content)
    ensures Commit(Commit(c, content), content) == Commit(c, content)
  {
    var r := Commit(c, content);
    assert Padded(r.pages, r.index) == r.pages;
    assert r.pages[r.index := content] == r.pages;
  }

  /** An editor showing the current page as stored is clean: committing it writes nothing. */
  lemma ShownPageIsClean(c: Cursor)
    requires InRange(c)
    ensures !Dirty(c, c.pages[c.index])
    ensures Commit(c, c.pages[c.index]) == c
  {
    assert c.pages[c.index := c.pages[c.index]] == c.pages;
  }

  /** An empty editor over a non-empty page is dirty, and committing it erases that page. */
  lemma BlankEditorErasesPage(c: Cursor)
    requires InRange(c) && c.pages[c.index] != ""
    ensures Dirty(c, "")
    ensures Commit(c, "").pages[c.index] == ""
    ensures Commit(c, "").pages != c.pages
  {
    assert Commit(c, "").pages[c.index] != c.pages[c.index];
  }

  /** `prev_page`: commit, then step back unless on the first page. */
  function PrevPage(c: Cursor, content: string): (r: Cursor)
    requires InRange(c)
    ensures InRange(r)
    ensures r.pages == Commit(c, content).pages
    ensures r.index == if c.index > 0 then c.index - 1 else 0
  {
    var s := Commit(c, content);
    if s.index > 0 then s.(index := s.index - 1) else s
  }

  /** `add_page`: commit, append one empty page and move onto it. */
  function AddPage(c: Cursor, content: string): (r: Cursor)
    requires InRange(c)
    ensures InRange(r)
    ensures r.pages == Commit(c, content).pages + [""]
    ensures r.index == |c.pages| == |r.pages| - 1
  {
    var s := Commit(c, content);
    Cursor(s.pages + [""], |s.pages|)
  }

  /**
    `next_page`: commit, then step forward; on the last page it calls
    `add_page`, which commits a second time, appends exactly one empty page
    and moves onto it.
   */
  function NextPage(c: Cursor, content: string): (r: Cursor)
    requires InRange(c)
    ensures InRange(r)
    ensures c.index < |c.pages| - 1 ==> r.pages == Commit(c, content).pages && r.index == c.index + 1
    ensures c.index == |c.pages| - 1 ==> r.pages == Commit(c, content).pages + [""] && r.index == |c.pages|
  {
    var s := Commit(c, content);
    CommitIdempotent(c, content);
    if s.index < |s.pages| - 1 then s.(index := s.index + 1) else AddPage(s, content)
  }

  /** `goto_page_dialog` with the 1-based page number the dialog accepted. */
  function GotoPage(c: Cursor, content: string, page: nat): (r: Cursor)
    requires InRange(c) && 1 <= page <= |c.pages|
    ensures InRange(r)
    ensures r.pages == Commit(c, content).pages && r.index == page - 1
  {
    Commit(c, content).(index := page - 1)
  }

  /** `fullscreen_prev_page`: on the first page it returns before committing. */
  function FullscreenPrevPage(c: Cursor, content: string): (r: Cursor)
    requires InRange(c)
    ensures InRange(r)
    ensures c.index == 0 ==> r == c
    ensures c.index > 0 ==> r.pages == Commit(c, content).pages && r.index == c.index - 1
  {
    if c.index <= 0 then c
    else
      var s := Commit(c, content);
      s.(index := s.index - 1)
  }

  /** `fullscreen_next_page`: on the last page it appends without the second commit. */
  function FullscreenNextPage(c: Cursor, content: string): (r: Cursor)
    requires InRange(c)
    ensures InRange(r)
    ensures c.index < |c.pages| - 1 ==> r.pages == Commit(c, content).pages && r.index == c.index + 1
    ensures c.index == |c.pages| - 1 ==> r.pages == Commit(c, content).pages + [""] && r.index == |c.pages|
  {
    var s := Commit(c, content);
    if s.index < |s.pages| - 1 then s.(index := s.index + 1)
    else Cursor(s.pages + [""], |s.pages|)
  }

  /** On the last page, "next" is "add a page". */
  lemma NextOnLastPageIsAddPage(c: Cursor, content: string)
    requires InRange(c) && c.index == |c.pages| - 1
    ensures NextPage(c, content) == AddPage(c, content)
  {
  }

  /** The full-screen "next" button does what the main one does. */
  lemma FullscreenNextIsNext(c: Cursor, content: string)
    requires InRange(c)
    ensures FullscreenNextPage(c, content) == NextPage(c, content)
  {
    CommitIdempotent(c, content);
  }

  /**
    The full-screen "previous" button does what the main one does, except on
    the first page, where it leaves the page list as it is and `prev_page`
    still stores the editor text.
   */
  lemma FullscreenPrevDiffersOnlyOnFirstPage(c: Cursor, content: string)
    requires InRange(c)
    ensures c.index > 0 ==> FullscreenPrevPage(c, content) == PrevPage(c, content)
    ensures c.index == 0 ==> FullscreenPrevPage(c, content) == c
    ensures c.index == 0 ==> PrevPage(c, content) == Commit(c, content)
  {
  }

  /** Navigation never loses or reorders a page: only the current slot is rewritten and pages only grow. */
  lemma NavigationKeepsOtherPages(c: Cursor, content: string, page: nat, r: Cursor)
    requires InRange(c)
    requires || r == PrevPage(c, content) || r == NextPage(c, content) || r == AddPage(c, content)
             || (1 <= page <= |c.pages| && r == GotoPage(c, content, page))
             || r == FullscreenPrevPage(c, content) || r == FullscreenNextPage(c, content)
    ensures |c.pages| <= |r.pages| <= |c.pages| + 1
    ensures forall k :: 0 <= k < |c.pages| && k != c.index ==> r.pages[k] == c.pages[k]
    ensures forall k :: |c.pages| <= k < |r.pages| ==> r.pages[k] == ""
    ensures r.pages[c.index] == content || r == c
  {
    CommitIdempotent(c, content);
  }
}
