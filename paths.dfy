/**
  The two `os.path` helpers the store uses to derive a title from a file
  name: `os.path.basename` and the root part of `os.path.splitext`, with the
  POSIX separator `/`.
 */
module Paths {

  /** Position of the last `c` among the first `n` characters of `s`, or -1. */
  function LastIndexBefore(s: string, c: char, n: nat): (r: int)
    requires n <= |s|
    ensures -1 <= r < n
    ensures r >= 0 ==> s[r] == c
  {
    if n == 0 then -1
    else if s[n - 1] == c then n - 1
    else LastIndexBefore(s, c, n - 1)
  }

  /** Position of the last `c` in `s`, or -1 (`str.rfind`). */
  function LastIndexOf(s: string, c: char): (r: int)
    ensures -1 <= r < |s|
    ensures r >= 0 ==> s[r] == c
  {
    LastIndexBefore(s, c, |s|)
  }

  lemma {:induction false} LastIndexBeforeIsLast(s: string, c: char, n: nat)
    requires n <= |s|
    ensures forall k :: LastIndexBefore(s, c, n) < k < n ==> s[k] != c
  {
    if n > 0 && s[n - 1] != c {
      LastIndexBeforeIsLast(s, c, n - 1);
    }
  }

  /** No `c` follows the position `LastIndexOf` reports. */
  lemma LastIndexOfIsLast(s: string, c: char)
    ensures forall k :: LastIndexOf(s, c) < k < |s| ==> s[k] != c
  {
    LastIndexBeforeIsLast(s, c, |s|);
  }

  /** `os.path.basename`: everything after the last `/`. */
  function Basename(p: string): string {
    p[LastIndexOf(p, '/') + 1..]
  }

  /** A base name holds no separator. */
  lemma BasenameHasNoSeparator(p: string)
    ensures '/' !in Basename(p)
  {
    LastIndexOfIsLast(p, '/');
    var sep := LastIndexOf(p, '/');
    forall k | 0 <= k < |Basename(p)| ensures Basename(p)[k] != '/' {
      assert Basename(p)[k] == p[sep + 1 + k];
    }
  }

  lemma {:induction false} LastIndexBeforeAt(s: string, c: char, m: nat, n: nat)
    requires m < n <= |s| && s[m] == c
    requires forall k :: m < k < n ==> s[k] != c
    ensures LastIndexBefore(s, c, n) == m
  {
    if n - 1 != m {
      LastIndexBeforeAt(s, c, m, n - 1);
    }
  }

  /**
    `os.path.join(dir, name)` for a name without separator: the base name of
    the joined path is the name again.
   */
  lemma BasenameOfJoined(dir: string, name: string)
    requires '/' !in name
    ensures Basename(dir + "/" + name) == name
  {
    var p := dir + "/" + name;
    forall k | |dir| < k < |p| ensures p[k] != '/' {
      assert p[k] == name[k - |dir| - 1];
    }
    LastIndexBeforeAt(p, '/', |dir|, |p|);
    assert p[|dir| + 1..] == name;
  }

  predicate AllDots(s: string) {
    forall k :: 0 <= k < |s| ==> s[k] == '.'
  }

  /**
    `os.path.splitext(p)[0]`: drops the extension, i.e. the part from the last
    `.` of the last path component, unless that component has nothing but dots
    before it (so `.json` keeps its name).
   */
  function SplitExtRoot(p: string): string {
    var sep := LastIndexOf(p, '/');
    var dot := LastIndexOf(p, '.');
    if dot > sep && !AllDots(p[sep + 1..dot]) then p[..dot] else p
  }

  /** The file-name stem `os.path.splitext(os.path.basename(p))[0]`. */
  function Stem(p: string): string {
    SplitExtRoot(Basename(p))
  }

  /** Appending `.json` adds no separator. */
  lemma JsonNameHasNoSeparator(s: string)
    requires '/' !in s
    ensures '/' !in s + ".json"
  {
    assert '/' !in ".json";
  }

  /** A path without a separator has no separator position. */
  lemma NoSeparatorIndex(p: string)
    requires '/' !in p
    ensures LastIndexOf(p, '/') == -1
  {
    assert forall k :: 0 <= k < |p| ==> p[k] != '/';
  }

  /** The last `.` of `s + ".json"` is the one that starts the extension. */
  lemma LastDotOfJsonName(s: string)
    ensures LastIndexOf(s + ".json", '.') == |s|
  {
    var p := s + ".json";
    LastIndexOfIsLast(p, '.');
    assert p[|s|] == '.';
    assert p[|s| + 1] == 'j' && p[|s| + 2] == 's' && p[|s| + 3] == 'o' && p[|s| + 4] == 'n';
  }

  /** `splitext` takes exactly the `.json` off such a name. */
  lemma SplitExtRootOfJsonName(s: string)
    requires '/' !in s
    requires !AllDots(s)
    ensures SplitExtRoot(s + ".json") == s
  {
    var p := s + ".json";
    JsonNameHasNoSeparator(s);
    NoSeparatorIndex(p);
    LastDotOfJsonName(s);
    assert p[0..|s|] == s;
    assert p[..|s|] == s;
  }

  /** A name without `/` that has a character other than `.` gets back its stem once `.json` is dropped. */
  lemma StemOfJsonName(s: string)
    requires '/' !in s
    requires !AllDots(s)
    ensures Stem(s + ".json") == s
  {
    JsonNameHasNoSeparator(s);
    NoSeparatorIndex(s + ".json");
    SplitExtRootOfJsonName(s);
  }
}
