/**
  The notebook library: the flat directory of notebook files and its naming
  rules — the file a title is stored under, the library listing
  (`refresh_library`, `lib_paths`) and the free-name search of
  `import_notebook`.
 */
module Store {
  import opened Documents
  import opened Slug
  import opened Paths
  import opened LexOrder

  /**
    The notebooks directory: file name to content. Names are those
    `os.listdir` returns. The program's paths are these names joined to the
    directory; joining keeps their order (`JoinedListsAgree`) and their base
    names (`Paths.BasenameOfJoined`).
   */
  class Library {
    var files: map<string, FileContent>

    constructor (files: map<string, FileContent>)
      ensures this.files == files
    {
      this.files := files;
    }
  }

  function LowerChar(c: char): char {
    if 'A' <= c <= 'Z' then (c as int + 32) as char else c
  }

  /**
    `name.lower().endswith(".json")`. Lowering ASCII capitals suffices: no
    other character lowers to `.`, `j`, `s`, `o` or `n`.
   */
  predicate IsJsonName(name: string) {
    && |name| >= 5
    && LowerChar(name[|name| - 5]) == '.'
    && LowerChar(name[|name| - 4]) == 'j'
    && LowerChar(name[|name| - 3]) == 's'
    && LowerChar(name[|name| - 2]) == 'o'
    && LowerChar(name[|name| - 1]) == 'n'
  }

  lemma SlugFileNameIsJson(slug: string)
    requires IsSlug(slug)
    ensures IsJsonName(slug + ".json")
  {
    var r := slug + ".json";
    assert r[|r| - 5..] == ".json";
  }

  lemma SlugFileNameStem(slug: string)
    requires IsSlug(slug)
    ensures Stem(slug + ".json") == slug
  {
    assert Allowed(slug[0]);
    assert '/' !in slug by {
      forall k | 0 <= k < |slug| ensures slug[k] != '/' {
        assert Allowed(slug[k]);
      }
    }
    StemOfJsonName(slug);
  }

  /** The file a notebook titled `title` is stored in: `<slugify(title)>.json`. */
  function NotebookFileName(title: string): (r: string)
    ensures IsJsonName(r)
    ensures Stem(r) == Slugify(title)
  {
    var slug := Slugify(title);
    SlugFileNameIsJson(slug);
    SlugFileNameStem(slug);
    slug + ".json"
  }

  predicate Distinct(names: seq<string>) {
    forall i, j :: 0 <= i < j < |names| ==> names[i] != names[j]
  }

  /** `names` is an `os.listdir` result for the directory: each entry once, in any order. */
  predicate IsListing(files: map<string, FileContent>, names: seq<string>) {
    && (forall n | n in names :: n in files)
    && (forall n | n in files :: n in names)
    && Distinct(names)
  }

  /** `lib_paths`: the `.json` entries, sorted. */
  function LibPaths(names: seq<string>): seq<string> {
    Sort(Keep(IsJsonName, names))
  }

  lemma {:induction false} DistinctMultiset(s: seq<string>, y: string)
    requires Distinct(s)
    ensures multiset(s)[y] == if y in s then 1 else 0
  {
    if s != [] {
      assert s == [s[0]] + s[1..];
      assert Distinct(s[1..]);
      assert s[0] !in s[1..];
      DistinctMultiset(s[1..], y);
    }
  }

  /** The listing holds exactly the `.json` files of the directory, ascending. */
  lemma LibPathsAreTheJsonFiles(files: map<string, FileContent>, names: seq<string>)
    requires IsListing(files, names)
    ensures Sorted(LibPaths(names))
    ensures forall n :: n in LibPaths(names) <==> n in files && IsJsonName(n)
  {
    KeepMembers(IsJsonName, names);
    forall n ensures n in LibPaths(names) <==> n in Keep(IsJsonName, names) {
      assert n in LibPaths(names) <==> n in multiset(LibPaths(names));
    }
  }

  /** The listing depends on the directory only, not on the order `os.listdir` reports. */
  lemma LibPathsIgnoreListingOrder(files: map<string, FileContent>, a: seq<string>, b: seq<string>)
    requires IsListing(files, a) && IsListing(files, b)
    ensures LibPaths(a) == LibPaths(b)
  {
    forall y ensures multiset(Keep(IsJsonName, a))[y] == multiset(Keep(IsJsonName, b))[y] {
      KeepMultiset(IsJsonName, a, y);
      KeepMultiset(IsJsonName, b, y);
      DistinctMultiset(a, y);
      DistinctMultiset(b, y);
    }
    assert multiset(Keep(IsJsonName, a)) == multiset(Keep(IsJsonName, b));
    SortedUnique(LibPaths(a), LibPaths(b));
  }

  /** `os.listdir`: every file of the directory once, in an order the directory chooses. */
  method ListDir(files: map<string, FileContent>) returns (names: seq<string>)
    ensures IsListing(files, names)
  {
    names := [];
    var rest := files.Keys;
    while rest != {}
      invariant rest <= files.Keys
      invariant forall n | n in names :: n in files && n !in rest
      invariant forall n | n in files :: n in names || n in rest
      invariant Distinct(names)
      decreases rest
    {
      var n :| n in rest;
      names := names + [n];
      rest := rest - {n};
    }
  }

  /** Some listing of a set of names, the order left open. */
  ghost function SomeListing(keys: set<string>): (r: seq<string>)
    ensures forall n :: n in r <==> n in keys
    ensures Distinct(r)
    decreases keys
  {
    if keys == {} then []
    else
      var n :| n in keys;
      [n] + SomeListing(keys - {n})
  }

  /** The entries of the library list: the `.json` names of the directory, sorted. */
  ghost function LibraryEntries(files: map<string, FileContent>): seq<string> {
    LibPaths(SomeListing(files.Keys))
  }

  /** Whatever order `os.listdir` returns, the library list is `LibraryEntries`. */
  lemma ListingGivesLibraryEntries(files: map<string, FileContent>, names: seq<string>)
    requires IsListing(files, names)
    ensures LibPaths(names) == LibraryEntries(files)
    ensures Sorted(LibraryEntries(files))
    ensures forall n :: n in LibraryEntries(files) <==> n in files && IsJsonName(n)
  {
    LibPathsIgnoreListingOrder(files, names, SomeListing(files.Keys));
    LibPathsAreTheJsonFiles(files, names);
  }

  /** The title the library list shows for a file; an unreadable file shows its stem. */
  function EntryTitle(content: FileContent, name: string): string {
    match content
    case Json(d) => ShownTitle(d, name)
    case Malformed => Stem(name)
  }

  /**
    The first loop of `refresh_library`, on names: the `.json` entries of
    the sorted listing, which are `LibPaths`; `JoinedListsAgree` carries
    this over to the joined paths.
   */
  method SortedJsonEntries(names: seq<string>) returns (items: seq<string>)
    ensures items == LibPaths(names)
  {
    var sorted := Sort(names);
    items := JsonEntries(sorted);
    KeepSort(IsJsonName, names);
  }

  /**
    The two loops build joined paths `os.path.join(dir, name)` — `Prefixed`
    with `dir + "/"`. `refresh_library` sorts the names and joins them,
    `lib_paths` joins them and sorts the paths; both yield the joined
    `LibPaths`, so list row i is `lib_paths()[i]`.
   */
  lemma JoinedListsAgree(dir: string, names: seq<string>)
    ensures Prefixed(dir + "/", Keep(IsJsonName, Sort(names))) == Prefixed(dir + "/", LibPaths(names))
    ensures Sort(Prefixed(dir + "/", Keep(IsJsonName, names))) == Prefixed(dir + "/", LibPaths(names))
  {
    KeepSort(IsJsonName, names);
    SortPrefixed(dir + "/", Keep(IsJsonName, names));
  }

  /** The filter inside that loop: the names ending in `.json`, in listing order. */
  method JsonEntries(sorted: seq<string>) returns (items: seq<string>)
    ensures items == Keep(IsJsonName, sorted)
  {
    items := [];
    var k := 0;
    while k < |sorted|
      invariant 0 <= k <= |sorted|
      invariant items == Keep(IsJsonName, sorted[..k])
    {
      assert sorted[..k + 1] == sorted[..k] + [sorted[k]];
      KeepSnoc(IsJsonName, sorted[..k], sorted[k]);
      if IsJsonName(sorted[k]) {
        items := items + [sorted[k]];
      }
      k := k + 1;
    }
    assert sorted[..k] == sorted;
  }

  /** Every entry of the list names a file of the directory. */
  lemma LibPathsInFiles(files: map<string, FileContent>, names: seq<string>)
    requires IsListing(files, names)
    ensures forall i :: 0 <= i < |LibPaths(names)| ==> LibPaths(names)[i] in files
  {
    LibPathsAreTheJsonFiles(files, names);
    forall i | 0 <= i < |LibPaths(names)| ensures LibPaths(names)[i] in files {
      assert LibPaths(names)[i] in LibPaths(names);
    }
  }

  /**
    `refresh_library`: the sorted `.json` entries and the title shown for
    each; an unreadable entry only changes its own title.
   */
  method ScanLibrary(files: map<string, FileContent>, names: seq<string>)
    returns (items: seq<string>, titles: seq<string>)
    requires IsListing(files, names)
    ensures items == LibPaths(names)
    ensures |titles| == |items|
    ensures forall i :: 0 <= i < |items| ==> items[i] in files && titles[i] == EntryTitle(files[items[i]], items[i])
  {
    items := SortedJsonEntries(names);
    LibPathsInFiles(files, names);
    titles := seq(|items|, i requires 0 <= i < |items| => EntryTitle(files[items[i]], items[i]));
  }

  /** One decimal digit. */
  function Digit(d: nat): (c: char)
    requires d < 10
    ensures c as int == '0' as int + d
  {
    ('0' as int + d) as char
  }

  /** Decimal notation of a natural number, as an f-string writes it. */
  function Dec(n: nat): (r: string)
    ensures 1 <= |r| && (|r| == 1 <==> n < 10)
    ensures forall k :: 0 <= k < |r| ==> '0' <= r[k] <= '9'
  {
    if n < 10 then [Digit(n)] else Dec(n / 10) + [Digit(n % 10)]
  }

  lemma {:induction false} DecInjective(a: nat, b: nat)
    requires Dec(a) == Dec(b)
    ensures a == b
  {
    if a >= 10 && b >= 10 {
      var da, db := Dec(a), Dec(b);
      assert da[|da| - 1] == Digit(a % 10) && db[|db| - 1] == Digit(b % 10);
      assert Dec(a / 10) == da[..|da| - 1] == db[..|db| - 1] == Dec(b / 10);
      DecInjective(a / 10, b / 10);
    } else if a < 10 && b < 10 {
      assert Dec(a)[0] == Digit(a) && Dec(b)[0] == Digit(b);
    }
  }

  /** The k-th name tried by the import: `<base>.json`, then `<base>-k.json`. */
  function Candidate(base: string, k: nat): string {
    if k == 0 then base + ".json" else base + "-" + Dec(k) + ".json"
  }

  lemma CandidateInjective(base: string, j: nat, k: nat)
    requires Candidate(base, j) == Candidate(base, k)
    ensures j == k
  {
    if j != 0 && k != 0 {
      var c := Candidate(base, j);
      assert c[|base| + 1..|c| - 5] == Dec(j);
      assert Candidate(base, k)[|base| + 1..|c| - 5] == Dec(k);
      DecInjective(j, k);
    }
  }

  /** Every name the import may choose is listed by the library. */
  lemma CandidateIsJsonName(base: string, k: nat)
    ensures IsJsonName(Candidate(base, k))
  {
  }

  /** The names tried before the n-th. */
  function CandidatesBelow(base: string, n: nat): set<string> {
    if n == 0 then {} else CandidatesBelow(base, n - 1) + {Candidate(base, n - 1)}
  }

  lemma {:induction false} CandidateNotBelow(base: string, n: nat, m: nat)
    requires n <= m
    ensures Candidate(base, m) !in CandidatesBelow(base, n)
  {
    if n > 0 {
      CandidateNotBelow(base, n - 1, m);
      if Candidate(base, n - 1) == Candidate(base, m) {
        CandidateInjective(base, n - 1, m);
      }
    }
  }

  /** `dest` is the first name in the search order that the directory lacks. */
  ghost predicate IsFirstFreeName(files: map<string, FileContent>, base: string, dest: string) {
    exists k: nat ::
      && dest == Candidate(base, k)
      && dest !in files
      && forall j :: 0 <= j < k ==> Candidate(base, j) in files
  }

  /**
    The collision search of `import_notebook`: the first of `<base>.json`,
    `<base>-1.json`, `<base>-2.json`, ... that is not in the directory. It
    stops because every name it skips is a distinct entry of the finite
    directory.
   */
  method FindFreeName(files: map<string, FileContent>, base: string) returns (dest: string, k: nat)
    ensures dest == Candidate(base, k) && dest !in files
    ensures forall j :: 0 <= j < k ==> Candidate(base, j) in files
  {
    dest := base + ".json";
    var i := 1;
    while dest in files
      invariant 1 <= i
      invariant dest == Candidate(base, i - 1)
      invariant forall j :: 0 <= j < i - 1 ==> Candidate(base, j) in files
      invariant CandidatesBelow(base, i - 1) <= files.Keys
      decreases files.Keys - CandidatesBelow(base, i - 1)
    {
      CandidateNotBelow(base, i - 1, i - 1);
      assert CandidatesBelow(base, i) == CandidatesBelow(base, i - 1) + {dest};
      dest := base + "-" + Dec(i) + ".json";
      i := i + 1;
    }
    k := i - 1;
  }
}
