/**
  Slug derivation (`slugify`, foleskine_notes.py:53-55): the file-name stem a
  notebook title is stored under. The regular expression and `str.strip` are
  modelled character by character.
 */
module Slug {

  /** The characters Python's `str.isspace` accepts, i.e. what `str.strip()` removes. */
  predicate IsSpace(c: char) {
    || c == ' '
    || '\t' <= c <= '\r'
    || '\U{1C}' <= c <= '\U{1F}'
    || c == '\U{85}' || c == '\U{A0}' || c == '\U{1680}'
    || '\U{2000}' <= c <= '\U{200A}'
    || c == '\U{2028}' || c == '\U{2029}' || c == '\U{202F}' || c == '\U{205F}' || c == '\U{3000}'
  }

  /** The character class `[a-zA-Z0-9_-]`. */
  predicate Allowed(c: char) {
    'a' <= c <= 'z' || 'A' <= c <= 'Z' || '0' <= c <= '9' || c == '_' || c == '-'
  }

  predicate Disallowed(c: char) { !Allowed(c) }

  predicate IsHyphen(c: char) { c == '-' }

  /** Letters, digits and underscore: the characters a slug carries over from its title. */
  predicate WordChar(c: char) { Allowed(c) && c != '-' }

  /** The stem used when nothing of the title survives. */
  const Fallback: string := "carnet"

  /** Drops leading characters satisfying `drop` (`str.lstrip`). */
  function LStrip(s: string, drop: char -> bool): (r: string)
    ensures |r| <= |s|
  {
    if s != [] && drop(s[0]) then LStrip(s[1..], drop) else s
  }

  /** `LStrip` keeps a suffix, drops only `drop` characters and stops at the first other one. */
  lemma {:induction false} LStripSpec(s: string, drop: char -> bool)
    ensures LStrip(s, drop) == s[|s| - |LStrip(s, drop)|..]
    ensures LStrip(s, drop) == [] || !drop(LStrip(s, drop)[0])
    ensures forall k :: 0 <= k < |s| - |LStrip(s, drop)| ==> drop(s[k])
  {
    if s != [] && drop(s[0]) {
      LStripSpec(s[1..], drop);
    }
  }

  /** Drops trailing characters satisfying `drop` (`str.rstrip`). */
  function RStrip(s: string, drop: char -> bool): (r: string)
    ensures |r| <= |s|
  {
    if s != [] && drop(s[|s| - 1]) then RStrip(s[..|s| - 1], drop) else s
  }

  /** `RStrip` keeps a prefix, drops only `drop` characters and stops at the last other one. */
  lemma {:induction false} RStripSpec(s: string, drop: char -> bool)
    ensures RStrip(s, drop) == s[..|RStrip(s, drop)|]
    ensures RStrip(s, drop) == [] || !drop(RStrip(s, drop)[|RStrip(s, drop)| - 1])
    ensures forall k :: |RStrip(s, drop)| <= k < |s| ==> drop(s[k])
  {
    if s != [] && drop(s[|s| - 1]) {
      RStripSpec(s[..|s| - 1], drop);
    }
  }

  /** Drops characters satisfying `drop` at both ends (`str.strip`). */
  function Strip(s: string, drop: char -> bool): string {
    RStrip(LStrip(s, drop), drop)
  }

  /** `Strip` leaves no `drop` character at either end and invents no character. */
  lemma StripSpec(s: string, drop: char -> bool)
    ensures Strip(s, drop) == [] || (!drop(Strip(s, drop)[0]) && !drop(Strip(s, drop)[|Strip(s, drop)| - 1]))
    ensures forall k :: 0 <= k < |Strip(s, drop)| ==> Strip(s, drop)[k] in s
  {
    var t := LStrip(s, drop);
    var r := RStrip(t, drop);
    LStripSpec(s, drop);
    RStripSpec(t, drop);
    assert forall k :: 0 <= k < |r| ==> r[k] == s[|s| - |t| + k];
  }

  /**
    `re.sub(r"[^a-zA-Z0-9_-]+", "-", s)`: each maximal run of disallowed
    characters becomes a single `-`; allowed characters, `-` included, stay.
   */
  function Squash(s: string): string
    decreases |s|
  {
    if s == [] then []
    else if Allowed(s[0]) then [s[0]] + Squash(s[1..])
    else "-" + Squash(LStrip(s[1..], Disallowed))
  }

  /** After the substitution only `[A-Za-z0-9_-]` is left. */
  lemma {:induction false} SquashAllowed(s: string)
    ensures forall k :: 0 <= k < |Squash(s)| ==> Allowed(Squash(s)[k])
    decreases |s|
  {
    if s == [] {
    } else if Allowed(s[0]) {
      SquashAllowed(s[1..]);
    } else {
      SquashAllowed(LStrip(s[1..], Disallowed));
    }
  }

  /** Left strip stops at a kept last character, so what follows is untouched. */
  lemma {:induction false} LStripAppend(x: string, t: string, drop: char -> bool)
    requires x != [] && !drop(x[|x| - 1])
    ensures LStrip(x + t, drop) == LStrip(x, drop) + t
    ensures LStrip(x, drop) != [] && LStrip(x, drop)[|LStrip(x, drop)| - 1] == x[|x| - 1]
  {
    assert (x + t)[0] == x[0];
    if drop(x[0]) {
      assert (x + t)[1..] == x[1..] + t;
      LStripAppend(x[1..], t, drop);
    }
  }

  /** A run of disallowed characters is stripped up to the allowed character after it. */
  lemma {:induction false} LStripRun(r: string, b: string)
    requires forall k :: 0 <= k < |r| ==> Disallowed(r[k])
    requires b == [] || Allowed(b[0])
    ensures LStrip(r + b, Disallowed) == b
  {
    if r == [] {
      assert r + b == b;
    } else {
      assert (r + b)[0] == r[0];
      assert (r + b)[1..] == r[1..] + b;
      LStripRun(r[1..], b);
    }
  }

  /**
    The substitution replaces a maximal run of disallowed characters (one
    with allowed characters or an end on both sides) by exactly one `-`.
   */
  lemma {:induction false} SquashRun(a: string, r: string, b: string)
    requires a == [] || Allowed(a[|a| - 1])
    requires r != [] && forall k :: 0 <= k < |r| ==> Disallowed(r[k])
    requires b == [] || Allowed(b[0])
    ensures Squash(a + r + b) == Squash(a) + "-" + Squash(b)
    decreases |a|
  {
    if a == [] {
      assert a + r + b == r + b;
      assert (r + b)[0] == r[0];
      assert (r + b)[1..] == r[1..] + b;
      LStripRun(r[1..], b);
    } else if Allowed(a[0]) {
      assert (a + r + b)[0] == a[0];
      assert (a + r + b)[1..] == a[1..] + r + b;
      SquashRun(a[1..], r, b);
    } else {
      var u := a[1..];
      assert (a + r + b)[0] == a[0];
      assert (a + r + b)[1..] == u + (r + b);
      LStripAppend(u, r + b, Disallowed);
      var v := LStrip(u, Disallowed);
      assert v + (r + b) == v + r + b;
      SquashRun(v, r, b);
    }
  }

  /** What `slugify` computes before the fallback. */
  function Core(name: string): string {
    Strip(Squash(Strip(name, IsSpace)), IsHyphen)
  }

  /** A well-formed slug: non-empty, only `[A-Za-z0-9_-]`, no `-` at either end. */
  predicate IsSlug(s: string) {
    && s != []
    && s[0] != '-' && s[|s| - 1] != '-'
    && forall k :: 0 <= k < |s| ==> Allowed(s[k])
  }

  /** Before the fallback, the result is either empty or already a slug. */
  lemma CoreIsSlugOrEmpty(name: string)
    ensures Core(name) == [] || IsSlug(Core(name))
  {
    var squashed := Squash(Strip(name, IsSpace));
    SquashAllowed(Strip(name, IsSpace));
    StripSpec(squashed, IsHyphen);
    var core := Core(name);
    forall k | 0 <= k < |core| ensures Allowed(core[k]) {
      assert core[k] in squashed;
    }
  }

  /** `slugify`. */
  function Slugify(name: string): (r: string)
    ensures IsSlug(r)
  {
    CoreIsSlugOrEmpty(name);
    var core := Core(name);
    if core == [] then Fallback else core
  }

  /** The letters, digits and underscores of `s`, in order. */
  function WordChars(s: string): string {
    if s == [] then [] else (if WordChar(s[0]) then [s[0]] else []) + WordChars(s[1..])
  }

  lemma {:induction false} WordCharsAppend(a: string, b: string)
    ensures WordChars(a + b) == WordChars(a) + WordChars(b)
  {
    if a == [] {
      assert a + b == b;
    } else {
      var head := if WordChar(a[0]) then [a[0]] else [];
      assert (a + b)[0] == a[0];
      assert (a + b)[1..] == a[1..] + b;
      assert WordChars(a + b) == head + WordChars(a[1..] + b);
      WordCharsAppend(a[1..], b);
      assert head + (WordChars(a[1..]) + WordChars(b)) == (head + WordChars(a[1..])) + WordChars(b);
    }
  }

  lemma {:induction false} WordCharsNone(s: string)
    requires forall k :: 0 <= k < |s| ==> !WordChar(s[k])
    ensures WordChars(s) == []
  {
    if s != [] {
      WordCharsNone(s[1..]);
    }
  }

  /** Dropping leading characters that are never word characters keeps the word characters. */
  lemma LStripKeepsWordChars(s: string, drop: char -> bool)
    requires forall c :: drop(c) ==> !WordChar(c)
    ensures WordChars(LStrip(s, drop)) == WordChars(s)
  {
    var t := LStrip(s, drop);
    LStripSpec(s, drop);
    assert s == s[..|s| - |t|] + t;
    WordCharsAppend(s[..|s| - |t|], t);
    WordCharsNone(s[..|s| - |t|]);
  }

  /** Dropping trailing characters that are never word characters keeps the word characters. */
  lemma RStripKeepsWordChars(s: string, drop: char -> bool)
    requires forall c :: drop(c) ==> !WordChar(c)
    ensures WordChars(RStrip(s, drop)) == WordChars(s)
  {
    var r := RStrip(s, drop);
    RStripSpec(s, drop);
    assert s == r + s[|r|..];
    WordCharsAppend(r, s[|r|..]);
    WordCharsNone(s[|r|..]);
  }

  lemma StripKeepsWordChars(s: string, drop: char -> bool)
    requires forall c :: drop(c) ==> !WordChar(c)
    ensures WordChars(Strip(s, drop)) == WordChars(s)
  {
    LStripKeepsWordChars(s, drop);
    RStripKeepsWordChars(LStrip(s, drop), drop);
  }

  /** Replacing runs of disallowed characters by `-` keeps the word characters. */
  lemma {:induction false} SquashKeepsWordChars(s: string)
    ensures WordChars(Squash(s)) == WordChars(s)
    decreases |s|
  {
    if s == [] {
    } else if Allowed(s[0]) {
      assert ([s[0]] + Squash(s[1..]))[1..] == Squash(s[1..]);
      SquashKeepsWordChars(s[1..]);
    } else {
      var t := LStrip(s[1..], Disallowed);
      assert ("-" + Squash(t))[1..] == Squash(t);
      SquashKeepsWordChars(t);
      LStripKeepsWordChars(s[1..], Disallowed);
    }
  }

  /** The letters, digits and underscores of the title survive, in order. */
  lemma CoreKeepsWordChars(name: string)
    ensures WordChars(Core(name)) == WordChars(name)
  {
    StripKeepsWordChars(name, IsSpace);
    SquashKeepsWordChars(Strip(name, IsSpace));
    StripKeepsWordChars(Squash(Strip(name, IsSpace)), IsHyphen);
  }

  /** The fallback is taken exactly when the title has no letter, digit or underscore. */
  lemma FallbackExactlyWhenNoWordChar(name: string)
    ensures Core(name) == [] <==> WordChars(name) == []
  {
    CoreKeepsWordChars(name);
    CoreIsSlugOrEmpty(name);
    var core := Core(name);
    if core != [] {
      assert WordChar(core[0]);
      assert WordChars(core) == [core[0]] + WordChars(core[1..]);
    }
  }

  /** Slugify keeps the title's word characters, or falls back when there are none. */
  lemma SlugifyKeepsWordChars(name: string)
    ensures WordChars(name) == [] ==> Slugify(name) == Fallback
    ensures WordChars(name) != [] ==> WordChars(Slugify(name)) == WordChars(name)
  {
    FallbackExactlyWhenNoWordChar(name);
    CoreKeepsWordChars(name);
  }

  lemma {:induction false} SquashOfAllowed(s: string)
    requires forall k :: 0 <= k < |s| ==> Allowed(s[k])
    ensures Squash(s) == s
  {
    if s != [] {
      SquashOfAllowed(s[1..]);
    }
  }

  lemma StripUnchanged(s: string, drop: char -> bool)
    requires s != [] && !drop(s[0]) && !drop(s[|s| - 1])
    ensures Strip(s, drop) == s
  {
    assert LStrip(s, drop) == s;
    assert RStrip(s, drop) == s;
  }

  lemma AllowedIsNotSpace(c: char)
    requires Allowed(c)
    ensures !IsSpace(c)
  {
  }

  /** Slugify leaves a slug as it is. */
  lemma CoreOfSlug(s: string)
    requires IsSlug(s)
    ensures Core(s) == s
  {
    AllowedIsNotSpace(s[0]);
    AllowedIsNotSpace(s[|s| - 1]);
    StripUnchanged(s, IsSpace);
    SquashOfAllowed(s);
    StripUnchanged(s, IsHyphen);
  }

  /** A slug is a fixed point of Slugify, and only slugs are. */
  lemma SlugifyFixesExactlySlugs(s: string)
    ensures Slugify(s) == s <==> IsSlug(s)
  {
    if IsSlug(s) {
      CoreOfSlug(s);
    }
  }

  /** A worked case: the space of "My Diary" becomes a `-`, and letter case is kept. */
  lemma SlugifyMyDiary()
    ensures Slugify("My Diary") == "My-Diary"
  {
    var title := "My Diary";
    StripUnchanged(title, IsSpace);
    assert title == "My" + " " + "Diary";
    SquashRun("My", " ", "Diary");
    SquashOfAllowed("My");
    SquashOfAllowed("Diary");
    assert Squash(title) == "My-Diary";
    StripUnchanged("My-Diary", IsHyphen);
  }

  lemma SlugifyIdempotent(name: string)
    ensures Slugify(Slugify(name)) == Slugify(name)
  {
    SlugifyFixesExactlySlugs(Slugify(name));
  }
}
