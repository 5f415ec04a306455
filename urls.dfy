/**
 * The two pure URL operations of `DocumentationScraper`: the base-URL filter
 * (`is_valid_url`) and the mapping from a crawled URL to a flat `.mdx` file
 * name (`url_to_filename`). `base` is always the scraper's stored base URL,
 * the value given to the constructor with its trailing slashes removed.
 */
module ScraperUrls {
  import opened PyStr

  const EXTENSION: string := ".mdx"
  const INDEX_NAME: string := "index"

  /** The regex class `\w`, restricted to ASCII: letters, digits and `_`. */
  predicate IsWordChar(ch: char) {
    ('a' <= ch <= 'z') || ('A' <= ch <= 'Z') || ('0' <= ch <= '9') || ch == '_'
  }

  /** The regex class `[\w\-_\.]`: the characters kept in a file name. */
  predicate IsFilenameChar(ch: char) {
    IsWordChar(ch) || ch == '-' || ch == '.'
  }

  predicate AllFilenameChars(s: string) {
    forall i :: 0 <= i < |s| ==> IsFilenameChar(s[i])
  }

  predicate NoDoubleUnderscore(s: string) {
    forall i :: 0 < i < |s| ==> !(s[i - 1] == '_' && s[i] == '_')
  }

  /** The base URL with trailing slashes removed, as the constructor stores it. */
  predicate IsStoredBase(base: string) {
    base == [] || base[|base| - 1] != '/'
  }

  // ---------------------------------------------------------------------------
  // is_valid_url
  // ---------------------------------------------------------------------------

  /** Whether a link is crawled: non-empty and, without trailing slashes, starting with `base`. */
  function IsValidUrl(base: string, url: string): (r: bool)
    ensures r ==> url != [] && base <= url
  {
    url != [] && base <= RStrip(url, '/')
  }

  /**
   * For a non-empty stored base, the trailing-slash normalisation makes no
   * difference: a URL passes exactly when `base` is a string prefix of it.
   */
  lemma IsValidUrlIffPrefix(base: string, url: string)
    requires base != [] && IsStoredBase(base)
    ensures IsValidUrl(base, url) <==> base <= url
  {
    if base <= url {
      var r := RStrip(url, '/');
      assert r == url[..|r|];
      assert base == url[..|base|];
    }
  }

  /**
   * The test is on characters, not on path segments: every continuation of
   * the base passes, so `.../knowledgebase` is crawled from `.../knowledge`.
   */
  lemma ContinuationIsValid(base: string, rest: string)
    requires base != [] && IsStoredBase(base)
    ensures IsValidUrl(base, base + rest)
  {
    IsValidUrlIffPrefix(base, base + rest);
  }

  /** The crawl's starting URL passes the filter unless it is empty. */
  lemma SeedIsValid(rawBase: string)
    ensures IsValidUrl(RStrip(rawBase, '/'), rawBase) <==> rawBase != []
  {
  }

  /** A base of only slashes is stored empty, and then every non-empty URL passes. */
  lemma EmptyBaseAcceptsAll(rawBase: string, url: string)
    requires AllAre(rawBase, '/')
    ensures RStrip(rawBase, '/') == []
    ensures IsValidUrl(RStrip(rawBase, '/'), url) <==> url != []
  {
  }

  // ---------------------------------------------------------------------------
  // url_to_filename
  // ---------------------------------------------------------------------------

  /** `re.sub(r'[^\w\-_\.]', '_', s)`: every other character becomes `_`. */
  function Sanitize(s: string): (r: string)
    ensures |r| == |s| && AllFilenameChars(r)
    ensures forall i :: 0 <= i < |s| && IsFilenameChar(s[i]) ==> r[i] == s[i]
    ensures forall i :: 0 <= i < |s| && !IsFilenameChar(s[i]) ==> r[i] == '_'
    ensures AllFilenameChars(s) ==> r == s
  {
    seq(|s|, i requires 0 <= i < |s| => if IsFilenameChar(s[i]) then s[i] else '_')
  }

  /** `s` with every underscore left out. */
  function WithoutUnderscores(s: string): string {
    if s == [] then [] else (if s[0] == '_' then [] else [s[0]]) + WithoutUnderscores(s[1..])
  }

  /**
   * For each gap of `s`, before, between and after its characters other
   * than `_`, whether `s` has an underscore there; `pending` says whether
   * the current gap already holds one.
   */
  function UnderscoreGaps(s: string, pending: bool): (gaps: seq<bool>)
    ensures gaps != [] && gaps[0] == (pending || (s != [] && s[0] == '_'))
  {
    if s == [] then [pending]
    else if s[0] == '_' then UnderscoreGaps(s[1..], true)
    else [pending] + UnderscoreGaps(s[1..], false)
  }

  /**
   * `re.sub(r'_+', '_', s)`: each run of underscores becomes one underscore;
   * every other character is kept, in order.
   */
  function CollapseUnderscores(s: string): (r: string)
    ensures NoDoubleUnderscore(r)
    ensures WithoutUnderscores(r) == WithoutUnderscores(s)
    ensures forall pending :: UnderscoreGaps(r, pending) == UnderscoreGaps(s, pending)
    ensures s != [] ==> r != [] && r[0] == s[0]
    ensures AllFilenameChars(s) ==> AllFilenameChars(r)
    ensures NoDoubleUnderscore(s) ==> r == s
  {
    if |s| <= 1 then s
    else if s[0] == '_' && s[1] == '_' then
      var rest := CollapseUnderscores(s[1..]);
      assert !NoDoubleUnderscore(s) by { assert s[0] == '_' && s[1] == '_'; }
      rest
    else
      var rest := CollapseUnderscores(s[1..]);
      var r := [s[0]] + rest;
      assert r[1..] == rest;
      assert NoDoubleUnderscore(s) ==> NoDoubleUnderscore(s[1..]) by {
        if NoDoubleUnderscore(s) {
          forall i | 0 < i < |s[1..]| ensures !(s[1..][i - 1] == '_' && s[1..][i] == '_') {
            assert s[1..][i - 1] == s[i] && s[1..][i] == s[i + 1];
          }
        }
      }
      assert NoDoubleUnderscore(r) by {
        forall i | 0 < i < |r| ensures !(r[i - 1] == '_' && r[i] == '_') {
          if i > 1 {
            assert r[i - 1] == rest[i - 2] && r[i] == rest[i - 1];
          }
        }
      }
      r
  }

  /**
   * The contract of `CollapseUnderscores` determines its result: a string
   * without `__` that has the same characters other than `_` and the same
   * underscore gaps is the collapsed string.
   */
  lemma CollapseIsDetermined(s: string, t: string)
    requires NoDoubleUnderscore(t)
    requires WithoutUnderscores(t) == WithoutUnderscores(s)
    requires UnderscoreGaps(t, false) == UnderscoreGaps(s, false)
    ensures t == CollapseUnderscores(s)
  {
    GapsDetermine(t, CollapseUnderscores(s), false);
  }

  /** Helper for `CollapseIsDetermined`, by induction on both strings. */
  lemma {:induction false} GapsDetermine(a: string, b: string, pending: bool)
    requires NoDoubleUnderscore(a) && NoDoubleUnderscore(b)
    requires pending ==> (a == [] || a[0] != '_') && (b == [] || b[0] != '_')
    requires WithoutUnderscores(a) == WithoutUnderscores(b)
    requires UnderscoreGaps(a, pending) == UnderscoreGaps(b, pending)
    ensures a == b
    decreases |a| + |b|
  {
    if a == [] || b == [] {
      if a != [] {
        GapsAfterUnderscore(a);
      } else if b != [] {
        GapsAfterUnderscore(b);
      }
    } else {
      NoDoubleTail(a);
      NoDoubleTail(b);
      if a[0] != '_' && b[0] != '_' {
        assert WithoutUnderscores(a) == [a[0]] + WithoutUnderscores(a[1..]);
        assert WithoutUnderscores(b) == [b[0]] + WithoutUnderscores(b[1..]);
        assert a[0] == b[0] && WithoutUnderscores(a[1..]) == WithoutUnderscores(b[1..]) by {
          assert WithoutUnderscores(a)[0] == a[0] && WithoutUnderscores(a)[1..] == WithoutUnderscores(a[1..]);
          assert WithoutUnderscores(b)[0] == b[0] && WithoutUnderscores(b)[1..] == WithoutUnderscores(b[1..]);
        }
        assert UnderscoreGaps(a, pending)[1..] == UnderscoreGaps(a[1..], false);
        assert UnderscoreGaps(b, pending)[1..] == UnderscoreGaps(b[1..], false);
        GapsDetermine(a[1..], b[1..], false);
        assert a == [a[0]] + a[1..] && b == [b[0]] + b[1..];
      } else if a[0] == '_' && b[0] == '_' {
        assert |a| > 1 ==> a[1] != '_';
        assert |b| > 1 ==> b[1] != '_';
        assert WithoutUnderscores(a) == WithoutUnderscores(a[1..]);
        assert WithoutUnderscores(b) == WithoutUnderscores(b[1..]);
        GapsDetermine(a[1..], b[1..], true);
        assert a == [a[0]] + a[1..] && b == [b[0]] + b[1..];
      } else if a[0] == '_' {
        GapsAfterUnderscore(a);
      } else {
        GapsAfterUnderscore(b);
      }
    }
  }

  /** Helper: a leading underscore, never doubled, opens a gap that holds one. */
  lemma GapsAfterUnderscore(s: string)
    requires s != [] && NoDoubleUnderscore(s)
    ensures s[0] == '_' ==> UnderscoreGaps(s, false)[0]
    ensures s[0] != '_' ==> WithoutUnderscores(s) != []
  {
    if |s| > 1 && s[0] == '_' {
      assert s[1] != '_';
    }
  }

  /** Helper: dropping the first character keeps a string free of `__`. */
  lemma NoDoubleTail(s: string)
    requires s != [] && NoDoubleUnderscore(s)
    ensures NoDoubleUnderscore(s[1..])
  {
    forall i | 0 < i < |s[1..]| ensures !(s[1..][i - 1] == '_' && s[1..][i] == '_') {
      assert s[1..][i - 1] == s[i] && s[1..][i] == s[i + 1];
    }
  }

  /** The `path` of lines 64-66: the URL without the base, stripped of slashes, or `index`. */
  function PathOf(base: string, url: string): (path: string)
    ensures path != []
  {
    var stripped := Strip(RemoveAll(url, base), '/');
    if stripped == [] then INDEX_NAME else stripped
  }

  /** The cleaned name of lines 64-73, before the extension is added. */
  function CleanName(base: string, url: string): (name: string)
    ensures AllFilenameChars(name) && NoDoubleUnderscore(name)
  {
    CollapseUnderscores(Sanitize(BeforeFirst(PathOf(base, url), '?')))
  }

  /** `url_to_filename`. */
  function UrlToFilename(base: string, url: string): (r: string)
    ensures EndsWith(r, EXTENSION)
    ensures AllFilenameChars(r) && NoDoubleUnderscore(r)
    ensures r == CleanName(base, url) || r == CleanName(base, url) + EXTENSION
    ensures EndsWith(CleanName(base, url), EXTENSION) ==> r == CleanName(base, url)
  {
    var name := CleanName(base, url);
    if EndsWith(name, EXTENSION) then name
    else
      AppendExtension(name);
      name + EXTENSION
  }

  /** Appending the extension keeps a clean name clean. */
  lemma AppendExtension(name: string)
    requires AllFilenameChars(name) && NoDoubleUnderscore(name)
    ensures EndsWith(name + EXTENSION, EXTENSION)
    ensures AllFilenameChars(name + EXTENSION) && NoDoubleUnderscore(name + EXTENSION)
  {
    var r := name + EXTENSION;
    assert r[|r| - 4..] == EXTENSION;
    forall i | 0 < i < |r| ensures !(r[i - 1] == '_' && r[i] == '_') {
      if i >= |name| {
        assert r[i] == EXTENSION[i - |name|];
      } else {
        assert r[i - 1] == name[i - 1] && r[i] == name[i];
      }
    }
    forall i | 0 <= i < |r| ensures IsFilenameChar(r[i]) {
      if i >= |name| {
        assert r[i] == EXTENSION[i - |name|];
      } else {
        assert r[i] == name[i];
      }
    }
  }

  /** The characters `/` and `?` never survive into a file name. */
  lemma NoSeparatorInFilename(base: string, url: string)
    ensures '/' !in UrlToFilename(base, url) && '?' !in UrlToFilename(base, url)
  {
    NoSeparatorInCleanText(UrlToFilename(base, url));
  }

  /** Helper: the kept characters exclude the URL separators. */
  lemma NoSeparatorInCleanText(s: string)
    requires AllFilenameChars(s)
    ensures '/' !in s && '?' !in s
  {
    forall i | 0 <= i < |s| ensures s[i] != '/' && s[i] != '?' {
      assert IsFilenameChar(s[i]);
    }
  }

  /** The base itself, with or without a trailing slash, is saved as `index.mdx`. */
  lemma BaseIsIndex(base: string)
    requires IsStoredBase(base)
    ensures UrlToFilename(base, base) == "index.mdx"
    ensures UrlToFilename(base, base + "/") == "index.mdx"
  {
    BasePathIsIndex(base);
    IndexFilename(base, base);
    IndexFilename(base, base + "/");
  }

  /** A URL whose `path` falls back to `index` is saved as `index.mdx`. */
  lemma IndexFilename(base: string, url: string)
    requires PathOf(base, url) == INDEX_NAME
    ensures UrlToFilename(base, url) == "index.mdx"
  {
    IndexCleanName(base, url);
    NamedFilename(base, url, INDEX_NAME);
    IndexWithExtension();
  }

  /** Helper: `index` lacks the extension, which is then appended. */
  lemma IndexWithExtension()
    ensures !EndsWith(INDEX_NAME, EXTENSION) && INDEX_NAME + EXTENSION == "index.mdx"
  {
    assert INDEX_NAME[|INDEX_NAME| - 4..] == "ndex";
  }

  /** Helper: the fallback path is also the cleaned name. */
  lemma IndexCleanName(base: string, url: string)
    requires PathOf(base, url) == INDEX_NAME
    ensures CleanName(base, url) == INDEX_NAME
  {
    IndexName();
  }

  /** Helper: the file name in terms of the cleaned name. */
  lemma NamedFilename(base: string, url: string, name: string)
    requires CleanName(base, url) == name
    ensures UrlToFilename(base, url) == if EndsWith(name, EXTENSION) then name else name + EXTENSION
  {
  }

  /** Removing the base leaves nothing, or a lone slash, so `path` falls back to `index`. */
  lemma BasePathIsIndex(base: string)
    requires IsStoredBase(base)
    ensures PathOf(base, base) == INDEX_NAME
    ensures PathOf(base, base + "/") == INDEX_NAME
  {
    if base != [] {
      assert base[..|base|] == base && base[|base|..] == [];
      assert RemoveAll(base, base) == [];
      var slashed := base + "/";
      assert slashed[..|base|] == base && slashed[|base|..] == "/";
      assert RemoveAll("/", base) == "/" by {
        if |base| == 1 {
          assert base != "/";
        }
      }
      assert RemoveAll(slashed, base) == "/";
    }
    assert Strip("/", '/') == [];
  }

  /** The fallback name `index` is kept as it is. */
  lemma IndexName()
    ensures CollapseUnderscores(Sanitize(BeforeFirst(INDEX_NAME, '?'))) == INDEX_NAME
  {
    IndexIsClean();
    assert BeforeFirst(INDEX_NAME, '?') == INDEX_NAME;
    assert Sanitize(INDEX_NAME) == INDEX_NAME;
  }

  /** Helper: `index` has no query mark, only file-name characters and no doubled underscore. */
  lemma IndexIsClean()
    ensures '?' !in INDEX_NAME && AllFilenameChars(INDEX_NAME) && NoDoubleUnderscore(INDEX_NAME)
  {
    var s := INDEX_NAME;
    assert |s| == 5 && s[0] == 'i' && s[1] == 'n' && s[2] == 'd' && s[3] == 'e' && s[4] == 'x';
  }

  /**
   * The `index` fallback is decided before the query is cut off: a URL that
   * is the base followed directly by a query leaves an empty name, saved as
   * the bare extension.
   */
  lemma QueryOnlyIsBareExtension(base: string, query: string)
    requires base != [] && !Occurs(base, "?" + query)
    ensures UrlToFilename(base, base + "?" + query) == EXTENSION
  {
    var url := base + "?" + query;
    QueryOnlyPath(base, query);
    assert BeforeFirst(PathOf(base, url), '?') == [];
    assert CleanName(base, url) == [];
    NamedFilename(base, url, []);
    assert !EndsWith([], EXTENSION);
  }

  /** Helper: the path of `base?query` still starts with the `?`. */
  lemma QueryOnlyPath(base: string, query: string)
    requires base != [] && !Occurs(base, "?" + query)
    ensures PathOf(base, base + "?" + query)[0] == '?'
  {
    var rest := "?" + query;
    assert base + "?" + query == base + rest;
    RemoveAllLeading(base, rest);
    assert rest[0] == '?';
  }

  /** `base + "?q=1"` is saved as `.mdx` whenever the base is longer than the query. */
  lemma QueryOnlyExample(base: string)
    requires |base| > 4
    ensures UrlToFilename(base, base + "?q=1") == ".mdx"
  {
    ShortTextHasNoBase(base, "?q=1");
    assert "?" + "q=1" == "?q=1";
    assert base + "?" + "q=1" == base + "?q=1";
    QueryOnlyIsBareExtension(base, "q=1");
  }

  /** Helper: a text shorter than the base cannot contain it. */
  lemma ShortTextHasNoBase(base: string, t: string)
    requires |t| < |base|
    ensures !Occurs(base, t)
  {
  }

  /** A path that is already a clean file name is kept as the file name. */
  lemma CleanPathKept(base: string, url: string, p: string)
    requires p != [] && AllFilenameChars(p) && NoDoubleUnderscore(p)
    requires Strip(RemoveAll(url, base), '/') == p
    ensures UrlToFilename(base, url) == if EndsWith(p, EXTENSION) then p else p + EXTENSION
  {
    NoSeparatorInCleanText(p);
    assert PathOf(base, url) == p;
    assert BeforeFirst(p, '?') == p;
    assert CleanName(base, url) == p;
    NamedFilename(base, url, p);
  }

  /** `Strip` of a slash-bracketed clean segment gives the segment back. */
  lemma StripSlashes(p: string, lead: string, trail: string)
    requires p != [] && AllFilenameChars(p)
    requires lead == "/" || lead == []
    requires trail == "/" || trail == []
    ensures Strip(lead + p + trail, '/') == p
  {
    assert IsFilenameChar(p[0]) && IsFilenameChar(p[|p| - 1]);
    var s := lead + p + trail;
    assert s == lead + (p + trail);
    LStripSlash(p + trail, lead);
    assert LStrip(s, '/') == p + trail;
    RStripSlash(p, trail);
    assert RStrip(LStrip(s, '/'), '/') == p;
  }

  /** Helper: at most one leading slash in front of a non-slash is dropped. */
  lemma LStripSlash(s: string, lead: string)
    requires s != [] && s[0] != '/'
    requires lead == "/" || lead == []
    ensures LStrip(lead + s, '/') == s
  {
    if lead == "/" {
      assert (lead + s)[1..] == s;
    } else {
      assert lead + s == s;
    }
  }

  /** Helper: at most one trailing slash behind a non-slash is dropped. */
  lemma RStripSlash(s: string, trail: string)
    requires s != [] && s[|s| - 1] != '/'
    requires trail == "/" || trail == []
    ensures RStrip(s + trail, '/') == s
  {
    if trail == "/" {
      assert (s + trail)[..|s + trail| - 1] == s;
    } else {
      assert s + trail == s;
    }
  }

  /** The URL `base/p`, for a clean segment `p`, is saved as `p.mdx` (or `p` if it already ends in `.mdx`). */
  lemma CleanSegmentFilename(base: string, p: string)
    requires base != [] && !Occurs(base, "/" + p)
    requires p != [] && AllFilenameChars(p) && NoDoubleUnderscore(p)
    ensures UrlToFilename(base, base + "/" + p) == if EndsWith(p, EXTENSION) then p else p + EXTENSION
  {
    var rest := "/" + p;
    var url := base + "/" + p;
    assert url == base + rest;
    RemoveAllLeading(base, rest);
    StripSlashes(p, "/", []);
    assert rest + [] == rest;
    CleanPathKept(base, url, p);
  }

  /**
   * Every occurrence of the base is removed, not only the leading one: a URL
   * that repeats the base after a clean segment is saved under the segment
   * alone.
   */
  lemma BaseRemovedEverywhere(base: string, p: string)
    requires base != []
    requires forall i :: 0 <= i < |p| + 2 ==> !MatchAt("/" + p + "/" + base, base, i)
    requires p != [] && AllFilenameChars(p) && NoDoubleUnderscore(p)
    ensures UrlToFilename(base, base + "/" + p + "/" + base) == if EndsWith(p, EXTENSION) then p else p + EXTENSION
  {
    var mid := "/" + p + "/";
    assert mid + base == "/" + p + "/" + base;
    RemoveAllEveryOccurrence(mid, base);
    assert base + "/" + p + "/" + base == base + mid + base;
    StripSlashes(p, "/", "/");
    CleanPathKept(base, base + "/" + p + "/" + base, p);
  }

  /**
   * Distinct URLs can share a file name: `base/a/b` and `base/a_b` are both
   * saved as `a_b.mdx`, so the later page overwrites the earlier one.
   */
  lemma DistinctUrlsShareFilename(base: string)
    requires |base| > 4
    ensures base + "/a/b" != base + "/a_b"
    ensures UrlToFilename(base, base + "/a/b") == "a_b.mdx"
    ensures UrlToFilename(base, base + "/a_b") == "a_b.mdx"
  {
    assert (base + "/a/b")[|base| + 2] != (base + "/a_b")[|base| + 2];
    SegmentAB(base, "/a/b", "a/b");
    SegmentAB(base, "/a_b", "a_b");
  }

  /** Helper: one of the two URLs of `DistinctUrlsShareFilename`. */
  lemma SegmentAB(base: string, rest: string, p: string)
    requires |base| > 4
    requires (rest == "/a/b" && p == "a/b") || (rest == "/a_b" && p == "a_b")
    ensures UrlToFilename(base, base + rest) == "a_b.mdx"
  {
    SegmentFilename(base, rest, p);
    SanitizeAB();
    CollapseAB();
    NamedFilename(base, base + rest, "a_b");
  }

  /** Helper: the slash between `a` and `b` is replaced, the underscore kept. */
  lemma SanitizeAB()
    ensures Sanitize("a/b") == "a_b" && Sanitize("a_b") == "a_b"
  {
    assert !IsFilenameChar('/') && IsFilenameChar('a') && IsFilenameChar('_') && IsFilenameChar('b');
  }

  /** Helper: the shared tail of `DistinctUrlsShareFilename`. */
  lemma SegmentFilename(base: string, rest: string, p: string)
    requires |base| > 4 && |rest| == 4 && rest == "/" + p && '?' !in p
    requires p[0] != '/' && p[|p| - 1] != '/'
    ensures CleanName(base, base + rest) == CollapseUnderscores(Sanitize(p))
  {
    var url := base + rest;
    ShortTextHasNoBase(base, rest);
    RemoveAllLeading(base, rest);
    assert rest[1..] == p;
    assert LStrip(rest, '/') == p;
    assert Strip(rest, '/') == p;
    assert PathOf(base, url) == p;
  }

  /** Helper: `a_b` has no run of underscores and does not end in the extension. */
  lemma CollapseAB()
    ensures CollapseUnderscores("a_b") == "a_b"
    ensures !EndsWith("a_b", EXTENSION) && "a_b" + EXTENSION == "a_b.mdx"
  {
    assert NoDoubleUnderscore("a_b");
  }
}
