/**
 * How the crawler names the file a fetched page is saved to: the URL with
 * every "https://" removed and every '/' turned into '-', followed by
 * ".html", joined onto the output directory.
 */
module Filenames {
  import opened PyStr
  import opened PosixPath

  /** The scheme prefix that `url_to_filename` deletes. */
  const Scheme: string := "https://"

  const Extension: string := ".html"

  /** `url_to_filename`: delete every "https://", then replace every '/' by '-'. */
  function UrlToFilename(url: string): (name: string)
    ensures Sep !in name
    ensures !Contains(name, Scheme)
    ensures |name| <= |url|
  {
    var stripped := Replace(url, Scheme, "");
    ReplaceLength(url, Scheme, "");
    ReplaceCharPointwise(stripped, '/', '-');
    var name := Replace(stripped, "/", "-");
    NoSeparatorNoScheme(name);
    name
  }

  /** Every occurrence of "https://" contains a '/', so a string without '/' cannot contain it. */
  lemma NoSeparatorNoScheme(s: string)
    requires Sep !in s
    ensures !Contains(s, Scheme)
  {
    forall i: int
      ensures !OccursAt(s, Scheme, i)
    {
      if 0 <= i && i + |Scheme| <= |s| {
        assert s[i + 6] in s;
        assert s[i..i + |Scheme|][6] == s[i + 6] != Scheme[6];
      }
    }
  }

  lemma SchemeHeadUnique()
    ensures HeadUnique(Scheme)
  {
  }

  /**
   * The name is the URL with 8 characters removed for each "https://" in it
   * (counting every position where it starts, which is the same as counting
   * the non-overlapping matches because "https://" cannot overlap itself).
   */
  lemma UrlToFilenameLength(url: string)
    ensures |UrlToFilename(url)| == |url| - 8 * Occurrences(url, Scheme)
    ensures |UrlToFilename(url)| == |url| <==> !Contains(url, Scheme)
  {
    var stripped := Replace(url, Scheme, "");
    ReplaceLength(url, Scheme, "");
    assert |stripped| == |url| - 8 * Count(url, Scheme);
    ReplaceCharPointwise(stripped, '/', '-');
    assert |UrlToFilename(url)| == |stripped|;
    SchemeHeadUnique();
    CountIsOccurrences(url, Scheme);
    CountZeroIff(url, Scheme);
  }

  /**
   * A URL without "https://" is renamed position by position: each '/'
   * becomes '-' and every other character is kept.
   */
  lemma UrlToFilenamePointwise(url: string)
    requires !Contains(url, Scheme)
    ensures |UrlToFilename(url)| == |url|
    ensures forall i :: 0 <= i < |url| ==>
      UrlToFilename(url)[i] == (if url[i] == Sep then '-' else url[i])
  {
    ReplaceWithoutMatch(url, Scheme, "");
    ReplaceCharPointwise(url, '/', '-');
  }

  /** A string is left unchanged exactly when it contains no '/'. */
  lemma UrlToFilenameFixedPoint(s: string)
    ensures UrlToFilename(s) == s <==> Sep !in s
  {
    if Sep !in s {
      NoSeparatorNoScheme(s);
      UrlToFilenamePointwise(s);
      assert UrlToFilename(s) == s;
    }
  }

  /** Renaming a name a second time changes nothing. */
  lemma UrlToFilenameIdempotent(url: string)
    ensures UrlToFilename(UrlToFilename(url)) == UrlToFilename(url)
  {
    UrlToFilenameFixedPoint(UrlToFilename(url));
  }

  /**
   * Each "https://" in a URL simply vanishes from the name: the name of
   * `x + "https://" + y` is the name of `x` followed by the name of `y`.
   */
  lemma UrlToFilenameSplitsAtScheme(x: string, y: string)
    ensures UrlToFilename(x + Scheme + y) == UrlToFilename(x) + UrlToFilename(y)
  {
    SchemeHeadUnique();
    ReplaceSplit(x, Scheme, "", y);
    var sx, sy := Replace(x, Scheme, ""), Replace(y, Scheme, "");
    assert Replace(x + Scheme + y, Scheme, "") == sx + sy;
    ReplaceCharConcat(sx, sy, '/', '-');
  }

  /** A leading scheme is dropped: the name of "https://" + `y` is the name of `y`. */
  lemma UrlToFilenameDropsLeadingScheme(y: string)
    ensures UrlToFilename(Scheme + y) == UrlToFilename(y)
  {
    SchemeHeadUnique();
    AtMatch(Scheme, "", y);
    assert Replace(Scheme + y, Scheme, "") == Replace(y, Scheme, "");
  }

  /** Distinct URLs can share a name: with and without the scheme, and with '-' in place of '/'. */
  lemma UrlToFilenameNotInjective()
    ensures UrlToFilename("https://a/b") == "a-b"
    ensures UrlToFilename("a/b") == "a-b"
    ensures UrlToFilename("a-b") == "a-b"
  {
    assert "https://a/b"[..8] == Scheme;
    assert "https://a/b"[8..] == "a/b";
    assert Replace("a/b", Scheme, "") == "a/b";
    assert Replace("https://a/b", Scheme, "") == "a/b";
    UrlToFilenamePointwise("a/b");
    UrlToFilenameFixedPoint("a-b");
  }

  /** A name plus ".html" is a non-empty component without '/'. */
  lemma ComponentIsRelative(url: string)
    ensures var c := UrlToFilename(url) + Extension; |c| > 0 && Sep !in c
  {
    var n := UrlToFilename(url);
    assert Sep !in n;
    assert Sep !in Extension;
  }

  /** The path `save_to_file` opens for `url`: `outputDir`, at most one separator, then the name and ".html". */
  function SavePath(outputDir: string, url: string): (p: string)
    ensures var c := UrlToFilename(url) + Extension;
      && |outputDir| + |c| <= |p| <= |outputDir| + 1 + |c|
      && p[..|outputDir|] == outputDir
      && p[|p| - |c|..] == c
  {
    var c := UrlToFilename(url) + Extension;
    ComponentIsRelative(url);
    assert c[0] in c;
    Join(outputDir, c)
  }

  /**
   * The saved file lies directly inside `outputDir`: the path is the
   * directory, then a separator unless the directory is empty or already ends
   * in one, then one component that has no '/', is the basename of the path,
   * and ends in ".html".
   */
  lemma SavePathInsideDir(outputDir: string, url: string)
    ensures var p, c := SavePath(outputDir, url), UrlToFilename(url) + Extension;
      && Sep !in c
      && |c| >= |Extension| && c[|c| - |Extension|..] == Extension
      && |outputDir| <= |p| && p[..|outputDir|] == outputDir
      && p[|p| - |c|..] == c
      && p[..|p| - |c|] == (if outputDir == [] || outputDir[|outputDir| - 1] == Sep then outputDir else outputDir + [Sep])
      && Basename(p) == c
  {
    var c := UrlToFilename(url) + Extension;
    assert c[|c| - |Extension|..] == Extension;
    assert Sep !in c by {
      assert Sep !in UrlToFilename(url);
      assert Sep !in Extension;
    }
    JoinComponent(outputDir, c);
  }

  /**
   * Two URLs are saved to the same path exactly when they get the same name;
   * since the file is opened for writing, the later save replaces the earlier.
   */
  lemma SavePathCollision(outputDir: string, u1: string, u2: string)
    ensures SavePath(outputDir, u1) == SavePath(outputDir, u2) <==> UrlToFilename(u1) == UrlToFilename(u2)
  {
    var n1, n2 := UrlToFilename(u1), UrlToFilename(u2);
    var c1, c2 := n1 + Extension, n2 + Extension;
    if SavePath(outputDir, u1) == SavePath(outputDir, u2) {
      SavePathInsideDir(outputDir, u1);
      SavePathInsideDir(outputDir, u2);
      assert Basename(SavePath(outputDir, u1)) == c1;
      assert c1 == c2;
      assert n1 == c1[..|n1|] && n2 == c2[..|n2|];
    }
  }

  /** The three URLs of `UrlToFilenameNotInjective` are all written to one file. */
  lemma SavePathOverwrites(outputDir: string)
    ensures SavePath(outputDir, "https://a/b") == SavePath(outputDir, "a/b") == SavePath(outputDir, "a-b")
  {
    UrlToFilenameNotInjective();
  }
}
