/** `DetectArchiveFormat` (internal/downloader/downloader.go): the archive
    format named by the URL's extension. */
module Downloader {
  import opened FilePath

  predicate HasSuffix(s: string, x: string) {
    |x| <= |s| && s[|s| - |x|..] == x
  }

  /** "tar.gz" for a URL ending in ".tar.gz", "zip" for extension ".zip",
      and "tar.gz" for anything else. */
  function DetectArchiveFormat(url: string): (format: string)
    ensures format == "tar.gz" || format == "zip"
  {
    var ext := Ext(url);
    if ext == ".gz" && |url| > 7 && url[|url| - 7..] == ".tar.gz" then "tar.gz"
    else if ext == ".zip" then "zip"
    else "tar.gz"
  }

  /** The ".tar.gz" test adds nothing: only the extension decides. */
  lemma OnlyExtensionDecides(url: string)
    ensures DetectArchiveFormat(url) == if Ext(url) == ".zip" then "zip" else "tar.gz"
  {
  }

  lemma TarGzUrl(url: string)
    requires HasSuffix(url, ".tar.gz")
    ensures DetectArchiveFormat(url) == "tar.gz"
  {
    var p := url[..|url| - 3];
    assert url == p + "." + "gz";
    ExtOfSuffix(p, "gz");
  }

  lemma ZipUrl(url: string)
    requires HasSuffix(url, ".zip")
    ensures DetectArchiveFormat(url) == "zip"
  {
    var p := url[..|url| - 4];
    assert url == p + "." + "zip";
    ExtOfSuffix(p, "zip");
  }

  /** A query string after ".zip" makes the extension ".zip?x=1", which
      falls back to "tar.gz". */
  lemma ZipWithQueryIsTarGz()
    ensures DetectArchiveFormat("https://h/a.zip?x=1") == "tar.gz"
  {
    var p := "https://h/a";
    var x := "zip?x=1";
    assert "https://h/a.zip?x=1" == p + "." + x;
    ExtOfSuffix(p, x);
  }

  /** An extension of ".gz" alone is not ".tar.gz" and falls back to
      "tar.gz" all the same. */
  lemma GzAloneIsTarGz()
    ensures DetectArchiveFormat("https://h/a.gz") == "tar.gz"
  {
    var p := "https://h/a";
    assert "https://h/a.gz" == p + "." + "gz";
    ExtOfSuffix(p, "gz");
  }
}
