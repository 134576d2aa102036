/** The `github_raw` helper of app.py (lines 38-45): turns a GitHub page URL
    into a direct-download URL by appending the `?raw=1` marker. The checks
    are substring tests made in a fixed order; the first that succeeds
    decides the result. */
module RawUrl {
  import opened Strings

  /** The query marker that asks GitHub for the raw file. */
  const RawMarker := "?raw=1"
  /** The host that serves raw file contents. */
  const RawHost := "raw.githubusercontent.com"
  /** The host of GitHub's web pages. */
  const WebHost := "github.com"
  /** The path segment of a file page on GitHub's web interface. */
  const BlobSegment := "/blob/"

  /** A URL with every `github.com` replaced by the raw host name and every
      `/blob/` replaced by `/` (the rewrite inside app.py line 44, before the
      marker is appended). */
  function RawPath(url: string): string
  {
    ReplaceAll(ReplaceAll(url, WebHost, RawHost), BlobSegment, "/")
  }

  function GithubRaw(url: string): (r: string)
    ensures r == url || EndsWith(r, RawMarker)
  {
    if Contains(url, RawMarker) then url
    else if Contains(url, RawHost) then url + RawMarker
    else if Contains(url, WebHost) && Contains(url, BlobSegment) then RawPath(url) + RawMarker
    else url
  }

  // ---------------------------------------------------------------------
  // The four branches, in the order app.py tests them

  /** A URL that already carries the marker is returned as it is, whatever
      else it contains. */
  lemma MarkedUrlUnchanged(url: string)
    requires Contains(url, RawMarker)
    ensures GithubRaw(url) == url
  {
  }

  /** A URL that contains the raw host name but not the marker gets exactly
      the marker appended. */
  lemma RawHostUrlMarked(url: string)
    requires !Contains(url, RawMarker) && Contains(url, RawHost)
    ensures GithubRaw(url) == url + RawMarker
  {
  }

  /** A URL that mentions `github.com` and `/blob/` (anywhere, not only as its
      host and path) has both replaced and gets the marker; the result
      contains the raw host name. */
  lemma BlobUrlRewritten(url: string)
    requires !Contains(url, RawMarker) && !Contains(url, RawHost)
    requires Contains(url, WebHost) && Contains(url, BlobSegment)
    ensures GithubRaw(url) == RawPath(url) + RawMarker
    ensures Contains(GithubRaw(url), RawHost) && EndsWith(GithubRaw(url), RawMarker)
  {
    var r := RawPath(url);
    assert GithubRaw(url) == r + RawMarker;
    RawPathContainsRawHost(url);
    ContainsAppend(r, RawMarker, RawHost);
  }

  /** Any other URL is returned as it is. */
  lemma OtherUrlUnchanged(url: string)
    requires !Contains(url, RawMarker) && !Contains(url, RawHost)
    requires !(Contains(url, WebHost) && Contains(url, BlobSegment))
    ensures GithubRaw(url) == url
  {
  }

  // ---------------------------------------------------------------------
  // What the branches add up to

  /** Replacing `github.com` in a URL that mentions it leaves the raw
      host name in it: the first `replace` inserts it, and the second cannot touch
      it because it has no `/`. */
  lemma RawPathContainsRawHost(url: string)
    requires Contains(url, WebHost)
    ensures Contains(RawPath(url), RawHost)
  {
    var moved := ReplaceAll(url, WebHost, RawHost);
    ReplaceAllInserts(url, WebHost, RawHost);
    RawHostLacksSlash();
    assert BlobSegment[0] == '/' && BlobSegment[|BlobSegment| - 1] == '/';
    ReplaceAllKeeps(moved, RawHost, BlobSegment, "/");
  }

  /** The raw host name has no `/`, the character `/blob/` starts and ends with. */
  lemma RawHostLacksSlash()
    ensures Lacks(RawHost, '/')
  {
  }

  /** `github_raw` changes a URL exactly when it lacks the marker and either
      contains the raw host name or mentions both `github.com` and `/blob/`. */
  lemma GithubRawChangesIff(url: string)
    ensures GithubRaw(url) != url <==>
      !Contains(url, RawMarker) &&
      (Contains(url, RawHost) || (Contains(url, WebHost) && Contains(url, BlobSegment)))
  {
    var r := GithubRaw(url);
    if !Contains(url, RawMarker) && r != url {
      assert EndsWith(r, RawMarker);
      EndsWithContains(r, RawMarker);
    }
    if !Contains(url, RawMarker) && (Contains(url, RawHost) || (Contains(url, WebHost) && Contains(url, BlobSegment))) {
      assert EndsWith(r, RawMarker);
      EndsWithContains(r, RawMarker);
      assert r != url;
    }
  }

  /** A URL that `github_raw` changes comes out containing the raw host name
      and carrying the marker at its end. */
  lemma GithubRawChangedIsRaw(url: string)
    requires GithubRaw(url) != url
    ensures Contains(GithubRaw(url), RawHost) && EndsWith(GithubRaw(url), RawMarker)
  {
    if Contains(url, RawHost) {
      ContainsAppend(url, RawMarker, RawHost);
    } else {
      BlobUrlRewritten(url);
    }
  }

  /** Applying `github_raw` twice is the same as applying it once. */
  lemma GithubRawIdempotent(url: string)
    ensures GithubRaw(GithubRaw(url)) == GithubRaw(url)
  {
    var r := GithubRaw(url);
    if r != url {
      EndsWithContains(r, RawMarker);
    }
  }
}
