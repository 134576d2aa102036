/** The configuration of app.py (lines 66-67 and 88) and the addresses built
    from it: the metrics CSV that is loaded (line 61) and the overlay and
    preview images that are fetched (lines 50, 125-129 and 223-224). */
module Assets {
  import opened Strings
  import opened Decimal
  import opened RawUrl
  import opened Timeline

  /** The repository's main branch on the raw host; spelled out in pieces so
      that the constants below read as the text app.py has. */
  const RepoRoot := "https://" + RawHost + "/MohammedBaz/MVPUrbanSprawl/main"
  /** `ASSETS_BASE`: the folder of the repository that holds the images,
      "https://raw.githubusercontent.com/MohammedBaz/MVPUrbanSprawl/main/assets/". */
  const AssetsBase := RepoRoot + "/assets" + "/"
  /** `DATA_CSV`: the metrics table, already carrying the marker,
      "https://raw.githubusercontent.com/MohammedBaz/MVPUrbanSprawl/main/saudi_cities_sdg1131_1975_2025.csv?raw=1". */
  const DataCsv := RepoRoot + "/saudi_cities_sdg1131_1975_2025.csv" + RawMarker
  /** The options of the city select box (app.py line 88). */
  const Cities := ["Riyadh", "Jeddah"]

  /** `f"{ASSETS_BASE}{city}_built_{year}.png"` (app.py lines 125-126 and
      223): the built-up image of a city in a year. */
  function AssetUrl(city: string, year: nat): (r: string)
    ensures StartsWith(r, AssetsBase) && EndsWith(r, ".png")
  {
    AssetsBase + city + "_built_" + NatToString(year) + ".png"
  }

  // ---------------------------------------------------------------------

  /** The URL `load_metrics_csv` passes on (app.py line 61) is `DATA_CSV`
      itself, since it already carries the marker. */
  lemma MetricsCsvUrlUnchanged()
    ensures GithubRaw(DataCsv) == DataCsv
  {
    EndsWithContains(DataCsv, RawMarker);
  }

  /** `ASSETS_BASE` contains the raw host name. */
  lemma AssetsBaseOnRawHost()
    ensures Contains(AssetsBase, RawHost)
  {
    var tail := "/MohammedBaz/MVPUrbanSprawl/main" + "/assets" + "/";
    assert AssetsBase == "https://" + RawHost + tail;
    ContainsSelf(RawHost);
    ContainsInside("https://", RawHost, tail, RawHost);
  }

  /** `ASSETS_BASE` has no `?` in it. */
  lemma AssetsBaseLacksQuery()
    ensures Lacks(RepoRoot + "/assets", '?') && Lacks(AssetsBase, '?')
  {
    var path := "/MohammedBaz/MVPUrbanSprawl/main";
    assert Lacks(path, '?');
    LacksConcat("https://", RawHost, '?');
    LacksConcat("https://" + RawHost, path, '?');
    LacksConcat(RepoRoot, "/assets", '?');
    LacksConcat(RepoRoot + "/assets", "/", '?');
  }

  /** The marker can occur in an asset URL only inside the city name: the
      base ends in `/`, the city is followed by `_`, and neither character
      is part of the marker, while the rest has no `?`. */
  lemma AssetUrlMarkerOnlyInCity(city: string, year: nat)
    ensures Contains(AssetUrl(city, year), RawMarker) <==> Contains(city, RawMarker)
  {
    AssetsBaseLacksQuery();
    var b0 := RepoRoot + "/assets";
    var digits := NatToString(year);
    var t1 := "built_" + digits + ".png";
    assert AssetsBase == b0 + ['/'];
    assert AssetUrl(city, year) == b0 + ['/'] + (city + ['_'] + t1);
    MarkerLacksSeparators();
    ContainsAcross(b0, '/', city + ['_'] + t1, RawMarker);
    ContainsAcross(city, '_', t1, RawMarker);
    LacksFirstNotContains(b0, RawMarker);
    FileNameTailLacksQuery(digits);
    LacksFirstNotContains(t1, RawMarker);
  }

  /** The marker starts with `?` and has neither of the characters that
      surround the city name in an asset URL. */
  lemma MarkerLacksSeparators()
    ensures RawMarker[0] == '?' && Lacks(RawMarker, '/') && Lacks(RawMarker, '_')
  {
  }

  /** The part of a file name after the city, `built_<year>.png`, has no `?`. */
  lemma FileNameTailLacksQuery(digits: string)
    requires AllDigits(digits)
    ensures Lacks("built_" + digits + ".png", '?')
  {
    var t1 := "built_" + digits + ".png";
    forall k | 0 <= k < |t1| ensures t1[k] != '?' {
      if 6 <= k < 6 + |digits| {
        assert t1[k] == digits[k - 6];
        assert IsDigit(digits[k - 6]);
      }
    }
  }

  /** What `fetch_image_bytes` requests for an asset (app.py line 50) is the
      asset URL followed by the marker, exactly when the city name does not
      itself contain the marker. */
  lemma AssetFetchUrl(city: string, year: nat)
    ensures GithubRaw(AssetUrl(city, year)) == AssetUrl(city, year) + RawMarker
        <==> !Contains(city, RawMarker)
  {
    var url := AssetUrl(city, year);
    AssetUrlMarkerOnlyInCity(city, year);
    if Contains(city, RawMarker) {
      MarkedUrlUnchanged(url);
      assert |url + RawMarker| != |url|;
    } else {
      AssetsBaseOnRawHost();
      ContainsInPrefix(url, AssetsBase, RawHost);
      RawHostUrlMarked(url);
    }
  }

  /** For the cities the app offers, every asset fetch URL is the asset URL
      followed by the marker. */
  lemma CityAssetFetchUrl(city: string, year: nat)
    requires city in Cities
    ensures GithubRaw(AssetUrl(city, year)) == AssetUrl(city, year) + RawMarker
  {
    assert Lacks(city, '?');
    LacksFirstNotContains(city, RawMarker);
    AssetFetchUrl(city, year);
  }

  /** Different years give different asset URLs for the same city. */
  lemma AssetUrlYearInjective(city: string, y1: nat, y2: nat)
    requires AssetUrl(city, y1) == AssetUrl(city, y2)
    ensures y1 == y2
  {
    var head := AssetsBase + city + "_built_";
    var u1, u2 := AssetUrl(city, y1), AssetUrl(city, y2);
    var d1, d2 := NatToString(y1), NatToString(y2);
    assert u1 == head + (d1 + ".png") && u2 == head + (d2 + ".png");
    assert u1[|head|..] == d1 + ".png" && u2[|head|..] == d2 + ".png";
    assert (d1 + ".png")[..|d1|] == d1;
    assert (d2 + ".png")[..|d2|] == d2;
    NatToStringInjective(y1, y2);
  }

  /** The three images a page view fetches (app.py lines 122-129 and 222-224):
      the slider's year on the left, the end year on the right and the
      preview year, each a year of `YEARS`, each requested as its asset URL
      followed by the marker. */
  lemma OverlayFetchUrls(city: string, yearIndex: int, endYear: nat, previewYear: nat)
    requires city in Cities
    requires 0 <= yearIndex <= |Years| - 1 && endYear in Years && previewYear in Years
    ensures SliderYear(yearIndex) in Years
    ensures GithubRaw(AssetUrl(city, SliderYear(yearIndex))) == AssetUrl(city, SliderYear(yearIndex)) + RawMarker
    ensures GithubRaw(AssetUrl(city, endYear)) == AssetUrl(city, endYear) + RawMarker
    ensures GithubRaw(AssetUrl(city, previewYear)) == AssetUrl(city, previewYear) + RawMarker
  {
    CityAssetFetchUrl(city, SliderYear(yearIndex));
    CityAssetFetchUrl(city, endYear);
    CityAssetFetchUrl(city, previewYear);
  }
}
