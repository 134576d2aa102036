# Satellite explorer: URL normalisation and asset addressing

`app.py` is a Streamlit page that shows built-up-area imagery of Saudi cities
from a GitHub repository next to a small metrics table. Almost all of it is
widget, map and chart plumbing. Its self-contained logic is this:

- `github_raw` turns a GitHub URL into a direct-download URL. It checks, in
  order, whether the URL already contains `?raw=1`, whether it contains
  `raw.githubusercontent.com`, and whether it mentions both `github.com` and
  `/blob/`. All three are substring tests anywhere in the URL, not checks of
  its host. Every fetch goes through it.
- The configuration: `ASSETS_BASE`, `DATA_CSV`, the city options and the
  `YEARS` list.
- How a year is chosen: the start/end order check, which compares positions in
  `YEARS`, and the slider, which picks a year by index.
- How an image URL is built: `f"{ASSETS_BASE}{city}_built_{year}.png"`, with the
  year formatted in decimal.

The model is pure, like the code: functions and lemmas, with no state.

- `strings.dfy` (module `Strings`): Python's `in`, `startswith`/`endswith` and
  `str.replace` on `seq<char>`. `replace` is also tied to `split`/`join`, an
  independent definition of the same operation.
- `decimal.dfy` (module `Decimal`): `str(n)` for the year in a file name, and
  `int(s)` as its inverse.
- `raw_url.dfy` (module `RawUrl`): `github_raw`. One lemma per branch, plus the
  laws the branches add up to: the result is the input or ends with `?raw=1`,
  an exact characterisation of when the URL changes, and idempotence.
- `timeline.dfy` (module `Timeline`): `YEARS`, `list.index`, the order check
  and the slider.
- `assets.dfy` (module `Assets`): the constants and the asset URL builder.
  Also the URLs actually requested: `DATA_CSV` is passed on unchanged, and an
  asset is requested as its URL followed by `?raw=1`.

## Model

| member | source | states |
|---|---|---|
| `Strings.Contains` | app.py:39-43 | Python's `w in s`: `w` occurs at some index of `s` (the empty string occurs everywhere) |
| `Strings.ReplaceAll` | app.py:44 | Python's `s.replace(pat, rep)`: scanning from the left, every non-overlapping occurrence is replaced; `Strings.ReplaceAllIsJoinSplit` ties it to `rep.join(s.split(pat))` |
| `RawUrl.RawPath` | app.py:44 | Every `github.com` becomes `raw.githubusercontent.com`, then every `/blob/` becomes `/` |
| `RawUrl.GithubRaw` | app.py:38-45 | The result is either the input or ends with `?raw=1` |
| `RawUrl.MarkedUrlUnchanged` | app.py:39-40 | A URL containing `?raw=1` is returned unchanged, whatever else it contains (the first test wins) |
| `RawUrl.RawHostUrlMarked` | app.py:41-42 | A URL without `?raw=1` that contains `raw.githubusercontent.com` becomes exactly `url + "?raw=1"` |
| `RawUrl.BlobUrlRewritten` | app.py:43-44 | A URL that does not contain `?raw=1` or `raw.githubusercontent.com`, but mentions `github.com` and `/blob/`: every `github.com` becomes `raw.githubusercontent.com`, then every `/blob/` becomes `/`, then `?raw=1` is appended; the result contains `raw.githubusercontent.com` and ends with the marker |
| `RawUrl.OtherUrlUnchanged` | app.py:45 | Every other URL is returned unchanged |
| `RawUrl.RawPathContainsRawHost` | app.py:44 | After the two replacements, a URL that named `github.com` contains `raw.githubusercontent.com`; the `/blob/` replacement cannot break the inserted host |
| `RawUrl.GithubRawChangesIff` | app.py:38-45 | `github_raw` changes a URL if and only if the URL does not contain `?raw=1` and either contains `raw.githubusercontent.com` or mentions both `github.com` and `/blob/` |
| `RawUrl.GithubRawChangedIsRaw` | app.py:38-45 | A URL that `github_raw` changes comes out containing `raw.githubusercontent.com` and ending with `?raw=1` |
| `RawUrl.GithubRawIdempotent` | app.py:38-45 | `github_raw(github_raw(u)) == github_raw(u)` for every `u` |
| `Strings.ReplaceAllAbsent` | app.py:44 | `str.replace` returns its input when the pattern does not occur |
| `Strings.ReplaceAllSelf` | app.py:44 | Replacing a pattern by itself changes nothing |
| `Strings.ReplaceAllInserts` | app.py:44 | If the pattern occurs, the result of `replace` contains the replacement text |
| `Strings.ReplaceAllKeeps` | app.py:44 | An occurrence of a piece at least as long as the pattern, and lacking the pattern's first and last characters, survives `replace` |
| `Strings.ReplaceAllIsJoinSplit` | app.py:44 | `s.replace(p, r) == r.join(s.split(p))` for every `s`, `r` and non-empty `p` |
| `Strings.SplitJoinRoundTrip` | app.py:44 | `p.join(s.split(p)) == s`: splitting and joining on the same separator gives back the input |
| `Strings.SplitPiecesLackSeparator` | app.py:44 | No piece produced by `split` contains the separator |
| `Decimal.NatToString` | app.py:125-126 | The year in a file name is formatted as at least one decimal digit, with no leading zero except for 0; a number below 10 is its single digit, so `0` is exactly `"0"` |
| `Decimal.ParseNatToString` | app.py:125-126 | Parsing the formatted year gives back the year |
| `Decimal.NatToStringInjective` | app.py:125-126 | Different years are formatted differently |
| `Timeline.Years` | app.py:70 | `YEARS = [2014, 2015, 2020, 2025]` |
| `Timeline.YearOrderError` | app.py:91 | "Start year must be <= end year" is shown when `YEARS.index(start) > YEARS.index(end)`; `Timeline.YearOrderErrorIffLater` states when that happens |
| `Timeline.YearsStrictlyIncreasing` | app.py:70 | `YEARS` is strictly increasing, so its entries are distinct |
| `Timeline.IndexOf` | app.py:91 | `list.index(x)` of a member returns a position holding `x`, and no earlier position holds `x` |
| `Timeline.IndexOfDistinct` | app.py:91 | In a strictly increasing list, `index` finds every position exactly |
| `Timeline.IndexOrderIsValueOrder` | app.py:91 | In a strictly increasing list, `index(a) > index(b)` holds exactly when `a > b` |
| `Timeline.YearOrderErrorIffLater` | app.py:91 | The "Start year must be <= end year" error is shown exactly when the start year is later than the end year |
| `Timeline.SliderYear` | app.py:122 | Every slider index in `0 .. len(YEARS) - 1` (app.py:102) selects a member of `YEARS`, and `YEARS.index` maps that year back to the index |
| `Timeline.DefaultsInOrder` | app.py:89-90 | The default start year (first) and end year (last) give no order error, and no year of `YEARS` lies before the first or after the year the slider's default index (app.py:102) selects |
| `Assets.AssetsBase` | app.py:66 | `ASSETS_BASE`, `https://raw.githubusercontent.com/MohammedBaz/MVPUrbanSprawl/main/assets/` |
| `Assets.DataCsv` | app.py:67 | `DATA_CSV`, the metrics CSV on the raw host with `?raw=1` already appended |
| `Assets.Cities` | app.py:88 | The city select box's options, `Riyadh` and `Jeddah` |
| `Assets.AssetUrl` | app.py:125-126 | An asset URL starts with `ASSETS_BASE` and ends with `.png` |
| `Assets.AssetsBaseOnRawHost` | app.py:66 | `ASSETS_BASE` contains `raw.githubusercontent.com` |
| `Assets.AssetsBaseLacksQuery` | app.py:66 | `ASSETS_BASE`, and the folder path before its final `/`, contain no `?` |
| `Assets.MetricsCsvUrlUnchanged` | app.py:60-67 | `DATA_CSV` already carries `?raw=1`, so the URL `load_metrics_csv` reads is `DATA_CSV` unchanged |
| `Assets.AssetUrlMarkerOnlyInCity` | app.py:125-126 | An asset URL contains `?raw=1` exactly when the city name does |
| `Assets.AssetFetchUrl` | app.py:48-50 | The URL `fetch_image_bytes` requests for an asset is the asset URL followed by `?raw=1` if and only if the city name does not itself contain `?raw=1` |
| `Assets.CityAssetFetchUrl` | app.py:88 | For both cities the select box offers, every asset is requested as its URL followed by `?raw=1` |
| `Assets.AssetUrlYearInjective` | app.py:125-126 | For one city, different years give different asset URLs |
| `Assets.OverlayFetchUrls` | app.py:122-129 | The left overlay (slider year), right overlay (end year) and preview image (app.py:222-224) are each requested as their asset URL followed by `?raw=1`, and the slider's year is a member of `YEARS` |

## Left out

- `fetch_image_bytes` (app.py:48-57) and `load_metrics_csv` (app.py:60-62) do network I/O and parse CSV with pandas. The model covers only the URL each one passes on.
- Streamlit widgets, layout, `session_state`, `experimental_rerun`, the "Swap left/right" index swap (app.py:235-240) and the play loop with `time.sleep` (app.py:254-259) are left out. They are UI and rerun control flow. The widgets' possible values appear only where they bound other inputs: city options, year options and the slider range.
- The Folium `DualMap`, `ImageOverlay`, `Draw` and `LayerControl`, and the Plotly chart (app.py:116-176), are left out. They are third-party rendering.
- The bounding-box centre arithmetic (app.py:116-119) and the AOI built-up difference with its number formatting (app.py:193-197) are left out. They are floating-point values shown as they are, with no contract.
- The DataFrame row lookup by city (app.py:169, 191, 209) and the CSV download (app.py:245-250) are left out. They are pandas library calls.
- `app.py` computes no SDG 11.3.1 ratio. It only displays the precomputed `SDG 11.3.1 Ratio (2020-25)` column read from the CSV (app.py:214).
- Timeline.IndexOf: requires its argument to be in the list, so Python's `ValueError` for a missing element is not modelled; every call (app.py:91) passes a year chosen from a select box over `YEARS` (app.py:89-90).
- Strings.ReplaceAll: models `str.replace` only for a non-empty pattern. Python also accepts an empty pattern, but every call in app.py uses a fixed non-empty one.
- Decimal.NatToString: models `str()` only for non-negative integers, with no minus sign. Every year in `YEARS` is positive.
