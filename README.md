# ytb-download: a verified model of the format catalogue, size printer and progress hook

ytb-download is a pair of small Flask backends around yt-dlp. A browser
sends a video URL. The backend asks yt-dlp for the video's formats,
returns a list the user can pick from, and then asks yt-dlp to download
the chosen format. Almost all of the work happens inside yt-dlp and FFmpeg.
This project models the backends' own logic in Dafny and proves what it
promises:

- **web_app.py**
  - the format catalogue of `/api/formats`:
    - the first audio-only m4a track;
    - the mp4 video formats with known dimensions, each with its size
      including that audio and its `WxH` label;
    - a synthetic "Best Quality" entry;
    - a stable sort by (height, fps) from the top;
    - deduplication by label, where the first entry of each label wins;
  - `format_filesize`;
  - the `ProgressHook` object, whose dictionary each yt-dlp progress event
    updates in place;
  - `get_ydl_opts`;
  - the URL check of its routes.
- **app.py**
  - `format_size`;
  - the format listing of `/api/formats`: a "best" row, then every format
    whose video and audio codec keys are both present and not 'none' (a
    codec key bound to None passes);
  - the body checks of `/api/formats` and `/api/download`, and the options
    that `/api/download` hands to yt-dlp.

Modules:

- `Common`: Python values.
  - `Field<T>` models a dictionary key that is missing, bound to None, or
    bound to a value. With it, `d.get(k)`, `d.get(k, default)` and
    truthiness are exact.
  - `Value` is a JSON scalar.
- `Decimal`: renders a natural number as digits, with its inverse.
- `Sizes`: how a unit is chosen for a byte count, and the scaling loop that
  both size printers share.
- `Formats`: the part of yt-dlp's format record and info dictionary that the
  backends read.
- `Catalogue`: the web_app.py format pipeline.
- `Progress`: the `ProgressHook` class.
- `WebApp`: the other helpers in web_app.py.
- `App`: app.py.

The model follows each part's form in the source:

- Code that changes things step by step is written as methods. These are
  the size loop, the loops that build and deduplicate the catalogue, the
  listing loop of app.py, the option builder and the hook.
  - The loops are proved against specification functions (`UnitIndex`,
    `Listed`, `Dedup`, `Listings`).
  - `GetYdlOpts` and `ProgressHook.Call` are specified directly by their
    `ensures` clauses: the value of every option key, and the new progress
    dictionary and outcome for each kind of event.
- The one pure step, `sorted(...)`, is a function. It is shown to be a
  stable sort: the result is ordered, it is a permutation, and entries with
  equal keys keep their input order. These three facts determine the result
  uniquely.

Two details of the code are worth stating plainly:

- A 'finished' progress event changes only the status. It does not set the
  percentage to 100.
- app.py lists a format whose codec key is bound to None, because None is
  not equal to `'none'`. Only a missing key counts as 'none'.

## Model

| member | source | states |
|---|---|---|
| `WebApp.FormatFilesize` | web_app.py:48-57 | "N/A" exactly when the byte count is 0. Otherwise the count is scaled to the unit `SizeTextOf` chooses. |
| `Sizes.ScaleBytes` | web_app.py:53-57 | The loop divides by 1024 while the value is at least 1024, at most four times. The resulting unit is `UnitAt(UnitIndex(n))` and the value is n / 1024^UnitIndex(n). |
| `Sizes.UnitIndex` | web_app.py:53-57 | The chosen unit index k satisfies 1024^k <= n < 1024^(k+1). Terabytes (k = 4) have no upper bound. |
| `Sizes.UnitIndexIsFirst` | web_app.py:53-56 | Every unit before the chosen one was passed because n >= 1024^(j+1). So the unit is the first k with n < 1024^(k+1). |
| `Sizes.UnitIndexUnique` | web_app.py:53-57 | Only one index meets the bounds 1024^k <= n < 1024^(k+1), so the unit choice is determined. |
| `Sizes.UnitIndexMonotone` | web_app.py:53-57 | A larger byte count never gets a smaller unit. |
| `Sizes.SizeTextOf` | web_app.py:50-57 | "N/A" if and only if the count is 0. The scaled value times 1024^k gives back the count. The value is below 1024 for every unit but TB, and at least 1 for every unit but B. |
| `App.FormatSize` | app.py:10-18 | "N/A" exactly for None and 0. Otherwise the same unit rule and scaled value as `SizeTextOf`. |
| `Progress.ProgressHook.constructor` | web_app.py:15-16 | A new hook has an empty progress dictionary. |
| `Progress.WithCounters` | web_app.py:20-24 | A 'downloading' event writes the status and the four counters, each read from the event with 0 for a missing key. The percentage is left alone and the dictionary stays well formed. |
| `Progress.DivisorKey` | web_app.py:25-28 | The divisor is the total if truthy, else the estimated total if truthy. A chosen divisor is present, truthy and never the number 0. |
| `Progress.ProgressHook.Call` | web_app.py:18-30 | An event without 'status' raises KeyError and changes nothing. 'downloading' overwrites the status and counters. The percentage is recorded with pct * divisor = downloaded * 100, or is untouched when there is no divisor; a missing downloaded count raises KeyError and a non-numeric operand raises TypeError. 'finished' sets only the status. Any other status changes nothing. The hook's invariant is kept. |
| `WebApp.GetYdlOpts` | web_app.py:32-46 | 'format' is the given id when it is truthy, else the default mp4 selector. The output is mp4 through FFmpeg. 'progress_hooks' is present if and only if a hook is given, and then holds exactly that hook. |
| `WebApp.RequestedUrl` | web_app.py:65-67 | The request is accepted if and only if the 'url' value is present and truthy, and the URL is passed on. Otherwise the answer is "URL is required". |
| `Catalogue.FirstAudioIndex` | web_app.py:80-86 | Gives the first audio-only m4a format, or none when no format is one. |
| `Catalogue.ListedMembers` | web_app.py:99-127 | An entry is listed if and only if it is built from a format that is not audio-only, has non-zero height and width, and has ext mp4. That entry has format_id `id+bestaudio[ext=m4a]/bestaudio`, label `WxH`, and size = video size + best-audio size. |
| `Catalogue.ResolutionLabelInjective` | web_app.py:122 | Two `WxH` labels are equal only if the widths and the heights are equal. |
| `Catalogue.ListedLabels` | web_app.py:89-122 | No format entry carries the "Best Quality" label. |
| `Catalogue.SortDescCorrect` | web_app.py:130 | The sort gives a non-increasing (height, fps) order and a permutation of its input. For every key, the entries with that key keep their input order, as a stable `reverse=True` sort does. |
| `Catalogue.BestEntryFirst` | web_app.py:88-130 | When every kept format is shorter than 99999, "Best Quality" heads the catalogue. |
| `Catalogue.DedupLabels` | web_app.py:132-139 | The deduplicated labels are pairwise distinct, and no label of the input is lost. |
| `Catalogue.DedupSubsequence` | web_app.py:132-139 | The result is an order-preserving subsequence of the sorted list. |
| `Catalogue.DedupFirstWins` | web_app.py:132-139 | Each kept entry is the first entry of the input with its label. |
| `Catalogue.DedupKeepsTopRanked` | web_app.py:129-139 | On any sorted list, no entry with the same label outranks the kept one in (height, fps). |
| `Catalogue.SameLabelSameHeight` | web_app.py:88-122 | Two entries of the unsorted catalogue with the same label have the same height, because a `WxH` label determines its height and no format entry is labelled "Best Quality". |
| `Catalogue.CatalogueKeepsTopFps` | web_app.py:88-139 | For every resolution label, the entry the catalogue keeps has the height of every entry with that label and the highest fps among them. |
| `Catalogue.DedupSorted` | web_app.py:129-139 | Deduplication keeps the list sorted and adds no entry. |
| `Catalogue.DedupHead` | web_app.py:133-139 | The first entry of a non-empty list is always kept, in first place. |
| `Catalogue.CatalogueProperties` | web_app.py:78-139 | The catalogue is sorted from the top and has distinct labels. It always contains "Best Quality". Every other entry is built from a kept format. |
| `Catalogue.BuildEntries` | web_app.py:88-127 | The loop yields "Best Quality" followed by the kept formats' entries in input order. |
| `Catalogue.RemoveDuplicateResolutions` | web_app.py:132-139 | The loop with its seen-set computes `Dedup`: distinct labels, and the same label set as its input. |
| `Catalogue.GetFormats` | web_app.py:78-139 | Computes `Catalogue(records)`. The result is sorted, has distinct labels, and contains "Best Quality". |
| `App.TbrOf` | app.py:65 | tbr is the given value when present and 0 when missing or None. |
| `App.ListingsMembers` | app.py:56-67 | A row is listed if and only if it is built from a format whose vcodec and acodec both differ from 'none'. A missing codec key reads as 'none'. |
| `App.ListingsCount` | app.py:56-67 | There is one row per passing format. |
| `App.ListFormats` | app.py:44-67 | The list is the "best" row followed by the passing formats' rows in input order. Its length is 1 plus the number of passing formats. |
| `App.BuildPayload` | app.py:37-69 | Title, duration and thumbnail are taken with their defaults, and formats are listed as above. A formats key bound to None fails with the TypeError message. |
| `App.CheckFormatsRequest` | app.py:23-27 | Accepted if and only if there is a body that has a 'url' key, whatever its value. The rejection is "URL is required". |
| `App.CheckDownloadRequest` | app.py:78-88 | Accepted if and only if the body has both 'url' and 'format_id'. The options are exactly 'format' and 'quiet', and 'format' is the format_id unchanged. The rejection is "URL and format_id are required". |

## Left out

- Rendering: the scaled size is an exact real. Its rendering with two (web_app.py) or one (app.py) decimal places is not modelled. Float rounding in the division and in the percentage is not modelled either.
- yt-dlp itself: `extract_info` and `download` are external. The format list and info dictionary they produce are inputs, and the download is not performed.
- Flask: routing, `jsonify`, status codes and the `index` page are not modelled. Only the accept/reject decision and its payload are.
- web_app.py:141-150 (building the response from `info['title']` and others, and the catch-all 400) and web_app.py:152-166 (`download`) are not modelled beyond their URL check and `get_ydl_opts`. They only call yt-dlp and Flask.
- web_app.py:168-172 (`/api/progress`): it builds a fresh hook, so it always answers `{}`. Polling concurrency is not a sequential concern.
- utils/ffmpeg_downloader.py is not part of this model. It is network download, archive extraction and platform detection. The FFmpeg location is a parameter of `GetYdlOpts`.
- app.py:8: `render_template` is never imported, so that route fails at run time. This is not logic.
- A format record without 'format_id' would raise KeyError and end in 400. yt-dlp always sets the key, so the model's record always has one.
- web_app.py reads `request.json.get(...)`. A request without a JSON body fails before the URL check and is not modelled.
- Nested JSON values (lists, objects) in request bodies and in progress events are not represented. Values are None, booleans, numbers and strings.
- `App.CheckFormatsRequest`, `App.CheckDownloadRequest` and `WebApp.RequestedUrl` take the body to be a JSON object. A top-level array, string or number is not represented. In app.py such a body goes through an element or substring test (app.py:24, app.py:79). If it passes, `data['url']` raises TypeError and the route answers 400 with that message. In web_app.py, `request.json.get` raises AttributeError before the `try` (web_app.py:65).
- `os.path.join` is taken with the POSIX separator in the output template.
- `Progress.ProgressHook.Call`: when the hook raises, yt-dlp aborts the download. The model returns the exception and leaves what happens next to the caller.
