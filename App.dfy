/** app.py, the simpler of the two backends: it lists every format that
    has both a video and an audio codec, behind a "best" entry, and
    downloads the requested format id as given. */
module App {
  import opened Common
  import opened Sizes
  import opened Formats

  /** One row of the format list returned by `/api/formats`. */
  datatype Listing = Listing(
    formatId: string,
    resolution: Option<string>,
    ext: Option<string>,
    filesize: SizeCell,
    vcodec: Option<string>,
    acodec: Option<string>,
    tbr: real)

  /** The first row, which lets yt-dlp choose. */
  const BestListing: Listing :=
    Listing("best", Some("Best Quality"), Some("Automatic"), Placeholder(""), Some("best"), Some("best"), 0.0)

  /** `format_size`: "N/A" for None and 0, otherwise the count scaled to the
      first unit below 1024 (terabytes at most). */
  method FormatSize(bytes: Option<nat>) returns (text: SizeText)
    ensures text == NotAvailable <==> bytes == None || bytes == Some(0)
    ensures bytes.Some? ==> text == SizeTextOf(bytes.value)
  {
    if bytes == None || bytes == Some(0) {
      return NotAvailable;
    }
    var value, unit := ScaleBytes(bytes.value);
    text := Scaled(value, unit);
  }

  /** A format is listed when neither codec reads as 'none'; a missing codec
      key reads as 'none', a codec bound to None does not. */
  predicate Listable(f: FormatRecord)
  {
    GetOr(f.vcodec, "none") != Some("none") && GetOr(f.acodec, "none") != Some("none")
  }

  /** The size cell of `format_size(f.get('filesize', 0))`. */
  function FilesizeText(bytes: Option<nat>): SizeText
  {
    if bytes.None? then NotAvailable else SizeTextOf(bytes.value)
  }

  /** `float(f.get('tbr', 0)) if f.get('tbr') is not None else 0`. */
  function TbrOf(f: FormatRecord): (tbr: real)
    ensures f.tbr.Present? ==> tbr == f.tbr.value
    ensures !f.tbr.Present? ==> tbr == 0.0
  {
    match f.tbr
    case Present(t) => t
    case _ => 0.0
  }

  function ListingOf(f: FormatRecord): Listing
  {
    Listing(f.formatId,
            GetOr(f.resolution, "N/A"),
            GetOr(f.ext, "N/A"),
            Sized(FilesizeText(GetOr(f.filesize, 0))),
            GetOr(f.vcodec, "N/A"),
            GetOr(f.acodec, "N/A"),
            TbrOf(f))
  }

  /** The rows of the listable formats, in input order. */
  function Listings(fs: seq<FormatRecord>): seq<Listing>
  {
    if fs == [] then []
    else
      var rest := Listings(fs[..|fs| - 1]);
      if Listable(fs[|fs| - 1]) then rest + [ListingOf(fs[|fs| - 1])] else rest
  }

  /** The positions of the listable formats. */
  function ListableIndices(fs: seq<FormatRecord>): set<nat>
  {
    set i: nat | i < |fs| && Listable(fs[i])
  }

  /** A row is listed exactly when it is the row of a listable format. */
  lemma {:induction false} ListingsMembers(fs: seq<FormatRecord>)
    ensures forall l :: l in Listings(fs) ==> exists i :: 0 <= i < |fs| && Listable(fs[i]) && l == ListingOf(fs[i])
    ensures forall i :: 0 <= i < |fs| && Listable(fs[i]) ==> ListingOf(fs[i]) in Listings(fs)
  {
    if fs != [] {
      var init, f := fs[..|fs| - 1], fs[|fs| - 1];
      ListingsMembers(init);
      forall l | l in Listings(fs)
        ensures exists i :: 0 <= i < |fs| && Listable(fs[i]) && l == ListingOf(fs[i])
      {
        if l in Listings(init) {
          var i :| 0 <= i < |init| && Listable(init[i]) && l == ListingOf(init[i]);
          assert fs[i] == init[i];
        } else {
          assert l == ListingOf(f);
        }
      }
      forall i | 0 <= i < |fs| && Listable(fs[i])
        ensures ListingOf(fs[i]) in Listings(fs)
      {
        if i < |init| {
          assert init[i] == fs[i];
        }
      }
    }
  }

  /** There is one row per listable format. */
  lemma {:induction false} ListingsCount(fs: seq<FormatRecord>)
    ensures |Listings(fs)| == |ListableIndices(fs)|
  {
    if fs != [] {
      var init, f := fs[..|fs| - 1], fs[|fs| - 1];
      ListingsCount(init);
      var n := |fs| - 1;
      assert forall i :: 0 <= i < n ==> fs[i] == init[i];
      if Listable(f) {
        assert ListableIndices(fs) == ListableIndices(init) + {n};
      } else {
        assert ListableIndices(fs) == ListableIndices(init);
      }
    }
  }

  /** The loop of `get_formats` that fills `response_data['formats']`. */
  method ListFormats(formats: seq<FormatRecord>) returns (out: seq<Listing>)
    ensures out == [BestListing] + Listings(formats)
    ensures |out| == 1 + |ListableIndices(formats)|
  {
    out := [BestListing];
    for i := 0 to |formats|
      invariant out == [BestListing] + Listings(formats[..i])
    {
      var f := formats[i];
      assert formats[..i + 1][..i] == formats[..i];
      if GetOr(f.vcodec, "none") != Some("none") && GetOr(f.acodec, "none") != Some("none") {
        var filesize := FormatSize(GetOr(f.filesize, 0));
        out := out + [Listing(f.formatId,
                              GetOr(f.resolution, "N/A"),
                              GetOr(f.ext, "N/A"),
                              Sized(filesize),
                              GetOr(f.vcodec, "N/A"),
                              GetOr(f.acodec, "N/A"),
                              TbrOf(f))];
      }
    }
    assert formats[..|formats|] == formats;
    ListingsCount(formats);
  }

  /** The body of a successful `/api/formats` answer. */
  datatype FormatsPayload = FormatsPayload(
    title: Option<string>,
    duration: Option<real>,
    thumbnail: Option<string>,
    formats: seq<Listing>)

  /** The answer built from what yt-dlp extracted. A formats key bound to
      None makes the loop raise, and the route answers 400 with the message. */
  method BuildPayload(info: VideoInfo) returns (r: Result<FormatsPayload, string>)
    ensures info.formats.Null? <==> r.Err?
    ensures r.Err? ==> r.error == "'NoneType' object is not iterable"
    ensures r.Ok? ==> r.value.title == GetOr(info.title, "Unknown Title")
    ensures r.Ok? ==> r.value.duration == GetOr(info.duration, 0.0)
    ensures r.Ok? ==> r.value.thumbnail == GetOr(info.thumbnail, "")
    ensures r.Ok? && info.formats.Absent? ==> r.value.formats == [BestListing]
    ensures r.Ok? && info.formats.Present? ==> r.value.formats == [BestListing] + Listings(info.formats.value)
  {
    if info.formats.Null? {
      return Err("'NoneType' object is not iterable");
    }
    var formats := ListFormats(if info.formats.Present? then info.formats.value else []);
    r := Ok(FormatsPayload(GetOr(info.title, "Unknown Title"),
                           GetOr(info.duration, 0.0),
                           GetOr(info.thumbnail, ""),
                           formats));
  }

  /** The check that opens `/api/formats`: a body with a 'url' key (of any
      value), or 400 "URL is required". */
  function CheckFormatsRequest(data: Option<map<string, Value>>): (r: Result<Value, string>)
    ensures r.Ok? <==> data.Some? && "url" in data.value
    ensures r.Ok? ==> r.value == data.value["url"]
    ensures r.Err? ==> r.error == "URL is required"
  {
    if data.None? || data.value == map[] || "url" !in data.value then Err("URL is required")
    else Ok(data.value["url"])
  }

  /** What `/api/download` hands to yt-dlp: the URL and the options. */
  datatype DownloadCall = DownloadCall(url: Value, opts: map<string, Value>)

  /** The check that opens `/api/download`: a body with both 'url' and
      'format_id', or 400; the format id becomes the 'format' option
      unchanged, next to 'quiet'. */
  function CheckDownloadRequest(data: Option<map<string, Value>>): (r: Result<DownloadCall, string>)
    ensures r.Ok? <==> data.Some? && "url" in data.value && "format_id" in data.value
    ensures r.Ok? ==> r.value.url == data.value["url"]
    ensures r.Ok? ==> r.value.opts.Keys == {"format", "quiet"}
    ensures r.Ok? ==> r.value.opts["format"] == data.value["format_id"]
    ensures r.Ok? ==> r.value.opts["quiet"] == Bool(true)
    ensures r.Err? ==> r.error == "URL and format_id are required"
  {
    if data.None? || data.value == map[] || "url" !in data.value || "format_id" !in data.value then
      Err("URL and format_id are required")
    else
      Ok(DownloadCall(data.value["url"], map["format" := data.value["format_id"], "quiet" := Bool(true)]))
  }
}
