/** The helpers of web_app.py around the format catalogue: the size
    pretty-printer, the yt-dlp option builder and the URL check of its
    routes. */
module WebApp {
  import opened Common
  import opened Sizes
  import opened Progress

  /** The selector used when no format is requested: the best mp4 video with
      the best m4a audio, else the best mp4, else the best of anything. */
  const DefaultSelector: string := "bestvideo[ext=mp4]+bestaudio[ext=m4a]/best[ext=mp4]/best"

  /** Where downloads go (`os.path.join(DOWNLOAD_DIR, ...)` on a POSIX host). */
  const OutputTemplate: string := "downloads/%(title)s.%(ext)s"

  /** `format_filesize`: "N/A" for 0, otherwise the count scaled to the
      first unit below 1024 (terabytes at most). */
  method FormatFilesize(bytes: nat) returns (text: SizeText)
    ensures text == NotAvailable <==> bytes == 0
    ensures text == SizeTextOf(bytes)
  {
    if bytes == 0 {
      return NotAvailable;
    }
    var value, unit := ScaleBytes(bytes);
    text := Scaled(value, unit);
  }

  /** A value of the option dictionary handed to yt-dlp. */
  datatype OptValue =
    | Plain(v: Value)
    | Postprocessors(steps: seq<map<string, string>>)
    | Hooks(hooks: seq<ProgressHook>)

  /** The base option keys; `progress_hooks` is added only with a hook. */
  const BaseOptionKeys: set<string> :=
    {"format", "outtmpl", "ffmpeg_location", "merge_output_format", "postprocessors"}

  /** `get_ydl_opts`: the requested format if it is truthy, else the default
      selector; mp4 output through FFmpeg; the hook, if one is given.
      `ffmpegPath` is the location found at start-up. */
  method GetYdlOpts(formatId: Value, hook: ProgressHook?, ffmpegPath: string)
    returns (opts: map<string, OptValue>)
    ensures opts.Keys == BaseOptionKeys + (if hook != null then {"progress_hooks"} else {})
    ensures Truthy(formatId) ==> opts["format"] == Plain(formatId)
    ensures !Truthy(formatId) ==> opts["format"] == Plain(Str(DefaultSelector))
    ensures opts["merge_output_format"] == Plain(Str("mp4"))
    ensures opts["outtmpl"] == Plain(Str(OutputTemplate))
    ensures opts["ffmpeg_location"] == Plain(Str(ffmpegPath))
    ensures opts["postprocessors"]
         == Postprocessors([map["key" := "FFmpegVideoConvertor", "preferedformat" := "mp4"]])
    ensures hook != null ==> opts["progress_hooks"] == Hooks([hook])
  {
    opts := map[
      "format" := Plain(if Truthy(formatId) then formatId else Str(DefaultSelector)),
      "outtmpl" := Plain(Str(OutputTemplate)),
      "ffmpeg_location" := Plain(Str(ffmpegPath)),
      "merge_output_format" := Plain(Str("mp4")),
      "postprocessors" := Postprocessors([map["key" := "FFmpegVideoConvertor", "preferedformat" := "mp4"]])
    ];
    if hook != null {
      opts := opts["progress_hooks" := Hooks([hook])];
    }
  }

  /** The URL check that opens both routes: `request.json.get('url')` must be
      truthy, otherwise the request is answered with 400 "URL is required". */
  function RequestedUrl(body: map<string, Value>): (r: Result<Value, string>)
    ensures r.Ok? <==> "url" in body && Truthy(body["url"])
    ensures r.Ok? ==> r.value == body["url"]
    ensures r.Err? ==> r.error == "URL is required"
  {
    var url := Lookup(body, "url");
    if !Truthy(url) then Err("URL is required") else Ok(url)
  }
}
