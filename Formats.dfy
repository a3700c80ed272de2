/** One element of yt-dlp's `info['formats']` list, restricted to the keys
    the two backends read. Every key but `format_id` may be missing or None. */
module Formats {
  import opened Common

  datatype FormatRecord = FormatRecord(
    formatId: string,
    vcodec: Field<string>,
    acodec: Field<string>,
    ext: Field<string>,
    width: Field<nat>,
    height: Field<nat>,
    fps: Field<real>,
    filesize: Field<nat>,
    filesizeApprox: Field<nat>,
    resolution: Field<string>,
    tbr: Field<real>)

  /** Information yt-dlp extracts about one video. */
  datatype VideoInfo = VideoInfo(
    title: Field<string>,
    duration: Field<real>,
    thumbnail: Field<string>,
    formats: Field<seq<FormatRecord>>)
}
