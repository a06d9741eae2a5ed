/**
 * The upload handler with its I/O taken out: the clock reading, the client's
 * file name and the transcriber's segments come in as parameters, and the
 * two paths and the subtitle text it would write come out.
 */
module App {
  import opened Wrappers
  import Srt
  import Paths

  /** What the handler saves: where the upload goes, where the subtitles
      go, and the subtitle text. */
  datatype Saved = Saved(uploadPath: string, srtPath: string, srt: string)

  /** An upload whose file name is empty counts as no file and saves
      nothing; otherwise the upload is stored under its stamped name and the
      subtitles beside it under the same stem. */
  method HandleUpload(now: Paths.DateTime, filename: string, segments: seq<Srt.Segment>)
    returns (r: Option<Saved>)
    requires Paths.ValidDateTime(now)
    ensures filename == [] <==> r.None?
    ensures r.Some? ==>
      var stamped := Paths.UploadFolder + "/" + Paths.StampPrefix(now);
      && r.value.uploadPath == stamped + filename
      && r.value.srtPath == stamped + Paths.SrtPath(filename)
      && r.value.srt == Srt.Encode(segments)
  {
    if filename == [] {
      return None;
    }
    var name := Paths.UploadName(now, filename);
    var uploadPath := Paths.Join(Paths.UploadFolder, name);
    var srtPath := Paths.SrtPath(uploadPath);
    var srt := Srt.WriteSrt(segments);
    Paths.UploadPathInFolder(now, filename);
    Paths.UploadSrtPath(now, filename);
    return Some(Saved(uploadPath, srtPath, srt));
  }
}
