/** The video preview: the configuration it hands to the player for a file.
    The raw URL carries the file name escaped by `encodeURIComponent` and no
    token; there is a single html5 source and a fixed list of controls. */
module VideoPreview {
  import opened Wrappers
  import opened Query
  import opened UriComponent
  import AudioPreview

  /** The fields of the file object the preview reads. */
  datatype FileDescriptor = FileDescriptor(name: string, mimeType: Option<string>)

  datatype MediaSource = MediaSource(src: string, mimeType: string, provider: string)

  datatype Source = Source(kind: string, title: string, sources: seq<MediaSource>)

  datatype Options = Options(controls: seq<string>)

  datatype PlayerProps = PlayerProps(source: Source, options: Options)

  const DefaultMimeType: string := "video/mp4"

  const Controls: seq<string> :=
    ["play", "progress", "current-time", "mute", "volume", "settings", "fullscreen"]

  /** The raw URL of the file, its name escaped. */
  function VideoUrl(name: string): string
    requires IsAscii(name)
  {
    "/api/raw?path=" + Encode(name)
  }

  /** The declared MIME type when JavaScript finds it truthy, else the default. */
  function SourceMimeType(file: FileDescriptor): (t: string)
    ensures t != ""
    ensures file.mimeType.Some? && file.mimeType.value != "" ==> t == file.mimeType.value
    ensures file.mimeType.None? || file.mimeType.value == "" ==> t == DefaultMimeType
  {
    if file.mimeType.Some? && file.mimeType.value != "" then file.mimeType.value else DefaultMimeType
  }

  /** The player configuration for a file. */
  function PropsFor(file: FileDescriptor): (p: PlayerProps)
    requires IsAscii(file.name)
    ensures p.source.kind == "video" && p.source.title == file.name
    ensures |p.source.sources| == 1
    ensures p.source.sources[0].src == VideoUrl(file.name)
    ensures p.source.sources[0].mimeType == SourceMimeType(file)
    ensures p.source.sources[0].provider == "html5"
    ensures p.options.controls == Controls
  {
    PlayerProps(
      Source("video", file.name, [MediaSource(VideoUrl(file.name), SourceMimeType(file), "html5")]),
      Options(Controls))
  }

  /** The video URL is the raw URL the audio preview would build for the
      escaped name and no token. */
  lemma VideoUrlIsUntokenedRawUrl(name: string)
    requires IsAscii(name)
    ensures VideoUrl(name) == AudioPreview.RawUrl(Encode(name), None)
  {
    assert AudioPreview.TokenSuffix(None) == "";
  }

  /** Read back, the video URL is the `/api/raw` endpoint with exactly one
      parameter, `path`, holding the escaped name: there is no `odpt`, and
      the name cannot inject another parameter. */
  lemma VideoUrlQuery(name: string)
    requires IsAscii(name)
    ensures Endpoint(VideoUrl(name)) == "/api/raw"
    ensures Params(VideoUrl(name)) == [Param("path", Encode(name))]
  {
    EncodeAvoidsDelimiters(name);
    VideoUrlIsUntokenedRawUrl(name);
    AudioPreview.RawUrlQuery(Encode(name), None);
  }

  /** The single source of the configuration plays the file whatever its
      name: its URL reads back to the file's name and carries no token. */
  lemma PropsSourceReadsBack(file: FileDescriptor)
    requires IsAscii(file.name)
    ensures
      var src := PropsFor(file).source.sources[0].src;
      |Params(src)| == 1 && Params(src)[0].key == "path" &&
      Decode(Params(src)[0].value) == Some(file.name)
  {
    VideoUrlQuery(file.name);
    DecodeEncode(file.name);
  }

  /** The controls are seven distinct entries, starting with play and ending
      with fullscreen. */
  lemma ControlsShape()
    ensures |Controls| == 7 && Controls[0] == "play" && Controls[6] == "fullscreen"
    ensures forall i, j :: 0 <= i < j < |Controls| ==> Controls[i] != Controls[j]
  {
  }
}
