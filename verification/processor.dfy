/** processor.py: redaction of one frame in place, of an image file and of a
    video file, and the choice of a codec from the output's extension. */
module Processor {
  import opened Builtins
  import opened Paths
  import opened Geometry
  import opened Redaction
  import opened Media

  /** `process_image`: every detection's slice of `img` is overwritten with
      the blur of that slice, one detection after the other; a frame with no
      detections (`None` or an empty list) is left alone. */
  method ProcessImage<P>(img: array2<P>, c: Collaborators<P>, blurStrength: int)
    modifies img
    ensures Snapshot(img) ==
      RedactFrame(old(Snapshot(img)), img.Length0, img.Length1, c.detect(old(Snapshot(img))), blurStrength, c.blur)
  {
    var height, width := img.Length0, img.Length1;
    var original := Snapshot(img);
    var detections := c.detect(original);
    if detections.Some? && |detections.value| > 0 {
      var boxes := detections.value;
      for n := 0 to |boxes|
        invariant Snapshot(img) ==
          RedactRects(original, height, width, Rects(boxes[..n], height, width), blurStrength, c.blur)
      {
        var r := ToPixelRect(boxes[n], width, height);
        BlurRectInPlace(img, r, blurStrength, c.blur);
        assert Rects(boxes[..n + 1], height, width)[..n] == Rects(boxes[..n], height, width);
      }
      assert boxes[..|boxes|] == boxes;
    }
  }

  /** `process_image_file`. `files` maps each existing input path to the
      image it decodes to. A missing input raises `FileNotFoundError` and
      nothing is written; otherwise the redacted image is written under
      `outputDir` with the input's base name, and that path is returned. */
  function ProcessImageFile<P>(files: map<string, Grid<P>>, inputPath: string, outputDir: string,
                               c: Collaborators<P>, blurStrength: int): (r: Result<(string, Grid<P>), MediaError>)
    requires forall p :: p in files ==> Rectangular(files[p])
    ensures r.Failure? <==> inputPath !in files
    ensures r.Failure? ==> r.error == FileNotFound(inputPath)
    ensures r.Success? ==> r.value.0 == Join(outputDir, Basename(inputPath))
    ensures r.Success? ==> Basename(r.value.0) == Basename(inputPath)
    ensures r.Success? ==> |outputDir| <= |r.value.0| && r.value.0[..|outputDir|] == outputDir
    ensures r.Success? ==> r.value.1 == Redacted(files[inputPath], c, blurStrength)
  {
    if inputPath !in files then Failure(FileNotFound(inputPath))
    else
      var name := Basename(inputPath);
      BasenameOfJoin(outputDir, name);
      assert |name| == 0 || name[0] != '/' by {
        if |name| > 0 { assert name[0] in name; }
      }
      JoinExtends(outputDir, name);
      Success((Join(outputDir, name), Redacted(files[inputPath], c, blurStrength)))
  }

  /** The extension-to-codec table of `get_video_codec`. */
  const CODECS: map<string, string> :=
    map[".mp4" := "mp4v", ".avi" := "XVID", ".mov" := "avc1", ".mkv" := "X264", ".wmv" := "WMV1"]

  /** `get_video_codec`: the lower-cased extension looked up in the table,
      "mp4v" for anything it does not list. */
  function VideoCodec(extension: string): (codec: string)
    ensures codec in {"mp4v", "XVID", "avc1", "X264", "WMV1"}
    ensures codec == "XVID" <==> Lower(extension) == ".avi"
    ensures codec == "avc1" <==> Lower(extension) == ".mov"
    ensures codec == "X264" <==> Lower(extension) == ".mkv"
    ensures codec == "WMV1" <==> Lower(extension) == ".wmv"
    ensures codec == "mp4v" <==> Lower(extension) !in {".avi", ".mov", ".mkv", ".wmv"}
  {
    var key := Lower(extension);
    if key in CODECS then CODECS[key] else "mp4v"
  }

  /** The lookup ignores case: an extension and its lower-cased form get
      the same codec, whatever letters were upper case. */
  lemma VideoCodecIgnoresCase(a: string, b: string)
    requires |a| == |b| && forall i :: 0 <= i < |a| ==> LowerChar(a[i]) == LowerChar(b[i])
    ensures VideoCodec(a) == VideoCodec(b)
    ensures VideoCodec(Lower(a)) == VideoCodec(a)
  {
    assert Lower(a) == Lower(b);
    LowerIdempotent(a);
  }

  /** The codec follows the file name: for a video named `stem + ext` in
      any directory, where `ext` is a '.' with no further '.', the codec
      is the one of `ext`. */
  lemma CodecOfFileName(dir: string, stem: string, ext: string)
    requires '/' !in stem && '/' !in ext
    requires |ext| > 0 && ext[0] == '.' && '.' !in ext[1..]
    requires exists i :: 0 <= i < |stem| && stem[i] != '.'
    ensures VideoCodec(Extension(Join(dir, stem + ext))) == VideoCodec(ext)
  {
    ExtensionOfJoin(dir, stem, ext);
  }

  /** `int(cap.get(cv2.CAP_PROP_FPS)) or 25`: the reported rate truncated
      toward zero, or 25 when that truncation is 0. */
  function Fps(reported: real): (fps: int)
    ensures fps != 0
    ensures -1.0 < reported < 1.0 ==> fps == 25
    ensures reported >= 1.0 ==> fps as real <= reported < fps as real + 1.0
    ensures reported <= -1.0 ==> fps as real - 1.0 < reported <= fps as real
  {
    var t := Trunc(reported);
    if t == 0 then 25 else t
  }

  /** `process_video_file`. A missing input raises `FileNotFoundError`
      before the capture is touched. An unreadable first frame raises
      and no writer is returned. Otherwise a writer is opened with the
      codec of the input's extension, the fallback frame rate and the first
      frame's size, and every frame read is redacted and written once, in
      read order, until the first failed read. */
  method ProcessVideoFile<P>(existing: set<string>, inputPath: string, outputDir: string,
                             cap: VideoCapture<Grid<P>>, c: Collaborators<P>, blurStrength: int)
    returns (r: Result<VideoWriter<Grid<P>>, MediaError>)
    requires cap.Valid() && AllRectangular(cap.Remaining())
    modifies cap
    ensures cap.Valid()
    ensures inputPath !in existing ==> r == Failure(FileNotFound(inputPath)) && cap.pos == old(cap.pos)
    ensures inputPath in existing && old(cap.Remaining()) == [] ==> r == Failure(UnreadableVideo)
    ensures inputPath in existing && old(cap.Remaining()) != [] ==>
      r.Success? && fresh(r.value) && cap.Remaining() == [] &&
      r.value.written == RedactSequence(old(cap.Remaining()), c, blurStrength) &&
      r.value.path == Join(outputDir, Basename(inputPath)) &&
      r.value.fourcc == VideoCodec(Extension(inputPath)) &&
      r.value.fps == Fps(cap.reportedFps) &&
      r.value.height == |old(cap.Remaining())[0]| && r.value.width == Width(old(cap.Remaining())[0])
  {
    if inputPath !in existing {
      return Failure(FileNotFound(inputPath));
    }
    var codec := VideoCodec(Extension(inputPath));
    ghost var start := cap.pos;
    ghost var input := cap.frames[start..];
    var frame := cap.Read();
    if frame.None? {
      return Failure(UnreadableVideo);
    }
    var first := frame.value;
    var writer := new VideoWriter(Join(outputDir, Basename(inputPath)), codec, Fps(cap.reportedFps),
                                  Width(first), |first|);
    ghost var n := 0;
    while frame.Some?
      invariant cap.Valid() && input == cap.frames[start..]
      invariant n <= |input| && cap.pos == start + n + (if frame.Some? then 1 else 0)
      invariant frame.Some? ==> n < |input| && frame.value == input[n]
      invariant frame.None? ==> n == |input|
      invariant fresh(writer) && writer.written == RedactSequence(input[..n], c, blurStrength)
      decreases |input| - n, if frame.Some? then 1 else 0
    {
      var redacted := Redacted(frame.value, c, blurStrength);
      writer.Write(redacted);
      RedactSequenceSnoc(input, n, c, blurStrength);
      n := n + 1;
      frame := cap.Read();
    }
    assert input[..n] == input;
    return Success(writer);
  }
}
