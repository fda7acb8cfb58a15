/** The media endpoints of the video loops. A capture (`cv2.VideoCapture`)
    is a finite sequence of frames with a read position: `read()` yields the
    next frame, or fails once the sequence is used up and keeps failing
    after that. A writer (`cv2.VideoWriter`) records the frames written to
    it, in order, together with the settings it was opened with. Decoding,
    encoding and the files themselves are not modelled. */
module Media {
  import opened Builtins

  /** The pipeline's errors: `FileNotFoundError` for a missing input, and
      the error raised when a video's first frame cannot be read. */
  datatype MediaError = FileNotFound(path: string) | UnreadableVideo

  class VideoCapture<F> {
    /** The frames that decode successfully, up to the first failure. */
    const frames: seq<F>
    /** `cap.get(cv2.CAP_PROP_FPS)`, the container's reported frame rate. */
    const reportedFps: real
    var pos: nat

    ghost predicate Valid()
      reads this
    {
      pos <= |frames|
    }

    /** The frames not read yet. */
    ghost function Remaining(): seq<F>
      reads this
      requires Valid()
    {
      frames[pos..]
    }

    constructor (frames: seq<F>, reportedFps: real)
      ensures Valid() && this.frames == frames && this.reportedFps == reportedFps
      ensures pos == 0 && Remaining() == frames
    {
      this.frames := frames;
      this.reportedFps := reportedFps;
      pos := 0;
    }

    /** `ret, frame = cap.read()`, with `ret` folded into the option. */
    method Read() returns (frame: Option<F>)
      requires Valid()
      modifies this
      ensures Valid()
      ensures old(pos) < |frames| ==> frame == Some(frames[old(pos)]) && pos == old(pos) + 1
      ensures old(pos) == |frames| ==> frame == None && pos == old(pos)
    {
      if pos < |frames| {
        frame := Some(frames[pos]);
        pos := pos + 1;
      } else {
        frame := None;
      }
    }
  }

  class VideoWriter<F> {
    const path: string
    /** The four-character codec code passed to `VideoWriter_fourcc`. */
    const fourcc: string
    const fps: int
    const width: nat
    const height: nat
    /** The frames written so far, in order. */
    var written: seq<F>

    constructor (path: string, fourcc: string, fps: int, width: nat, height: nat)
      ensures this.path == path && this.fourcc == fourcc && this.fps == fps
      ensures this.width == width && this.height == height
      ensures written == []
    {
      this.path := path;
      this.fourcc := fourcc;
      this.fps := fps;
      this.width := width;
      this.height := height;
      written := [];
    }

    /** `output_video.write(frame)`. */
    method Write(frame: F)
      modifies this
      ensures written == old(written) + [frame]
    {
      written := written + [frame];
    }
  }
}
