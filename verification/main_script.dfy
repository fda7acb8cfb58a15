/** main.py, the command-line script: its own copy of the frame redactor,
    image mode over a directory, and video mode with even output
    dimensions and a running frame count. */
module MainScript {
  import opened Builtins
  import opened Paths
  import opened Geometry
  import opened Redaction
  import opened Media

  /** `process_img`: the same redaction as processor.py's, guarded by
      `detections is not None` instead of the list's truth value; an empty
      list runs the loop zero times, so the outcome is the same. */
  method ProcessImg<P>(img: array2<P>, c: Collaborators<P>, blurStrength: int)
    modifies img
    ensures Snapshot(img) ==
      RedactFrame(old(Snapshot(img)), img.Length0, img.Length1, c.detect(old(Snapshot(img))), blurStrength, c.blur)
  {
    var height, width := img.Length0, img.Length1;
    var original := Snapshot(img);
    var out := c.detect(original);
    if out.Some? {
      var detections := out.value;
      for n := 0 to |detections|
        invariant Snapshot(img) ==
          RedactRects(original, height, width, Rects(detections[..n], height, width), blurStrength, c.blur)
      {
        var r := ToPixelRect(detections[n], width, height);
        BlurRectInPlace(img, r, blurStrength, c.blur);
        assert Rects(detections[..n + 1], height, width)[..n] == Rects(detections[..n], height, width);
      }
      assert detections[..|detections|] == detections;
    }
  }

  /** `n - (n % 2)`: a frame dimension rounded down to an even number. */
  function EvenDown(n: nat): (e: nat)
    ensures e % 2 == 0 && e <= n && n - e <= 1
  {
    n - n % 2
  }

  /** The directory filter: the lower-cased path ends in .png, .jpg or .jpeg. */
  predicate IsImagePath(p: string)
  {
    var l := Lower(p);
    EndsWith(l, ".png") || EndsWith(l, ".jpg") || EndsWith(l, ".jpeg")
  }

  /** Only the last four or five characters of a path decide the filter,
      and their case does not matter. */
  lemma IsImagePathBySuffix(p: string)
    ensures IsImagePath(p) <==> (4 <= |p| && Lower(p[|p| - 4..]) in {".png", ".jpg"}) ||
                                (5 <= |p| && Lower(p[|p| - 5..]) == ".jpeg")
  {
    LowerSuffix(p, 4);
    LowerSuffix(p, 5);
  }

  /** The last `n` characters of a lower-cased string are the lower-cased
      last `n` characters. */
  lemma LowerSuffix(p: string, n: nat)
    ensures n <= |p| ==> Lower(p)[|p| - n..] == Lower(p[|p| - n..])
  {
  }

  /** Behind a separator, a suffix without '/' is seen only in the tail. */
  lemma EndsWithAfterSeparator(y: string, tail: string, suffix: string)
    requires |y| == 0 || y[|y| - 1] == '/'
    requires '/' !in suffix
    ensures EndsWith(y + tail, suffix) == EndsWith(tail, suffix)
  {
    var s := y + tail;
    if |y| == 0 {
      assert s == tail;
    } else if |suffix| <= |tail| {
      assert s[|s| - |suffix|..] == tail[|tail| - |suffix|..];
    } else if |suffix| <= |s| {
      var at := |y| - 1 - (|s| - |suffix|);
      assert s[|s| - |suffix|..][at] == '/';
      assert suffix[at] != '/';
    }
  }

  /** The filter tests the joined path, but for an entry name (which holds
      no '/') that is the same as testing the name itself. */
  lemma IsImagePathOfJoin(dir: string, name: string)
    requires '/' !in name
    ensures IsImagePath(Join(dir, name)) == IsImagePath(name)
  {
    assert |name| == 0 || name[0] != '/' by {
      if |name| > 0 { assert name[0] in name; }
    }
    var y := if |dir| == 0 || dir[|dir| - 1] == '/' then dir else dir + "/";
    assert Join(dir, name) == y + name;
    LowerAppend(y, name);
    var ly := Lower(y);
    assert |ly| == 0 || ly[|ly| - 1] == '/' by {
      if |y| > 0 { assert ly[|ly| - 1] == LowerChar(y[|y| - 1]); }
    }
    EndsWithAfterSeparator(ly, Lower(name), ".png");
    EndsWithAfterSeparator(ly, Lower(name), ".jpg");
    EndsWithAfterSeparator(ly, Lower(name), ".jpeg");
  }

  /** The directory entries image mode processes, in listing order. */
  function ImageEntries(dir: string, entries: seq<string>): (names: seq<string>)
    ensures forall n :: n in names <==> n in entries && IsImagePath(Join(dir, n))
    ensures |names| <= |entries|
    decreases |entries|
  {
    if |entries| == 0 then []
    else
      var last := entries[|entries| - 1];
      var front := entries[..|entries| - 1];
      assert entries == front + [last];
      ImageEntries(dir, front) + (if IsImagePath(Join(dir, last)) then [last] else [])
  }

  /** Filtering keeps the listing order: the entries of a concatenated
      listing are those of its first part followed by those of its second. */
  lemma {:induction false} ImageEntriesAppend(dir: string, a: seq<string>, b: seq<string>)
    ensures ImageEntries(dir, a + b) == ImageEntries(dir, a) + ImageEntries(dir, b)
    decreases |b|
  {
    if |b| == 0 {
      assert a + b == a;
    } else {
      var front := b[..|b| - 1];
      assert (a + b)[..|a + b| - 1] == a + front;
      ImageEntriesAppend(dir, a, front);
    }
  }

  /** The filter on three sample names. */
  lemma SampleNames()
    ensures IsImagePath("a.png") && IsImagePath("B.JPEG") && !IsImagePath("notes.txt")
  {
    assert Lower("a.png") == "a.png" && "a.png"[1..] == ".png";
    assert Lower("B.JPEG") == "b.jpeg" && "b.jpeg"[1..] == ".jpeg";
    assert Lower("notes.txt") == "notes.txt";
  }

  /** A one-entry listing keeps its entry exactly when the entry name
      passes the filter. */
  lemma ImageEntriesOfOne(dir: string, name: string)
    requires '/' !in name
    ensures ImageEntries(dir, [name]) == if IsImagePath(name) then [name] else []
  {
    assert [name][..0] == [];
    IsImagePathOfJoin(dir, name);
  }

  /** A three-entry listing is filtered entry by entry. */
  lemma ImageEntriesOfThree(dir: string, a: string, b: string, c: string)
    ensures ImageEntries(dir, [a, b, c]) ==
      ImageEntries(dir, [a]) + ImageEntries(dir, [b]) + ImageEntries(dir, [c])
  {
    assert [a, b, c] == [a] + [b] + [c];
    ImageEntriesAppend(dir, [a] + [b], [c]);
    ImageEntriesAppend(dir, [a], [b]);
  }

  /** A listing with an image, a file of another kind and a second image
      (such as `a.png`, `notes.txt` and `B.JPEG`, see SampleNames) yields
      the two images in listing order, in any directory. */
  lemma TwoImagesAndANote(dir: string, image1: string, other: string, image2: string)
    requires '/' !in image1 && '/' !in other && '/' !in image2
    requires IsImagePath(image1) && !IsImagePath(other) && IsImagePath(image2)
    ensures ImageEntries(dir, [image1, other, image2]) == [image1, image2]
  {
    ImageEntriesOfOne(dir, image1);
    ImageEntriesOfOne(dir, other);
    ImageEntriesOfOne(dir, image2);
    ImageEntriesOfThree(dir, image1, other, image2);
  }

  /** The file each image entry produces: the entry name under `outputDir`,
      holding the redaction of the image read from `dir`. */
  function Outputs<P>(dir: string, outputDir: string, names: seq<string>, read: string -> Grid<P>,
                      c: Collaborators<P>, blurStrength: int): (out: seq<(string, Grid<P>)>)
    requires forall p :: Rectangular(read(p))
    ensures |out| == |names|
  {
    seq(|names|, m requires 0 <= m < |names| =>
      (Join(outputDir, names[m]), Redacted(read(Join(dir, names[m])), c, blurStrength)))
  }

  /** One more listing entry adds that entry when it passes the filter. */
  lemma ImageEntriesSnoc(dir: string, entries: seq<string>, n: nat)
    requires n < |entries|
    ensures ImageEntries(dir, entries[..n + 1]) ==
      ImageEntries(dir, entries[..n]) + (if IsImagePath(Join(dir, entries[n])) then [entries[n]] else [])
  {
    assert entries[..n + 1][..n] == entries[..n];
  }

  /** One more processed entry adds its output. */
  lemma OutputsSnoc<P>(dir: string, outputDir: string, names: seq<string>, name: string,
                       read: string -> Grid<P>, c: Collaborators<P>, blurStrength: int)
    requires forall p :: Rectangular(read(p))
    ensures Outputs(dir, outputDir, names + [name], read, c, blurStrength) ==
      Outputs(dir, outputDir, names, read, c, blurStrength) +
      [(Join(outputDir, name), Redacted(read(Join(dir, name)), c, blurStrength))]
  {
  }

  /** Image mode on a directory: the entries passing the filter are read,
      redacted and written under `outputDir` with the entry's name, in
      listing order; every other entry is skipped. `read` stands for
      `cv2.imread`. */
  method ImageDirectoryMode<P>(dir: string, entries: seq<string>, outputDir: string, read: string -> Grid<P>,
                               c: Collaborators<P>, blurStrength: int)
    returns (outputs: seq<(string, Grid<P>)>)
    requires forall p :: Rectangular(read(p))
    ensures outputs == Outputs(dir, outputDir, ImageEntries(dir, entries), read, c, blurStrength)
  {
    outputs := [];
    for n := 0 to |entries|
      invariant outputs == Outputs(dir, outputDir, ImageEntries(dir, entries[..n]), read, c, blurStrength)
    {
      var fileName := entries[n];
      var imgPath := Join(dir, fileName);
      ImageEntriesSnoc(dir, entries, n);
      if IsImagePath(imgPath) {
        var img := read(imgPath);
        img := Redacted(img, c, blurStrength);
        var outputPath := Join(outputDir, fileName);
        OutputsSnoc(dir, outputDir, ImageEntries(dir, entries[..n]), fileName, read, c, blurStrength);
        outputs := outputs + [(outputPath, img)];
      }
    }
    assert entries[..|entries|] == entries;
  }

  /** The frame counts at which video mode reports progress: every tenth. */
  function ProgressReports(count: nat): (reports: seq<nat>)
    ensures |reports| == count / 10
    ensures forall i :: 0 <= i < |reports| ==> 0 < reports[i] <= count && reports[i] % 10 == 0
  {
    seq(count / 10, i requires 0 <= i < count / 10 => 10 * (i + 1))
  }

  /** The reports come in increasing order of frame count. */
  lemma ProgressReportsIncreasing(count: nat, i: nat, j: nat)
    requires i < j < count / 10
    ensures ProgressReports(count)[i] < ProgressReports(count)[j]
  {
  }

  /** Exactly the multiples of ten up to the frame count are reported. */
  lemma ProgressReportsExactly(count: nat, m: nat)
    ensures m in ProgressReports(count) <==> 0 < m <= count && m % 10 == 0
  {
    var reports := ProgressReports(count);
    if 0 < m <= count && m % 10 == 0 {
      assert reports[m / 10 - 1] == m;
    }
  }

  /** One more frame adds a report exactly when the new count is a multiple
      of ten. */
  lemma ProgressStep(count: nat)
    ensures ProgressReports(count + 1) ==
      ProgressReports(count) + (if (count + 1) % 10 == 0 then [count + 1] else [])
  {
  }

  /** Video mode. A missing input ends the script before anything else; an
      unreadable first frame ends it with no writer returned. Otherwise the
      writer is opened with "MP4V" at 25 fps and the first frame's size
      rounded down to even, and every frame read is redacted and written
      once, in read order; `frameCount` counts the writes and a progress
      line goes out at every tenth. */
  method VideoMode<P>(existing: set<string>, inputPath: string, outputDir: string,
                      cap: VideoCapture<Grid<P>>, c: Collaborators<P>, blurStrength: int)
    returns (r: Result<VideoWriter<Grid<P>>, MediaError>, frameCount: nat, progress: seq<nat>)
    requires cap.Valid() && AllRectangular(cap.Remaining())
    modifies cap
    ensures cap.Valid()
    ensures inputPath !in existing ==> r == Failure(FileNotFound(inputPath)) && cap.pos == old(cap.pos)
    ensures inputPath in existing && old(cap.Remaining()) == [] ==> r == Failure(UnreadableVideo)
    ensures r.Failure? ==> frameCount == 0 && progress == []
    ensures inputPath in existing && old(cap.Remaining()) != [] ==>
      r.Success? && fresh(r.value) && cap.Remaining() == [] &&
      r.value.written == RedactSequence(old(cap.Remaining()), c, blurStrength) &&
      frameCount == |r.value.written| && progress == ProgressReports(frameCount) &&
      r.value.path == Join(outputDir, Basename(inputPath)) &&
      r.value.fourcc == "MP4V" && r.value.fps == 25 &&
      r.value.height == EvenDown(|old(cap.Remaining())[0]|) &&
      r.value.width == EvenDown(Width(old(cap.Remaining())[0]))
  {
    frameCount, progress := 0, [];
    if inputPath !in existing {
      return Failure(FileNotFound(inputPath)), frameCount, progress;
    }
    ghost var start := cap.pos;
    ghost var input := cap.frames[start..];
    var frame := cap.Read();
    if frame.None? {
      return Failure(UnreadableVideo), frameCount, progress;
    }
    var frameHeight := EvenDown(|frame.value|);
    var frameWidth := EvenDown(Width(frame.value));
    var writer := new VideoWriter(Join(outputDir, Basename(inputPath)), "MP4V", 25, frameWidth, frameHeight);
    while frame.Some?
      invariant cap.Valid() && input == cap.frames[start..]
      invariant frameCount <= |input| && cap.pos == start + frameCount + (if frame.Some? then 1 else 0)
      invariant frame.Some? ==> frameCount < |input| && frame.value == input[frameCount]
      invariant frame.None? ==> frameCount == |input|
      invariant fresh(writer) && writer.written == RedactSequence(input[..frameCount], c, blurStrength)
      invariant progress == ProgressReports(frameCount)
      decreases |input| - frameCount, if frame.Some? then 1 else 0
    {
      var redacted := Redacted(frame.value, c, blurStrength);
      writer.Write(redacted);
      RedactSequenceSnoc(input, frameCount, c, blurStrength);
      ProgressStep(frameCount);
      frameCount := frameCount + 1;
      if frameCount % 10 == 0 {
        progress := progress + [frameCount];
      }
      frame := cap.Read();
    }
    assert input[..frameCount] == input;
    return Success(writer), frameCount, progress;
  }
}
