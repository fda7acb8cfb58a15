# Face redaction pipeline, modelled in Dafny

The system blurs faces in images and videos. A pretrained face detector
(mediapipe) reports each face as a box whose coordinates are fractions of the
frame's width and height. The pipeline turns each box into pixel coordinates
with `max(0, int(frac * dim))`. It then overwrites the numpy slice
`img[y:y+h, x:x+w]` with `cv2.blur` of that same slice. Around this core
there are three more pieces: image files and image directories, video files
(read frame by frame, redacted, written to a writer whose codec depends on
the file extension), and a webcam loop. Two files hold this logic:
`processor.py` (the library functions) and `main.py` (a command-line script
with its own copy of the redactor).

The model is organised as follows:

- `Builtins`: the Python built-ins the code relies on. `int()` on a float
  truncates toward zero. `str.lower()` is modelled for ASCII letters and
  KELVIN SIGN, and `str.endswith()` is included.
- `Paths`: `os.path.basename`, `os.path.join` and the extension half of
  `os.path.splitext`.
- `Geometry`: the mapping from a box to a pixel rectangle, and numpy's
  clipping of a slice to the frame.
- `Redaction`: what redacting a frame means, stated as functions on a grid
  of pixels (`seq<seq<P>>`), with lemmas about those functions. It also holds
  the in-place write of one slice into an `array2`. The detector and the blur
  filter are function parameters. The blur is read one output pixel at a
  time, so its result always has the shape of its input block.
- `Media`: a video capture modelled as a class over a finite sequence of
  frames with a read position, and a video writer modelled as a class that
  records the frames written to it.
- `Processor`: processor.py.
- `MainScript`: main.py.

`process_image` and `process_img` change the frame in place. Their models,
`Processor.ProcessImage` and `MainScript.ProcessImg`, are methods on an
`array2`. Each is proved to leave the array equal to
`Redaction.RedactFrame` of its old contents. The video loops and the
directory loop are methods with loop invariants. They apply
`Redaction.Redacted`, which is that same function applied to the detector's
output, to each frame.

A note on clamping: the code never clamps the rectangle. The origin is only
kept non-negative. A rectangle that reaches past the frame writes nothing
outside it, because numpy slicing cuts both ends of a slice down to the frame
size; `Geometry.ClipSpan` is that clipping. This is harmless as long as the
clipped slice is not empty. When it is empty (an origin at or past the edge,
or a width or height that truncates to 0), `cv2.blur` fails; see the
`Redaction.BlurRect` line under "Left out". Coordinates are truncated by
`int()`, not rounded, and the model truncates.

## Model

| member | source | states |
|---|---|---|
| Builtins.Trunc | processor.py:16 | `int()` on a float truncates toward zero: for v ≥ 0 the result is the largest integer ≤ v, and for v ≤ 0 it is the smallest integer ≥ v |
| Geometry.ToPixelRect | processor.py:16-19 | each of the four coordinates of the rectangle is the pixel its scaled box coordinate falls in when that coordinate is non-negative, and is 0 exactly when the scaled coordinate is below one pixel (every negative coordinate included) |
| Geometry.ToPixel | processor.py:16-19 | `max(0, int(frac*dim))` is never negative. For a non-negative product it is the product's floor. It is 0 exactly when the product is below 1, which includes every negative product |
| Geometry.ClipSpan | processor.py:21 | the rows (or columns) numpy selects with `a[s:s+len]` on an axis of length `dim` are exactly the k with `s ≤ k < s+len` and `k < dim`. The range lies inside the axis, and an origin past the edge selects nothing |
| Geometry.UnitBoxInsideFrame | processor.py:16-19 | a box with non-negative coordinates inside the unit square maps to a rectangle inside the frame (`x+w ≤ W`, `y+h ≤ H`), so clipping never cuts it |
| Geometry.TenPercentBox | processor.py:16-19 | the box (0.1, 0.1, 0.2, 0.2) in a 100×100 frame becomes the rectangle at (10, 10) of size 20×20 |
| Geometry.FullBoxCoversFrame | processor.py:16-21 | the whole-frame box (0, 0, 1, 1) selects every pixel of the frame |
| Redaction.Crop | processor.py:21 | the block `img[y0:y1, x0:x1]` has the span's size, and its pixel (i, j) is the frame's pixel (y0+i, x0+j) |
| Redaction.BlurRect | processor.py:21 | one slice assignment keeps the frame's shape and leaves every pixel outside the clipped slice unchanged |
| Redaction.RedactRects | processor.py:13-21 | blurring the rectangles one after another, each on the frame the previous one left, keeps the frame's shape |
| Redaction.RedactFrame | processor.py:12-23 | redaction keeps the frame's shape. With no detections (`None` or an empty list) it returns the frame unchanged |
| Redaction.RedactRectsOutside | processor.py:13-21 | a pixel outside the clipped slice of every rectangle keeps its original value after all of them are blurred (proved by induction over the rectangles) |
| Redaction.RedactFrameOutside | processor.py:12-23 | only pixels inside the clipped slice of some detection can change. The pixels that can change depend only on the boxes and the frame size, not on the pixel values |
| Redaction.SingleDetectionInside | processor.py:21 | with one detection, every pixel of its clipped slice becomes the blur of the original block at the same position |
| Redaction.FullFrameDetection | processor.py:16-21 | one whole-frame detection blurs the entire frame: each pixel becomes the blur of the whole frame at that pixel |
| Redaction.BlurRectInPlace | processor.py:21 | the in-place slice write leaves the array equal to `BlurRect` of its old contents, with the block read before anything is written |
| Redaction.Redacted | processor.py:83 | redacting a frame with its own detections keeps its height and width, and a frame in which the detector finds nothing comes back unchanged |
| Redaction.RedactSequence | processor.py:82-85 | redacting a stream yields one frame per input frame |
| Redaction.RedactSequenceFrames | processor.py:82-85 | frame n of the redacted stream is the redaction of input frame n and has its size, so every output frame is a proper frame |
| Processor.ProcessImage | processor.py:6-23 | after `process_image`, the array equals `RedactFrame` of its old contents under the detections found in it. The `for` loop keeps the invariant "frame = first n detections applied" |
| Processor.ProcessImageFile | processor.py:26-42 | a missing input gives `FileNotFound` and nothing else. Otherwise the result is the redacted image, written at `join(output_dir, basename(input))`: the path starts with the output directory and has the input's base name |
| Paths.Basename | processor.py:39 | `basename(p)` is the longest suffix of `p` that has no '/', so the character just before it is '/' |
| Paths.Join | processor.py:39 | an absolute name replaces the directory. A relative one is joined with at most one added character between the directory and the name |
| Paths.BasenameOfJoin | processor.py:39 | joining a directory with a name that has no '/' and then taking the base name gives back that name |
| Paths.JoinExtends | processor.py:39 | joining a relative name puts the directory first and the name last. When the directory is not empty exactly one '/' separates them, and none is added when the directory already ends with one |
| Paths.ExtensionOfJoin | processor.py:65 | a file named `stem + ext` in any directory has the extension `ext`, when `ext` is a '.' followed by no other '.' and `stem` has a character other than '.' |
| Paths.ExtensionOfBasename | processor.py:65 | the extension depends only on the base name: a path whose base name is `stem + ext` under the same conditions has the extension `ext` |
| Paths.Extension | processor.py:65 | `splitext(p)[1]` is empty or a suffix of `p` that starts with '.' and contains no other '.' and no '/'. A non-empty extension leaves, in the base name, at least one character other than '.' in front of it, so a leading dot never starts an extension |
| Paths.DotFileHasNoExtension | processor.py:65 | a base name made of a '.' followed by no other '.' (such as `.avi`) has no extension, so such a file gets the default codec |
| Processor.VideoCodec | processor.py:45-54 | `.avi`→XVID, `.mov`→avc1, `.mkv`→X264, `.wmv`→WMV1, each exactly when the lower-cased extension is that key. Every other extension (`.mp4` included) gives mp4v, so the result is always one of the five codes |
| Processor.CodecOfFileName | processor.py:65-66 | the codec chosen for a video named `stem + ext` is the codec of `ext`, so `clip.AVI` is written with XVID and `clip.mp4` with mp4v |
| Processor.VideoCodecIgnoresCase | processor.py:54 | two extensions that differ only in letter case get the same codec, and an extension gets the same codec as its lower-cased form |
| Builtins.LowerChar | processor.py:54 | lower-casing one character leaves no upper-case ASCII letter. It maps A-Z to a-z at the fixed ASCII distance, maps KELVIN SIGN to 'k', and changes no other character |
| Builtins.LowerCharacters | main.py:53 | the model's `Lower` keeps the length, leaves no upper-case ASCII letter, keeps lower-case letters, and changes only A-Z and KELVIN SIGN |
| Builtins.LowerAppend | main.py:53 | the model's `Lower` of a concatenation is the concatenation of each part's `Lower` |
| Builtins.EndsWithIffConcat | main.py:53 | `s.endswith(suffix)` holds exactly when `s` is some string followed by `suffix` |
| Builtins.LowerIdempotent | processor.py:54 | applying the model's `Lower` to an already lower-cased string changes nothing |
| Processor.Fps | processor.py:79 | the frame rate is never 0. It is 25 when the reported rate truncates to 0, and otherwise the reported rate truncated toward zero |
| Processor.ProcessVideoFile | processor.py:57-90 | a missing input gives `FileNotFound` and leaves the capture untouched. An empty capture gives the unreadable-video error and no writer. Otherwise a fresh writer gets the input's base name under the output directory, the codec of the input's extension, `Fps` of the reported rate and the first frame's size. It receives every frame read, redacted, exactly once and in read order, and the capture is left exhausted |
| Media.VideoCapture.constructor | processor.py:70 | a new capture is positioned before its first frame, so every frame is still to be read |
| Media.VideoCapture.Read | processor.py:71 | `cap.read()` returns the next frame and advances, or fails and stays at the end once every frame has been read |
| Media.VideoWriter.constructor | processor.py:80 | a new writer keeps the path, codec, frame rate and size it was opened with, and has written nothing yet |
| Media.VideoWriter.Write | processor.py:84 | a write appends the frame to what has been written |
| MainScript.ProcessImg | main.py:18-34 | `process_img` (guarded by `is not None`) leaves the array equal to the same `RedactFrame` as processor.py's `process_image`, so the two copies agree |
| MainScript.EvenDown | main.py:77-78 | `n - n % 2` is even, at most `n`, and differs from `n` by at most 1 |
| MainScript.IsImagePathBySuffix | main.py:53 | the filter accepts a path exactly when its last four characters lower-case to `.png` or `.jpg`, or its last five to `.jpeg`. Nothing before those characters matters, and neither does their case |
| MainScript.IsImagePathOfJoin | main.py:52-53 | the filter tests the joined path. For a directory entry (a name with no '/') this gives the same answer as testing the entry name itself |
| MainScript.ImageEntries | main.py:51-53 | an entry is processed exactly when it is in the listing and its lower-cased joined path ends in `.png`, `.jpg` or `.jpeg` |
| MainScript.ImageEntriesAppend | main.py:51-53 | filtering keeps listing order: filtering a concatenated listing gives the filtered parts, concatenated |
| MainScript.SampleNames | main.py:53 | the filter accepts `a.png` and `B.JPEG` (upper case included) and rejects `notes.txt` |
| MainScript.TwoImagesAndANote | main.py:51-53 | a listing holding an image, another file and a second image (such as `a.png`, `notes.txt`, `B.JPEG`) yields exactly the two images, in listing order, in any directory |
| MainScript.Outputs | main.py:55-58 | each processed entry produces exactly one output |
| MainScript.ImageDirectoryMode | main.py:49-59 | the `for` loop writes, in listing order, one output per filtered entry: the entry's name under the output directory, holding the redacted image |
| MainScript.ProgressReports | main.py:86-88 | after `count` frames there are `count / 10` progress lines, and each one is at a positive multiple of 10 no greater than `count` |
| MainScript.ProgressReportsIncreasing | main.py:86-88 | progress lines come out in increasing order of frame count |
| MainScript.ProgressReportsExactly | main.py:86-88 | a progress line is printed exactly at the frame counts that are positive multiples of 10 and no greater than the final count |
| MainScript.ProgressStep | main.py:86-88 | counting one more frame adds a progress line exactly when the new count is a multiple of 10 |
| MainScript.VideoMode | main.py:68-89 | a missing input (checked at main.py:37-39) or an unreadable first frame ends the script with that error and no writer. Otherwise the writer uses "MP4V" at 25 fps with the first frame's height and width rounded down to even. Every frame read is redacted and written exactly once, in order. At loop exit `frame_count` equals the number of frames written, and the progress lines are exactly every tenth count |

## Left out

- Face detection is a pretrained foreign model. It is a parameter `detect` from a frame to an optional list of boxes, with no assumption on the range of the boxes. This also covers the BGR→RGB conversion before the call and the 0.5 confidence threshold.
- `cv2.blur` is a parameter: a function from a block, the kernel size and a position to a pixel. Nothing is claimed about blurred pixel values. A kernel size below 1 makes OpenCV fail; this is not modelled, and the code does not validate the blur strength either.
- Redaction.BlurRect: an empty clipped slice is a no-op in the model, while `cv2.blur` raises on an empty block and `process_image` aborts. The slice is empty when a rectangle's origin is at or past the frame's edge, or its width or height truncates to 0.
- File and media I/O are not modelled: `imread`, `imwrite`, encoding and decoding, `makedirs`, `isdir`, `listdir`, `release`, and the `with` scope of the detector. Existing files are a map from path to image (`files`) or a set of paths (`existing`). `imread` is a total function `read`. A directory listing is a sequence of names. An image file that exists but does not decode (`imread` returns `None` and the code then fails) is not modelled.
- A video capture is the finite sequence of frames that decode successfully. A decoding failure in the middle of a stream shows up as the end of that sequence. The reported frame rate is a real number, so a NaN rate (for which `int()` raises) is not modelled.
- main.py gives the writer the even-rounded size but writes the unrounded frames. The model records the frames exactly as written. How OpenCV handles a frame whose size differs from the writer's is not modelled.
- The video and directory loops apply the redaction function `Redaction.Redacted` to frame values. They do not call the in-place methods on a fresh array, because the in-place methods are proved equal to that function.
- The webcam loops (processor.py:93-118, main.py:95-116) are not modelled. They depend on the camera device, the display window and key presses.
- Argument parsing (main.py:1-15) and mode dispatch (main.py:41-48, 68, 95) are not modelled. main.py's single-image branch (main.py:60-66) is the same composition as `process_image_file`, apart from the existence check at main.py:37-39, so `Processor.ProcessImageFile` stands for both.
- gui.py is a Tkinter front end. test/test.py only checks that output files exist and can be read back. Neither holds logic of the pipeline.
- Box coordinates are real numbers. Floating-point rounding in `frac * dim` is not modelled.
- `Builtins.Lower` models `str.lower()` only for A-Z and KELVIN SIGN. KELVIN SIGN is the only non-ASCII character that lower-cases to a single ASCII letter. Every other non-ASCII case mapping leaves a non-ASCII character in the result, so it cannot turn a string into one of the ASCII extensions compared against. The codec lookup and the image filter therefore agree with Python on every input. Python's `str.lower()` itself differs from `Lower` in ways this does not affect: it can change the length (U+0130, capital I with dot above, becomes 'i' followed by a combining dot), it changes many non-ASCII letters ('É' becomes 'é'), and it does not distribute over concatenation (a capital sigma at the end of a word becomes final sigma). Every one of these produces non-ASCII output, so none can produce an ASCII key.
- Paths are POSIX paths: '/' is the only separator. The Windows rules of `os.path` (backslashes, drive letters) are not modelled.
