/**
 * Constants and frame values shared by the decode-and-store pipeline and the
 * playback side of the player (A5.c).
 */
module Media {

  /** Number of frames the player keeps; also the initial packet budget. */
  const NUM_FRAMES: int := 100
  /** Height and width of the window and of the drawing surface. */
  const WIN_HEIGHT: int := 250
  const WIN_WIDTH: int := 320

  /** FFmpeg's AVERROR(EAGAIN) on Linux: the decoder has no output ready. */
  const EAGAIN_ERROR: int := -11
  /** FFmpeg's AVERROR_EOF, the negated tag 'E','O','F',' '. */
  const EOF_ERROR: int := -0x2046_4F45

  datatype Option<+T> = None | Some(value: T)

  /** Pixel formats: the decoder's usual output, the display target, or any other. */
  datatype PixelFormat = Yuv420p | Rgb24 | OtherFormat(id: int)

  /** A frame as the decoder hands it over; its pixel planes are not modelled. */
  datatype RawFrame = RawFrame(width: int, height: int, format: PixelFormat)

  /** Plane 0 of an allocated picture: its bytes and the distance between rows. */
  datatype Image = Image(data: seq<bv8>, linesize: int)

  /**
   * A converted frame as kept in the frame store. `image` is None when the
   * picture buffer could not be allocated (the frame is stored all the same).
   */
  datatype RgbFrame = RgbFrame(width: int, height: int, format: PixelFormat, image: Option<Image>)

  /**
   * What the outside world answers while one frame is converted: whether the
   * frame struct and its picture buffer could be allocated, and the bytes the
   * colour converter writes into the picture.
   */
  datatype Conversion = Conversion(frameAllocated: bool, imageAllocated: bool, pixels: seq<bv8>)

  /** Bytes of a packed three-channel picture with rows aligned to 1 byte. */
  function ImageBytes(width: int, height: int): nat
  {
    if width > 0 && height > 0 then 3 * width * height else 0
  }

  /**
   * The picture, when there is one, is the buffer av_image_alloc makes for a
   * width x height RGB24 frame at alignment 1: rows of 3 * width bytes, height
   * of them. av_image_alloc refuses a non-positive size.
   */
  predicate PictureSized(f: RgbFrame)
  {
    f.image.Some? ==>
      && f.width > 0 && f.height > 0
      && f.image.value.linesize == 3 * f.width
      && |f.image.value.data| == ImageBytes(f.width, f.height)
  }

  /** A converted frame as allocateFrame and save_rgb_frame can produce it. */
  type StoredFrame = f: RgbFrame | PictureSized(f) witness RgbFrame(0, 0, Rgb24, None)

  /**
   * allocateFrame: None stands for the process exiting with status 1 because
   * the frame struct could not be allocated; a failed picture allocation is
   * only logged and yields a frame without an image.
   */
  function AllocateFrame(width: int, height: int, frameAllocated: bool, imageAllocated: bool): (r: Option<StoredFrame>)
    ensures r.None? <==> !frameAllocated
    ensures r.Some? ==> r.value.width == width && r.value.height == height && r.value.format == Rgb24
    ensures r.Some? ==> (r.value.image.Some? <==> imageAllocated && width > 0 && height > 0)
    ensures r.Some? && r.value.image.Some? ==>
              r.value.image.value.linesize == 3 * width && |r.value.image.value.data| == 3 * width * height
  {
    if !frameAllocated then None
    else
      // the buffer's initial bytes are unspecified; zeros stand for them
      var image :=
        if imageAllocated && width > 0 && height > 0
        then Some(Image(seq(ImageBytes(width, height), _ => 0), 3 * width))
        else None;
      Some(RgbFrame(width, height, Rgb24, image))
  }

  /**
   * The picture buffer of `size` bytes once the converter has written
   * `pixels` into it from the start; bytes it does not reach keep the
   * buffer's initial content, zeros here.
   */
  function Scaled(size: nat, pixels: seq<bv8>): (r: seq<bv8>)
    ensures |r| == size
    ensures forall i :: 0 <= i < size ==> r[i] == if i < |pixels| then pixels[i] else 0
  {
    if |pixels| >= size then pixels[..size] else pixels + seq(size - |pixels|, _ => 0)
  }

  /**
   * The frame save_rgb_frame builds from a decoded frame: a fresh RGB24 frame
   * of the same size whose picture buffer holds what the converter wrote.
   */
  function ConvertFrame(src: RawFrame, conv: Conversion): (r: Option<StoredFrame>)
    ensures r.None? <==> !conv.frameAllocated
    ensures r.Some? ==> r.value.width == src.width && r.value.height == src.height && r.value.format == Rgb24
    ensures r.Some? ==> (r.value.image.Some? <==> conv.imageAllocated && src.width > 0 && src.height > 0)
    ensures r.Some? && r.value.image.Some? ==>
              && r.value.image.value.linesize == 3 * src.width
              && |r.value.image.value.data| == 3 * src.width * src.height
              && r.value.image.value.data == Scaled(ImageBytes(src.width, src.height), conv.pixels)
  {
    match AllocateFrame(src.width, src.height, conv.frameAllocated, conv.imageAllocated)
    case None => None
    case Some(f) =>
      if f.image.Some?
      then Some(f.(image := Some(f.image.value.(data := Scaled(|f.image.value.data|, conv.pixels)))))
      else Some(f)
  }
}
