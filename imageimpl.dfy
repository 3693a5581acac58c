/** The per-image backing store: an image's GPU texture together with the
    three CPU-side ways of rebuilding its content after the GL context is
    lost (a pixel cache, a flat base colour and a log of draws), and the
    transitions that keep them consistent. */
module Images {
  import opened Types
  import Backend
  import PixelBuffers

  /** One recorded draw: the source image (compared by identity, not owned),
      the vertices and the transforms it was drawn with. */
  datatype HistoryItem = HistoryItem(image: ImageImpl, vertices: seq<int16>, geom: GeoM, colorm: ColorM,
                                     mode: CompositeMode)

  /** Some draw in `history` took `target` as its source. */
  predicate DrawsFrom(history: seq<HistoryItem>, target: ImageImpl)
  {
    exists k :: 0 <= k < |history| && history[k].image == target
  }

  /** What point sampling yields: a colour, or the panic raised when the
      readback fails. */
  datatype Sample = Pixel(color: Color) | Panic(cause: GpuError)

  class ImageImpl {
    var texture: Backend.Texture?
    var disposed: bool
    const width: nat
    const height: nat
    const filter: Filter
    /** The CPU pixel cache; null when absent. */
    var pixels: array?<byte>
    var baseColor: Option<Color>
    /** The draws since the content was last flattened, oldest first. */
    var history: seq<HistoryItem>
    const volatile: bool
    const screen: bool

    /** The object invariant: a cache of exactly 4 bytes per pixel, a texture
        of the image's own size, no draw from the image itself, and nothing
        left to rebuild from once disposed. */
    ghost predicate Valid()
      reads this
    {
      && (pixels != null ==> pixels.Length == 4 * width * height)
      && (texture != null ==> texture.width == width && texture.height == height)
      && (forall k :: 0 <= k < |history| ==> history[k].image != this)
      && (disposed ==> texture == null && baseColor.None? && history == [])
    }

    constructor Init(texture: Backend.Texture, width: nat, height: nat, filter: Filter, pixels: array<byte>,
                     volatile: bool, screen: bool)
      requires texture.width == width && texture.height == height
      requires pixels.Length == 4 * width * height
      ensures Valid()
      ensures this.texture == texture && this.pixels == pixels && !disposed
      ensures this.width == width && this.height == height && this.filter == filter
      ensures this.volatile == volatile && this.screen == screen
      ensures baseColor.None? && history == []
    {
      this.texture := texture;
      this.disposed := false;
      this.width := width;
      this.height := height;
      this.filter := filter;
      this.pixels := pixels;
      this.baseColor := None;
      this.history := [];
      this.volatile := volatile;
      this.screen := screen;
    }

    /** A blank image with a zeroed (transparent) pixel cache. */
    static method NewImageImpl(width: nat, height: nat, filter: Filter, volatile: bool)
      returns (i: ImageImpl?, err: Option<Error>)
      ensures (i == null) == err.Some?
      ensures err.Some? ==> err.value.GpuFailure?
      ensures i != null ==>
        && fresh(i) && i.Valid() && !i.disposed && i.texture != null
        && i.width == width && i.height == height && i.filter == filter
        && i.volatile == volatile && !i.screen
        && i.pixels != null && fresh(i.pixels) && (forall k :: 0 <= k < i.pixels.Length ==> i.pixels[k] == 0)
        && i.baseColor.None? && i.history == []
    {
      var t, e := Backend.NewImage(width, height, filter);
      if e.Some? {
        return null, Lift(e);
      }
      var pixels := new byte[width * height * 4](_ => 0);
      i := new ImageImpl.Init(t, width, height, filter, pixels, volatile, false);
      err := None;
    }

    /** An image holding a decoded RGBA image; its pixel cache is that image
        normalised to rows of exactly `4 * width` bytes. */
    static method NewImageImplFromImage(source: Rgba, filter: Filter) returns (i: ImageImpl?, err: Option<Error>)
      requires PixelBuffers.RowsFit(|source.pix|, source.stride, 4 * source.width, source.height)
      ensures (i == null) == err.Some?
      ensures err.Some? ==> err.value.GpuFailure?
      ensures i != null ==>
        && fresh(i) && i.Valid() && !i.disposed && i.texture != null
        && i.width == source.width && i.height == source.height && i.filter == filter
        && !i.volatile && !i.screen
        && i.pixels != null && fresh(i.pixels)
        && i.pixels[..] == PixelBuffers.Rows(source.pix, source.stride, 4 * source.width, source.height)
        && i.baseColor.None? && i.history == []
    {
      var w, h := source.width, source.height;
      var pixels := PixelBuffers.NormalizeRows(source);
      var t, e := Backend.NewImageFromImage(source, filter);
      if e.Some? {
        return null, Lift(e);
      }
      i := new ImageImpl.Init(t, w, h, filter, pixels, false, false);
      err := None;
    }

    /** The image bound to the platform framebuffer: always volatile. */
    static method NewScreenImageImpl(width: nat, height: nat) returns (i: ImageImpl?, err: Option<Error>)
      ensures (i == null) == err.Some?
      ensures err.Some? ==> err.value.GpuFailure?
      ensures i != null ==>
        && fresh(i) && i.Valid() && !i.disposed && i.texture != null
        && i.width == width && i.height == height && i.filter == FilterNearest
        && i.volatile && i.screen
        && i.pixels != null && fresh(i.pixels) && (forall k :: 0 <= k < i.pixels.Length ==> i.pixels[k] == 0)
        && i.baseColor.None? && i.history == []
    {
      var t, e := Backend.NewScreenFramebufferImage(width, height);
      if e.Some? {
        return null, Lift(e);
      }
      var pixels := new byte[width * height * 4](_ => 0);
      i := new ImageImpl.Init(t, width, height, FilterNearest, pixels, true, true);
      err := None;
    }

    /** Fills the image with one colour, which becomes its only reconstruction basis. */
    method Fill(clr: Color) returns (err: Option<Error>)
      requires Valid()
      modifies this
      ensures Valid()
      ensures old(disposed) ==> err == Some(AlreadyDisposed) && unchanged(this)
      ensures !old(disposed) ==>
        && pixels == null && baseColor == Some(clr) && history == []
        && !disposed && texture == old(texture)
        && (err.Some? ==> err.value.GpuFailure?)
    {
      if disposed {
        return Some(AlreadyDisposed);
      }
      pixels := null;
      baseColor := Some(clr);
      history := [];
      var e := Backend.Fill(texture, clr);
      err := Lift(e);
    }

    /** The per-frame clear of a volatile image: afterwards nothing is kept to
        rebuild it from, and its texture is filled with transparent black. */
    method ClearIfVolatile() returns (err: Option<Error>)
      requires Valid()
      modifies this
      ensures Valid()
      ensures old(disposed) || !volatile ==> err.None? && unchanged(this)
      ensures !old(disposed) && volatile ==>
        && pixels == null && baseColor.None? && history == []
        && !disposed && texture == old(texture)
        && (err.Some? ==> err.value.GpuFailure?)
    {
      if disposed {
        return None;
      }
      if !volatile {
        return None;
      }
      pixels := null;
      baseColor := None;
      history := [];
      var e := Backend.Fill(texture, Transparent);
      err := Lift(e);
    }

    /** Composites `src` into this image and records the draw. `quadCount` is
        the number of quads the quad computation produced; `vertices` is the
        buffer it wrote them into. */
    method DrawImage(src: ImageImpl, vertices: seq<int16>, quadCount: nat, geom: GeoM, colorm: ColorM,
                     mode: CompositeMode) returns (err: Option<Error>)
      requires Valid()
      modifies this
      ensures Valid()
      ensures quadCount == 0 ==> err.None? && unchanged(this)
      ensures quadCount != 0 && src == this ==> err == Some(SelfDraw) && unchanged(this)
      ensures quadCount != 0 && src != this && old(disposed) ==> err == Some(AlreadyDisposed) && unchanged(this)
      ensures quadCount != 0 && src != this && !old(disposed) ==>
        && history == old(history) + [HistoryItem(src, vertices, geom, colorm, mode)]
        && pixels == old(pixels) && baseColor == old(baseColor)
        && !disposed && texture == old(texture)
        && (err.Some? ==> err.value.GpuFailure?)
    {
      if quadCount == 0 {
        return None;
      }
      if this == src {
        return Some(SelfDraw);
      }
      if disposed {
        return Some(AlreadyDisposed);
      }
      history := history + [HistoryItem(src, vertices, geom, colorm, mode)];
      var e := Backend.DrawImage(texture, src.texture, vertices, geom, colorm, mode);
      err := Lift(e);
    }

    /** Samples the pixel at (x, y), reading the texture back first when the
        cache is absent or out of date. `loopRunning` says whether the game
        loop (and so the GL context) is up. `readErr` is the outcome of that
        readback, `None` when there was none. */
    method At(x: int, y: int, loopRunning: bool, context: GLContext) returns (s: Sample, ghost readErr: Option<GpuError>)
      requires loopRunning
      requires Valid()
      requires !disposed ==> 0 <= x + y * width < width * height
      modifies this
      ensures Valid()
      ensures old(disposed) ==> s == Pixel(Transparent) && unchanged(this)
      ensures !old(disposed) ==>
        && baseColor == old(baseColor) && texture == old(texture) && !disposed
        && (old(pixels) != null && old(history) == [] ==> pixels == old(pixels) && history == [])
        && (old(pixels) == null || old(history) != [] ==> pixels == null || fresh(pixels))
      ensures readErr.Some? ==> !old(disposed) && (old(pixels) == null || old(history) != [])
      ensures s.Panic? <==> readErr.Some?
      ensures s.Panic? ==> s.cause == readErr.value && history == old(history)
      ensures s.Pixel? && !old(disposed) ==>
        && pixels != null && history == []
        && 0 <= 4 * x + 4 * y * width && 4 * x + 4 * y * width + 3 < pixels.Length
        && s.color == Color(pixels[4 * x + 4 * y * width], pixels[4 * x + 4 * y * width + 1],
                            pixels[4 * x + 4 * y * width + 2], pixels[4 * x + 4 * y * width + 3])
    {
      readErr := None;
      if disposed {
        return Pixel(Transparent), readErr;
      }
      if pixels == null || history != [] {
        var buf, e := Backend.Pixels(texture, context);
        pixels := buf;
        readErr := e;
        if e.Some? {
          return Panic(e.value), readErr;
        }
        history := [];
      }
      var idx := 4 * x + 4 * y * width;
      assert idx + 4 <= 4 * width * height;
      s := Pixel(Color(pixels[idx], pixels[idx + 1], pixels[idx + 2], pixels[idx + 3]));
    }

    /** Whether some recorded draw took `target` as its source. */
    method HasHistoryWith(target: ImageImpl) returns (b: bool)
      ensures b <==> DrawsFrom(history, target)
    {
      for k := 0 to |history|
        invariant forall m :: 0 <= m < k ==> history[m].image != target
      {
        if history[k].image == target {
          return true;
        }
      }
      return false;
    }

    /** Flattens the history into the pixel cache when it draws from `target`,
        which is about to change, so that restoring never replays a draw from
        content that is gone. A failed readback is ignored. `readErr` is the
        outcome of the readback, `None` when there was none. */
    method ResetHistoryIfNeeded(target: ImageImpl, context: GLContext)
      returns (err: Option<Error>, ghost readErr: Option<GpuError>)
      requires Valid()
      modifies this
      ensures Valid()
      ensures err.None?
      ensures old(disposed) || old(history) == [] || !DrawsFrom(old(history), target) ==>
        unchanged(this) && readErr.None?
      ensures texture == old(texture) && disposed == old(disposed)
      ensures !old(disposed) && old(history) != [] && DrawsFrom(old(history), target) ==>
        && (readErr.None? ==> pixels != null && fresh(pixels) && baseColor.None? && history == [])
        && (readErr.Some? ==> (pixels == null || fresh(pixels))
                              && baseColor == old(baseColor) && history == old(history))
    {
      readErr := None;
      if disposed {
        return None, readErr;
      }
      if history == [] {
        return None, readErr;
      }
      var has := HasHistoryWith(target);
      if !has {
        return None, readErr;
      }
      var buf, e := Backend.Pixels(texture, context);
      pixels := buf;
      readErr := e;
      if e.Some? {
        return None, readErr;
      }
      baseColor := None;
      history := [];
      return None, readErr;
    }

    /** Whether any draw is recorded. */
    method HasHistory() returns (b: bool)
      ensures b <==> history != []
    {
      b := history != [];
    }

    /** Rebuilds the image after its GL context was recreated. `readBack`
        says whether the rebuilt texture was read back into the cache, which
        only a persistent image with a history does, after every replayed
        draw succeeded. */
    method Restore(context: GLContext) returns (err: Option<Error>, ghost readBack: bool)
      requires Valid()
      requires !disposed && !screen && !volatile ==> forall k :: 0 <= k < |history| ==> history[k].image.history == []
      modifies this
      ensures Valid()
      ensures old(disposed) ==> err.None? && unchanged(this)
      ensures err.Some? ==> err.value.GpuFailure?
      ensures !old(disposed) ==> !disposed && (err.None? ==> texture != null && fresh(texture))
      ensures !old(disposed) && (screen || volatile) ==>
        pixels == old(pixels) && baseColor == old(baseColor) && history == old(history)
      ensures !readBack ==> pixels == old(pixels)
      ensures readBack ==>
        !old(disposed) && !screen && !volatile && old(history) != [] && (pixels == null || fresh(pixels))
      ensures !old(disposed) && !screen && !volatile && err.None? && old(history) != [] ==> readBack
      ensures !old(disposed) && !screen && !volatile ==>
        && (err.None? ==> baseColor.None? && history == [])
        && (err.None? && old(history) != [] ==> pixels != null && fresh(pixels))
        && (err.Some? ==> baseColor == old(baseColor) && history == old(history))
    {
      readBack := false;
      if disposed {
        return None, readBack;
      }
      if screen {
        var t, e := Backend.NewScreenFramebufferImage(width, height);
        texture := t;
        return Lift(e), readBack;
      }
      if !volatile {
        var img := PixelBuffers.SeedBuffer(pixels, baseColor, width, height);
        var t, e := Backend.NewImageFromImage(Rgba(img[..], 4 * width, width, height), filter);
        texture := t;
        if e.Some? {
          return Lift(e), readBack;
        }
        for k := 0 to |history|
          invariant texture == t && !disposed
          invariant pixels == old(pixels) && baseColor == old(baseColor) && history == old(history)
        {
          var c := history[k];
          var pending := c.image.HasHistory();
          if pending {
            assert false;
          }
          var de := Backend.DrawImage(texture, c.image.texture, c.vertices, c.geom, c.colorm, c.mode);
          if de.Some? {
            return Lift(de), readBack;
          }
        }
        if 0 < |history| {
          var buf, pe := Backend.Pixels(texture, context);
          pixels := buf;
          readBack := true;
          if pe.Some? {
            return Lift(pe), readBack;
          }
        }
        baseColor := None;
        history := [];
        return None, readBack;
      }
      var t, e := Backend.NewImage(width, height, filter);
      texture := t;
      return Lift(e), readBack;
    }

    /** Releases the image; every later operation but sampling fails. */
    method Dispose() returns (err: Option<Error>)
      requires Valid()
      modifies this
      ensures Valid()
      ensures old(disposed) ==> err == Some(AlreadyDisposed) && unchanged(this)
      ensures !old(disposed) && screen ==> err.None?
      ensures !old(disposed) && err.None? ==>
        disposed && texture == null && pixels == null && baseColor.None? && history == []
      ensures !old(disposed) && err.Some? ==> err.value.GpuFailure? && unchanged(this)
    {
      if disposed {
        return Some(AlreadyDisposed);
      }
      if !screen {
        var e := Backend.Dispose(texture);
        if e.Some? {
          return Lift(e);
        }
      }
      texture := null;
      disposed := true;
      pixels := null;
      baseColor := None;
      history := [];
      return None;
    }

    /** Replaces every pixel of the image. The length is checked first; the
        cache is written before the disposed check. */
    method ReplacePixels(p: seq<byte>) returns (err: Option<Error>)
      requires Valid()
      modifies this, pixels
      ensures Valid()
      ensures |p| != 4 * width * height ==>
        && err == Some(SizeMismatch(4 * width * height)) && unchanged(this)
        && (pixels != null ==> unchanged(pixels))
      ensures |p| == 4 * width * height ==>
        && pixels != null && pixels[..] == p
        && (old(pixels) != null ==> pixels == old(pixels))
        && (old(pixels) == null ==> fresh(pixels))
        && baseColor.None? && history == []
        && disposed == old(disposed) && texture == old(texture)
        && (old(disposed) ==> err == Some(AlreadyDisposed))
        && (err.Some? && !old(disposed) ==> err.value.GpuFailure?)
    {
      var l := 4 * width * height;
      if |p| != l {
        return Some(SizeMismatch(l));
      }
      if pixels == null {
        pixels := new byte[width * height * 4](_ => 0);
      }
      var _ := PixelBuffers.Copy(pixels, 0, pixels.Length, p);
      baseColor := None;
      history := [];
      if disposed {
        return Some(AlreadyDisposed);
      }
      var e := Backend.ReplacePixels(texture, p);
      err := Lift(e);
    }

    /** Whether the image has been disposed. */
    method IsDisposed() returns (b: bool)
      ensures b == disposed
    {
      b := disposed;
    }

    /** Whether the texture was lost with the given GL context; the backend decides. */
    method IsInvalidated(context: GLContext) returns (b: bool)
    {
      b := Backend.IsInvalidated(texture, context);
    }
  }
}
