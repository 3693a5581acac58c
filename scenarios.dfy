/** Clients of the image backing store that rely on its contracts alone. */
module Scenarios {
  import opened Types
  import opened Images

  /** Once an image is disposed, disposing it again, filling it and drawing
      onto it all fail with AlreadyDisposed, and sampling it gives
      transparent black. */
  method DisposeIsTerminal(i: ImageImpl, src: ImageImpl, c: Color, vertices: seq<int16>, geom: GeoM,
                           colorm: ColorM, mode: CompositeMode, context: GLContext)
    returns (first: Option<Error>, again: Option<Error>, fill: Option<Error>, draw: Option<Error>, s: Sample)
    requires i.Valid() && !i.disposed && src != i
    modifies i
    ensures first.None? ==>
      again == Some(AlreadyDisposed) && fill == Some(AlreadyDisposed) && draw == Some(AlreadyDisposed)
      && s == Pixel(Transparent)
  {
    first := i.Dispose();
    again, fill, draw, s := None, None, None, Pixel(Transparent);
    if first.None? {
      again := i.Dispose();
      fill := i.Fill(c);
      draw := i.DrawImage(src, vertices, 1, geom, colorm, mode);
      ghost var readErr;
      s, readErr := i.At(0, 0, true, context);
    }
  }

  /** Once `At` has returned a pixel, the cache is current: sampling the same
      pixel again makes no GPU call, cannot panic and gives the same colour. */
  method AtAgainIsCached(i: ImageImpl, x: int, y: int, context: GLContext) returns (first: Sample, second: Sample)
    requires i.Valid() && !i.disposed
    requires 0 <= x + y * i.width < i.width * i.height
    modifies i
    ensures first.Pixel? ==> second == first
  {
    ghost var readErr;
    first, readErr := i.At(x, y, true, context);
    second := first;
    if first.Pixel? {
      second, readErr := i.At(x, y, true, context);
      assert readErr.None?;
    }
  }

  /** A persistent image that was only filled keeps its colour in `baseColor`
      alone. A successful restore clears it without reading the texture back,
      so afterwards nothing on the CPU side remembers the colour. */
  method RestoreForgetsFillColour(i: ImageImpl, c: Color, context: GLContext) returns (err: Option<Error>)
    requires i.Valid() && !i.disposed && !i.screen && !i.volatile
    requires i.pixels == null && i.baseColor == Some(c) && i.history == []
    modifies i
    ensures err.None? ==> i.pixels == null && i.baseColor.None? && i.history == []
  {
    ghost var readBack;
    err, readBack := i.Restore(context);
  }

  /** Restoring does not depend on the order images are restored in: when
      every draw recorded in `b` comes from `a` and `a` has been flattened,
      `a` and `b` can be restored either way round, and `a` stays flattened. */
  method RestoreInEitherOrder(a: ImageImpl, b: ImageImpl, aFirst: bool, context: GLContext)
    returns (errA: Option<Error>, errB: Option<Error>)
    requires a != b && a.Valid() && b.Valid()
    requires a.history == []
    requires forall k :: 0 <= k < |b.history| ==> b.history[k].image == a
    modifies a, b
    ensures a.Valid() && b.Valid() && a.history == []
    ensures errB.None? && !b.screen && !b.volatile ==> b.history == [] && b.baseColor.None?
  {
    ghost var readBackA, readBackB;
    if aFirst {
      errA, readBackA := a.Restore(context);
      errB, readBackB := b.Restore(context);
    } else {
      errB, readBackB := b.Restore(context);
      errA, readBackA := a.Restore(context);
    }
  }
}
