/** The GPU texture backend the image backing store drives. It is a foreign
    collaborator: texture contents are not modelled, and every call may fail
    with an error the model leaves unconstrained. What it does promise is the
    size of what it creates and of what it reads back. */
module Backend {
  import opened Types

  /** A GPU texture or framebuffer handle of a fixed size. */
  class Texture {
    const width: nat
    const height: nat

    constructor (width: nat, height: nat)
      ensures this.width == width && this.height == height
    {
      this.width := width;
      this.height := height;
    }
  }

  /** Allocates a blank texture. */
  method NewImage(width: nat, height: nat, filter: Filter) returns (t: Texture?, err: Option<GpuError>)
    ensures err.None? ==> t != null
    ensures t != null ==> fresh(t) && t.width == width && t.height == height
  {
    err := *;
    if err.None? { t := new Texture(width, height); } else { t := null; }
  }

  /** Allocates a texture holding the given image. */
  method NewImageFromImage(img: Rgba, filter: Filter) returns (t: Texture?, err: Option<GpuError>)
    ensures err.None? ==> t != null
    ensures t != null ==> fresh(t) && t.width == img.width && t.height == img.height
  {
    err := *;
    if err.None? { t := new Texture(img.width, img.height); } else { t := null; }
  }

  /** Binds the platform framebuffer as a texture of the given size. */
  method NewScreenFramebufferImage(width: nat, height: nat) returns (t: Texture?, err: Option<GpuError>)
    ensures err.None? ==> t != null
    ensures t != null ==> fresh(t) && t.width == width && t.height == height
  {
    err := *;
    if err.None? { t := new Texture(width, height); } else { t := null; }
  }

  /** Fills the whole texture with one colour. */
  method Fill(t: Texture?, c: Color) returns (err: Option<GpuError>)
  {
    err := *;
  }

  /** Composites `src` into `dst` along the given vertices. */
  method DrawImage(dst: Texture?, src: Texture?, vertices: seq<int16>, geom: GeoM, colorm: ColorM,
                   mode: CompositeMode) returns (err: Option<GpuError>)
  {
    err := *;
  }

  /** Reads the texture back into a new buffer of 4 bytes per pixel. On failure
      the buffer returned may be absent. */
  method Pixels(t: Texture?, context: GLContext) returns (buf: array?<byte>, err: Option<GpuError>)
    ensures err.None? ==> buf != null
    ensures buf != null ==> fresh(buf) && t != null && buf.Length == 4 * t.width * t.height
  {
    err := *;
    if err.None? && t != null {
      buf := new byte[4 * t.width * t.height];
    } else {
      buf := null;
      err := Some(GpuError(-1));
    }
  }

  /** Uploads a whole pixel buffer into the texture. */
  method ReplacePixels(t: Texture?, p: seq<byte>) returns (err: Option<GpuError>)
  {
    err := *;
  }

  /** Releases the texture. */
  method Dispose(t: Texture?) returns (err: Option<GpuError>)
  {
    err := *;
  }

  /** Whether the texture was lost with its GL context. */
  method IsInvalidated(t: Texture?, context: GLContext) returns (b: bool)
  {
    b := *;
  }
}
