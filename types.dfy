/** Value types shared by the image backing store and the GPU backend. */
module Types {

  /** One byte of an RGBA8 pixel buffer (Go's uint8). */
  newtype byte = b: int | 0 <= b < 256

  /** One vertex coordinate (Go's int16). */
  newtype int16 = x: int | -0x8000 <= x < 0x8000

  datatype Option<+T> = None | Some(value: T)

  /** A colour as the four 8-bit channels the pixel buffer stores. */
  datatype Color = Color(r: byte, g: byte, b: byte, a: byte)
  {
    /** Channel k of the colour in buffer order: 0 red, 1 green, 2 blue, 3 alpha. */
    function Channel(k: nat): byte
      requires k < 4
    {
      if k == 0 then r else if k == 1 then g else if k == 2 then b else a
    }
  }

  /** An RGBA8 image with origin (0, 0): `pix` holds `height` rows of
      `4 * width` bytes, row j starting at byte `j * stride` (Go's *image.RGBA). */
  datatype Rgba = Rgba(pix: seq<byte>, stride: nat, width: nat, height: nat)

  /** Fully transparent black, what `color.Transparent` converts to. */
  const Transparent: Color := Color(0, 0, 0, 0)

  /** The texture sampling filter an image is created with. */
  datatype Filter = FilterNearest | FilterLinear

  /** Geometry matrix, colour matrix, composite mode and GL context: passed
      through untouched, so their contents are not modelled. */
  type GeoM(==)
  type ColorM(==)
  type CompositeMode(==)
  type GLContext

  /** An error reported by the GPU backend, passed on to the caller as it is. */
  datatype GpuError = GpuError(code: int)

  /** The errors an image operation returns. */
  datatype Error =
    | AlreadyDisposed          // the image was disposed
    | SizeMismatch(want: int)  // the buffer is not 4 bytes per pixel; `want` is the length it needs
    | SelfDraw                 // an image was drawn onto itself
    | GpuFailure(cause: GpuError)

  /** Wraps an optional backend error into an optional image error. */
  function Lift(e: Option<GpuError>): Option<Error>
  {
    match e
    case None => None
    case Some(g) => Some(GpuFailure(g))
  }
}
