# Image backing store of ebiten, modelled in Dafny

This project models `imageImpl`, the per-image backing store of the ebiten 2D
game library (`imageimpl.go`). Each image owns a GPU texture and three CPU-side
ways of rebuilding that texture when the GL context is lost:

- a pixel cache `pixels` of 4 bytes per pixel;
- a flat `baseColor`;
- an ordered log `drawImageHistory` of the draws made onto it since its content
  was last flattened.

Every operation is a small sequential transition over these fields and the flags
`disposed`, `volatile` and `screen`. The model keeps that shape:

- `Images.ImageImpl` is a class with those fields.
  - The pixel cache is an `array?<byte>`. `null` plays Go's `nil`.
  - The history is a `seq<HistoryItem>`. Each item refers to its source image by
    identity.
- Each operation is a method with `modifies this`; `ReplacePixels` also
  modifies the cache array it writes in place. Its `ensures` give the new
  state in terms of the old one. Where the outcome depends on a GPU readback,
  the method returns that readback's error as a ghost out-parameter
  `readErr`, so that the contract says which state follows which outcome.
- `Valid()` is the object invariant every operation keeps. It says:
  - the cache is absent or exactly `4 * width * height` bytes;
  - the texture has the image's size;
  - no recorded draw has the image itself as its source;
  - a disposed image has no texture, no base colour and no history.
- The byte-copy loops around the transitions are methods over arrays in
  `PixelBuffers`, proved against specification functions:
  - Go's `copy`;
  - the row-wise normalisation of a decoded image;
  - the seed buffer that restore builds.
- The GPU backend is the module `Backend`. It is an abstract collaborator:
  - each call may fail with an error the model leaves unconstrained;
  - texture contents are not modelled;
  - what it does promise is the size of what it creates and of what it reads back.
- `Scenarios` holds four clients that use only the contracts:
  - disposal is terminal;
  - a second `At` after a successful one is served from the cache;
  - a restore forgets the colour of an image that was only filled;
  - restoring two images works in either order.

Four behaviours of the code are easy to miss, and the model keeps them as written:

- `DrawImage` only appends to the history. It does not clear `pixels` or
  `baseColor` when the first record arrives (imageimpl.go:185).
- `ReplacePixels` on a disposed image still allocates and writes the cache. It
  also clears `baseColor` and the history, and only then reports the error
  (imageimpl.go:343-351). The model keeps this ordering.
- `resetHistoryIfNeeded` and `restore` assign the readback result to `pixels`
  before they look at its error (imageimpl.go:239, 300). A failed readback can
  therefore replace the cache with whatever the backend returned, which the
  model lets be absent. Every contract allows for that.
- A successful `restore` of a persistent image with no history clears
  `baseColor` and does not read the texture back (imageimpl.go:299-306). An
  image that was only filled therefore keeps its colour nowhere on the CPU
  side afterwards; a later restore would rebuild it transparent.

## Model

| member | source | states |
|---|---|---|
| Images.ImageImpl.Init | imageimpl.go:40-52 | A new image is live, has an empty history and no base colour, and satisfies `Valid()`. That is the length invariant on `pixels`, set at imageimpl.go:65, :83, :114 and :344. |
| Images.ImageImpl.NewImageImpl | imageimpl.go:54-69 | Fails with the backend's error and no image, or returns a fresh, valid, live, non-screen image. Its cache is `4*w*h` zero bytes, with no base colour and no history. |
| Images.ImageImpl.NewImageImplFromImage | imageimpl.go:71-101 | Fails with the backend's error, or returns a valid non-volatile image. Its cache is a fresh array holding exactly the source's rows packed at `4*w` bytes per row. |
| Images.ImageImpl.NewScreenImageImpl | imageimpl.go:103-118 | Fails with the backend's error, or returns a valid image that is both volatile and screen. It uses the nearest filter and has a zeroed cache. |
| Images.ImageImpl.Fill | imageimpl.go:120-130 | On a disposed image it returns AlreadyDisposed and changes nothing. Otherwise `pixels` is absent, `baseColor` is the given colour and the history is empty. The texture is kept, and any error is a backend error. |
| Images.ImageImpl.ClearIfVolatile | imageimpl.go:132-145 | On a disposed or non-volatile image it returns no error and changes nothing. Otherwise cache, base colour and history are all cleared and the texture is kept. |
| Images.ImageImpl.DrawImage | imageimpl.go:147-193 | Zero quads: no error, nothing changes. Self-draw: SelfDraw, checked before the disposed test, nothing changes. Disposed: AlreadyDisposed, nothing changes. Otherwise exactly one record is appended and pixels, base colour and texture are untouched. The record stays even when the GPU call fails. |
| Images.ImageImpl.At | imageimpl.go:195-215 | A disposed image gives transparent black and is unchanged. A cache with no history is not re-read, so no readback error can arise and the result is a pixel. Otherwise the cache is replaced by the readback. The result is a Panic exactly when that readback failed, carrying its error, with the history kept. A returned pixel is the four bytes at `4*x + 4*y*width` of the cache, and the history is then empty. |
| Images.ImageImpl.HasHistoryWith | imageimpl.go:217-224 | True exactly when some record's source is `target`. |
| Images.ImageImpl.ResetHistoryIfNeeded | imageimpl.go:226-246 | Always returns no error. Changes nothing, and reads nothing back, unless the image is live, its history is non-empty and some record draws from `target`. Then a successful readback flattens: fresh cache, no base colour, empty history. A failed one keeps the base colour and history, and the cache becomes whatever the backend returned (absent or fresh). |
| Images.ImageImpl.HasHistory | imageimpl.go:248-252 | True exactly when the history is non-empty. |
| Images.ImageImpl.Restore | imageimpl.go:254-315 | Requires every replayed source to have an empty history (the "not reach" panic). Disposed: no-op. Screen or volatile: cache, colour and history kept, and a fresh texture on success. Persistent: on success colour and history are cleared, and the cache is re-read only when history was replayed. On failure colour and history are kept. The cache changes only when it is read back, which happens exactly for a persistent image with history once every replayed draw succeeded. A failure before that point (upload or replay) leaves the cache as it was. |
| Images.ImageImpl.Dispose | imageimpl.go:317-335 | A second disposal returns AlreadyDisposed and changes nothing. A screen image cannot fail. Success sets `disposed` and clears texture, cache, colour and history. A failed texture release returns the backend error with nothing changed. |
| Images.ImageImpl.ReplacePixels | imageimpl.go:337-353 | A buffer whose length is not `4*width*height` gives SizeMismatch with that length, and nothing changes. Otherwise the cache equals the buffer (the same array when there was one), and colour and history are cleared. This happens even when disposed, which then returns AlreadyDisposed. |
| Images.ImageImpl.IsDisposed | imageimpl.go:355-359 | Returns the `disposed` flag. |
| PixelBuffers.Copy | imageimpl.go:346 | Go's `copy(dst[lo:hi], src)`: copies `min(hi-lo, len(src))` bytes to `dst[lo..]` and leaves the rest of `dst` alone. |
| PixelBuffers.CopyRow | imageimpl.go:85 | Copying row `j` of the decoded image in behind the `j` rows already packed leaves the first `j + 1` packed rows in the buffer. |
| PixelBuffers.Rows | imageimpl.go:84-86 | Packing `h` rows of `rowLen` bytes gives exactly `h * rowLen` bytes. The offsets are written with `Mul`, which `MulIsProduct` equates with `*`. |
| PixelBuffers.RowsAt | imageimpl.go:84-86 | Byte `x` of packed row `j` is byte `j*stride + x` of the source buffer. |
| PixelBuffers.RowsDense | imageimpl.go:83-86 | Normalising a buffer whose stride is already `4*w` gives the same buffer back. |
| PixelBuffers.NormalizeRows | imageimpl.go:83-86 | The loop fills a fresh `4*w*h`-byte buffer with exactly the packed rows of the decoded image. |
| PixelBuffers.CopyRows | imageimpl.go:271-275 | The row copy into a new `4*w*h` buffer reproduces the cached pixels exactly. |
| PixelBuffers.BroadcastColor | imageimpl.go:276-284 | Every byte `k` of the fresh `4*w*h` buffer is channel `k % 4` of the colour. |
| PixelBuffers.SeedBuffer | imageimpl.go:270-285 | The seed is a fresh `4*w*h` buffer. It is a copy of the cache when present. Otherwise it is every pixel the base colour when set. Otherwise it is all zeros. |
| Scenarios.DisposeIsTerminal | imageimpl.go:317-335 | After a successful disposal, disposing again, `Fill` and `DrawImage` return AlreadyDisposed and `At` gives transparent black. |
| Scenarios.AtAgainIsCached | imageimpl.go:204-214 | After `At` returns a pixel, sampling the same pixel again gives the same colour and cannot panic. |
| Scenarios.RestoreForgetsFillColour | imageimpl.go:299-306 | A successful restore of a persistent image that was only filled leaves no cache, no base colour and no history. |
| Scenarios.RestoreInEitherOrder | imageimpl.go:291-298 | When `b` draws only from a flattened `a`, both restore orders meet `restore`'s precondition and leave `a` flattened. A successful persistent restore of `b` flattens `b`. |

## Left out

- The GPU backend (`graphics.NewImage`, `NewImageFromImage`, `NewScreenFramebufferImage`, `Fill`, `DrawImage`, `Pixels`, `ReplacePixels`, `Dispose`, `IsInvalidated`) is foreign code. It is modelled as abstract calls with unconstrained failure, and texture contents are not modelled. So round trips through the texture, such as `Fill` then `At` returning the colour, or replay giving the same pixels, cannot be stated.
- Images.ImageImpl.IsInvalidated only forwards to the backend, so it has no contract.
- Images.ImageImpl.Dispose: the model cannot observe that a screen image skips the texture release. The contract only states that a screen disposal cannot fail.
- Vertex and quad computation from `ImageParts`/`Parts`/`wholeImage`/`textureQuads` (imageimpl.go:148-166) calls user code and is not part of this model. `DrawImage` takes its result: the vertex buffer and the number of quads written into it.
- `GeoM`, `ColorM`, the composite mode and the GL context are passed through as opaque values. The `Filter` is a two-valued datatype, and its conversion `glFilter` is passed through as the value itself.
- The `sync.Mutex` locking and the `runtime.SetFinalizer` registration and cancellation are concurrency and garbage collection. Operations are modelled sequentially.
- `color.Color` and its 16-bit `RGBA()` conversion: a colour is four bytes.
- The normalisation of an arbitrary `image.Image` through `draw.Draw` (imageimpl.go:76-82) is a library call. The model takes the resulting RGBA buffer and requires its rows to fit in it.
- `At`'s panic when the loop is not running is the precondition `loopRunning`. Its index-out-of-range panic is the precondition that `x + y*width` lies inside the image. A failed readback panics in Go, and the model returns it as a `Panic` outcome instead: an unconstrained backend failure cannot be ruled out by a precondition.
- `restore`'s "not reach" panic is the precondition that every replayed source has an empty history. It is required only of persistent images, the only ones that replay.
- The context that `At` and `resetHistoryIfNeeded` fetch from the global `ui.GLContext()` is a parameter, and so is `loop.IsRunning()`.
- Go `int` overflow in `4*w*h` and in the pixel index is not modelled: sizes are unbounded naturals.
