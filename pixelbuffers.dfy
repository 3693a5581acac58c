/** The byte-buffer copy loops around the image state machine: Go's built-in
    `copy`, the row-wise normalisation of a decoded image into a dense buffer,
    and the seed buffer that restoring a persistent image uploads. */
module PixelBuffers {
  import opened Types

  function Min(a: nat, b: nat): nat { if a <= b then a else b }

  /** `a * b` by repeated addition. Byte offsets of rows are stated with it,
      which keeps the proofs about them within linear arithmetic;
      MulIsProduct relates it to `*`. */
  function Mul(a: nat, b: nat): nat
  {
    if a == 0 then 0 else Mul(a - 1, b) + b
  }

  lemma {:induction false} MulIsProduct(a: nat, b: nat)
    ensures Mul(a, b) == a * b
  {
    if a > 0 { MulIsProduct(a - 1, b); }
  }

  lemma {:induction false} MulMono(a: nat, b: nat, c: nat)
    requires a <= b
    ensures Mul(a, c) <= Mul(b, c)
  {
    if a < b { MulMono(a, b - 1, c); }
  }

  /** Go's `copy(dst[lo:hi], src)`: copies as many bytes as both sides hold to
      the front of `dst[lo:hi]`, leaves every other byte of `dst` alone and
      returns the number copied. */
  method Copy(dst: array<byte>, lo: nat, hi: nat, src: seq<byte>) returns (n: nat)
    requires lo <= hi <= dst.Length
    modifies dst
    ensures n == Min(hi - lo, |src|)
    ensures forall i :: lo <= i < lo + n ==> dst[i] == src[i - lo]
    ensures forall i :: 0 <= i < dst.Length && !(lo <= i < lo + n) ==> dst[i] == old(dst[i])
    ensures dst[..] == old(dst[..lo]) + src[..n] + old(dst[lo + n..])
  {
    n := Min(hi - lo, |src|);
    for k := 0 to n
      invariant forall i :: lo <= i < lo + k ==> dst[i] == src[i - lo]
      invariant forall i :: 0 <= i < dst.Length && !(lo <= i < lo + k) ==> dst[i] == old(dst[i])
    {
      dst[lo + k] := src[k];
    }
    assert dst[..] == old(dst[..lo]) + src[..n] + old(dst[lo + n..]);
  }

  /** `h` rows of `rowLen` bytes, the j-th starting at byte `Mul(j, stride)`,
      fit in a buffer of `size` bytes. */
  predicate RowsFit(size: nat, stride: nat, rowLen: nat, h: nat)
  {
    h == 0 || Mul(h - 1, stride) + rowLen <= size
  }

  lemma RowsFitFewer(size: nat, stride: nat, rowLen: nat, h: nat, j: nat)
    requires RowsFit(size, stride, rowLen, h) && j <= h
    ensures RowsFit(size, stride, rowLen, j)
    ensures j < h ==> Mul(j, stride) + rowLen <= size
  {
    if j < h {
      MulMono(j, h - 1, stride);
    }
  }

  /** The first `h` rows of `pix`, each `rowLen` bytes long and `stride` bytes
      after the previous one, packed one after another. */
  function Rows(pix: seq<byte>, stride: nat, rowLen: nat, h: nat): (r: seq<byte>)
    requires RowsFit(|pix|, stride, rowLen, h)
    ensures |r| == Mul(h, rowLen)
    decreases h
  {
    if h == 0 then []
    else
      RowsFitFewer(|pix|, stride, rowLen, h, h - 1);
      Rows(pix, stride, rowLen, h - 1) + pix[Mul(h - 1, stride) .. Mul(h - 1, stride) + rowLen]
  }

  /** Byte x of packed row j is byte x of the j-th row of the source. */
  lemma {:induction false} RowsAt(pix: seq<byte>, stride: nat, rowLen: nat, h: nat, j: nat, x: nat)
    requires RowsFit(|pix|, stride, rowLen, h)
    requires j < h && x < rowLen
    ensures Mul(j, rowLen) + x < Mul(h, rowLen)
    ensures Mul(j, stride) + x < |pix|
    ensures Rows(pix, stride, rowLen, h)[Mul(j, rowLen) + x] == pix[Mul(j, stride) + x]
  {
    RowsFitFewer(|pix|, stride, rowLen, h, h - 1);
    var front := Rows(pix, stride, rowLen, h - 1);
    var start := Mul(h - 1, stride);
    assert Rows(pix, stride, rowLen, h) == front + pix[start .. start + rowLen];
    if j < h - 1 {
      RowsAt(pix, stride, rowLen, h - 1, j, x);
    }
  }

  /** Packing rows that already lie back to back gives the buffer back. */
  lemma {:induction false} RowsDense(pix: seq<byte>, rowLen: nat, h: nat)
    requires |pix| == Mul(h, rowLen)
    ensures RowsFit(|pix|, rowLen, rowLen, h)
    ensures Rows(pix, rowLen, rowLen, h) == pix
    decreases h
  {
    if h > 0 {
      var front := pix[..Mul(h - 1, rowLen)];
      RowsDense(front, rowLen, h - 1);
      RowsPrefix(pix, rowLen, rowLen, h - 1, |front|);
      assert pix == front + pix[Mul(h - 1, rowLen) .. Mul(h - 1, rowLen) + rowLen];
    }
  }

  /** Rows only look at the part of the buffer they cover. */
  lemma {:induction false} RowsPrefix(pix: seq<byte>, stride: nat, rowLen: nat, h: nat, n: nat)
    requires n <= |pix| && RowsFit(n, stride, rowLen, h)
    ensures Rows(pix[..n], stride, rowLen, h) == Rows(pix, stride, rowLen, h)
  {
    if h > 0 {
      RowsFitFewer(n, stride, rowLen, h, h - 1);
      RowsPrefix(pix, stride, rowLen, h - 1, n);
    }
  }

  /** One more packed row: if the buffer holds the first j rows and the next
      row is copied in behind them, it holds the first j + 1 rows. */
  lemma RowsStep(pix: seq<byte>, stride: nat, rowLen: nat, j: nat, before: seq<byte>, after: seq<byte>)
    requires RowsFit(|pix|, stride, rowLen, j + 1)
    requires Mul(j + 1, rowLen) <= |before|
    requires before[..Mul(j, rowLen)] == Rows(pix, stride, rowLen, j)
    requires after == before[..Mul(j, rowLen)] + pix[Mul(j, stride)..][..rowLen] + before[Mul(j + 1, rowLen)..]
    ensures after[..Mul(j + 1, rowLen)] == Rows(pix, stride, rowLen, j + 1)
  {
    assert after[..Mul(j + 1, rowLen)] == before[..Mul(j, rowLen)] + pix[Mul(j, stride) .. Mul(j, stride) + rowLen];
  }

  /** One step of the row copy of newImageImplFromImage: copies row j of
      `img` in behind the j rows already packed into `pixels`. */
  method CopyRow(pixels: array<byte>, img: Rgba, j: nat)
    requires RowsFit(|img.pix|, img.stride, 4 * img.width, j + 1)
    requires Mul(j + 1, 4 * img.width) <= pixels.Length
    requires pixels[..Mul(j, 4 * img.width)] == Rows(img.pix, img.stride, 4 * img.width, j)
    modifies pixels
    ensures pixels[..Mul(j + 1, 4 * img.width)] == Rows(img.pix, img.stride, 4 * img.width, j + 1)
  {
    var rowLen := 4 * img.width;
    RowsFitFewer(|img.pix|, img.stride, rowLen, j + 1, j);
    var lo, src := Mul(j, rowLen), Mul(j, img.stride);
    ghost var before := pixels[..];
    var n := Copy(pixels, lo, lo + rowLen, img.pix[src..]);
    RowsStep(img.pix, img.stride, rowLen, j, before, pixels[..]);
  }

  /** The row-wise normalisation of a decoded image: the rows of `img` packed
      into a buffer of exactly `4 * width * height` bytes. */
  method NormalizeRows(img: Rgba) returns (pixels: array<byte>)
    requires RowsFit(|img.pix|, img.stride, 4 * img.width, img.height)
    ensures fresh(pixels) && pixels.Length == 4 * img.width * img.height
    ensures pixels[..] == Rows(img.pix, img.stride, 4 * img.width, img.height)
  {
    var w, h := img.width, img.height;
    pixels := new byte[4 * w * h](_ => 0);
    MulIsProduct(h, 4 * w);
    for j := 0 to h
      invariant Mul(j, 4 * w) <= pixels.Length
      invariant RowsFit(|img.pix|, img.stride, 4 * w, j)
      invariant pixels[..Mul(j, 4 * w)] == Rows(img.pix, img.stride, 4 * w, j)
    {
      RowsFitFewer(|img.pix|, img.stride, 4 * w, h, j + 1);
      MulMono(j + 1, h, 4 * w);
      CopyRow(pixels, img, j);
    }
  }

  /** The row copy that seeds a restored image from its cached pixels: the
      buffer of `4 * w * h` bytes, copied row by row into a fresh one. */
  method CopyRows(pixels: array<byte>, w: nat, h: nat) returns (img: array<byte>)
    requires pixels.Length == 4 * w * h
    ensures fresh(img) && img.Length == pixels.Length
    ensures img[..] == pixels[..]
  {
    var rowLen := 4 * w;
    img := new byte[4 * w * h](_ => 0);
    MulIsProduct(h, rowLen);
    for j := 0 to h
      invariant Mul(j, rowLen) <= img.Length
      invariant forall i :: 0 <= i < Mul(j, rowLen) ==> img[i] == pixels[i]
    {
      MulMono(j + 1, h, rowLen);
      var lo := Mul(j, rowLen);
      var n := Copy(img, lo, img.Length, pixels[lo .. lo + rowLen]);
    }
    assert img[..] == pixels[..];
  }

  /** The byte offset of channel `t` of pixel `p` in a 4-bytes-per-pixel buffer. */
  function Offset(p: nat, t: nat): nat { 4 * p + t }

  /** Writes the four channels of `c` into pixel `idx` of `img`. */
  method PutPixel(img: array<byte>, idx: nat, c: Color)
    requires 4 * idx + 4 <= img.Length
    modifies img
    ensures forall t :: 0 <= t < 4 ==> img[Offset(idx, t)] == c.Channel(t)
    ensures forall k :: 0 <= k < img.Length && !(4 * idx <= k < 4 * idx + 4) ==> img[k] == old(img[k])
  {
    img[4 * idx] := c.r;
    img[4 * idx + 1] := c.g;
    img[4 * idx + 2] := c.b;
    img[4 * idx + 3] := c.a;
  }

  /** The colour broadcast that seeds a restored image from its base colour:
      every 4-byte pixel of a fresh `4 * w * h`-byte buffer holds `c`. */
  method BroadcastColor(c: Color, w: nat, h: nat) returns (img: array<byte>)
    ensures fresh(img) && img.Length == 4 * w * h
    ensures forall k :: 0 <= k < img.Length ==> img[k] == c.Channel(k % 4)
  {
    var n := w * h;
    img := new byte[4 * n](_ => 0);
    for idx := 0 to img.Length / 4
      invariant forall p, t :: 0 <= p < idx && 0 <= t < 4 ==> img[Offset(p, t)] == c.Channel(t)
    {
      PutPixel(img, idx, c);
    }
    forall k | 0 <= k < img.Length
      ensures img[k] == c.Channel(k % 4)
    {
      assert k == Offset(k / 4, k % 4);
    }
  }

  /** The buffer a persistent image is rebuilt from: its cached pixels when it
      has them, otherwise its base colour over every pixel, otherwise all zero
      (transparent). */
  method SeedBuffer(pixels: array?<byte>, baseColor: Option<Color>, w: nat, h: nat) returns (img: array<byte>)
    requires pixels != null ==> pixels.Length == 4 * w * h
    ensures fresh(img) && img.Length == 4 * w * h
    ensures pixels != null ==> img[..] == pixels[..]
    ensures pixels == null && baseColor.Some? ==>
      forall k :: 0 <= k < img.Length ==> img[k] == baseColor.value.Channel(k % 4)
    ensures pixels == null && baseColor.None? ==> forall k :: 0 <= k < img.Length ==> img[k] == 0
  {
    if pixels != null {
      img := CopyRows(pixels, w, h);
    } else if baseColor.Some? {
      img := BroadcastColor(baseColor.value, w, h);
    } else {
      img := new byte[4 * w * h](_ => 0);
    }
  }
}
