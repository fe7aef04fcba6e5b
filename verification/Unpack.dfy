/** include/gles_util_stub.h: how many bytes of client memory a texture upload reads, against the unpacking
    rule of section 8.4.4 of the OpenGL ES 3.2 specification. */
module Unpack {
  import Bits

  // ---- Formats and types ----------------------------------------------------------------------------

  datatype Format =
    | RED | RED_INTEGER | RG | RG_INTEGER | RGB | RGB_INTEGER | RGBA | RGBA_INTEGER
    | DEPTH_COMPONENT | DEPTH_STENCIL | STENCIL_INDEX | ALPHA | LUMINANCE | LUMINANCE_ALPHA

  datatype Type =
    | UNSIGNED_BYTE | BYTE | UNSIGNED_SHORT | SHORT | UNSIGNED_INT | INT | HALF_FLOAT | FLOAT
    | UNSIGNED_SHORT_5_6_5 | UNSIGNED_SHORT_4_4_4_4 | UNSIGNED_SHORT_5_5_5_1
    | UNSIGNED_INT_2_10_10_10_REV | UNSIGNED_INT_10F_11F_11F_REV | UNSIGNED_INT_5_9_9_9_REV
    | UNSIGNED_INT_24_8 | FLOAT_32_UNSIGNED_INT_24_8_REV

  /** gl_bytes_per_pixel */
  function BytesPerPixel(format: Format, t: Type): nat {
    match t
    case UNSIGNED_SHORT_5_6_5 => 2
    case UNSIGNED_SHORT_4_4_4_4 => 2
    case UNSIGNED_SHORT_5_5_5_1 => 2
    case UNSIGNED_INT_2_10_10_10_REV => 4
    case UNSIGNED_INT_10F_11F_11F_REV => 4
    case UNSIGNED_INT_5_9_9_9_REV => 4
    case UNSIGNED_INT_24_8 => 4
    case FLOAT_32_UNSIGNED_INT_24_8_REV => 8
    case _ =>
      if format == STENCIL_INDEX then 4
      else Components(format) * (match t
        case UNSIGNED_BYTE => 1
        case BYTE => 1
        case UNSIGNED_SHORT => 2
        case SHORT => 2
        case HALF_FLOAT => 2
        case _ => 4)
  }

  function Components(format: Format): nat {
    match format
    case RG => 2
    case RG_INTEGER => 2
    case LUMINANCE_ALPHA => 2
    case RGB => 3
    case RGB_INTEGER => 3
    case RGBA => 4
    case RGBA_INTEGER => 4
    case DEPTH_STENCIL => 2
    case _ => 1
  }

  /** The combinations of table 8.2 of the specification */
  predicate InTable(format: Format, t: Type) {
    match format
    case RGBA =>
      t in {UNSIGNED_BYTE, BYTE, UNSIGNED_SHORT_4_4_4_4, UNSIGNED_SHORT_5_5_5_1, UNSIGNED_INT_2_10_10_10_REV,
            HALF_FLOAT, FLOAT}
    case RGBA_INTEGER =>
      t in {UNSIGNED_BYTE, BYTE, UNSIGNED_SHORT, SHORT, UNSIGNED_INT, INT, UNSIGNED_INT_2_10_10_10_REV}
    case RGB =>
      t in {UNSIGNED_BYTE, BYTE, UNSIGNED_SHORT_5_6_5, UNSIGNED_INT_10F_11F_11F_REV, UNSIGNED_INT_5_9_9_9_REV,
            HALF_FLOAT, FLOAT}
    case RG => t in {UNSIGNED_BYTE, BYTE, HALF_FLOAT, FLOAT}
    case RED => t in {UNSIGNED_BYTE, BYTE, HALF_FLOAT, FLOAT}
    case DEPTH_COMPONENT => t in {UNSIGNED_SHORT, UNSIGNED_INT, FLOAT}
    case DEPTH_STENCIL => t in {UNSIGNED_INT_24_8, FLOAT_32_UNSIGNED_INT_24_8_REV}
    case STENCIL_INDEX => t == UNSIGNED_BYTE
    case ALPHA => t == UNSIGNED_BYTE
    case LUMINANCE => t == UNSIGNED_BYTE
    case LUMINANCE_ALPHA => t == UNSIGNED_BYTE
    case _ => t in {UNSIGNED_BYTE, BYTE, UNSIGNED_SHORT, SHORT, UNSIGNED_INT, INT}
  }

  /** The specification's s: bytes of one element, which is a component or a packed pixel */
  function ElementSize(t: Type): (s: nat)
    ensures s in {1, 2, 4, 8}
  {
    if t == UNSIGNED_BYTE || t == BYTE then 1
    else if t in {UNSIGNED_SHORT, SHORT, HALF_FLOAT, UNSIGNED_SHORT_5_6_5, UNSIGNED_SHORT_4_4_4_4, UNSIGNED_SHORT_5_5_5_1}
    then 2
    else if t == FLOAT_32_UNSIGNED_INT_24_8_REV then 8
    else 4
  }

  predicate Packed(t: Type) {
    t in {UNSIGNED_SHORT_5_6_5, UNSIGNED_SHORT_4_4_4_4, UNSIGNED_SHORT_5_5_5_1, UNSIGNED_INT_2_10_10_10_REV,
          UNSIGNED_INT_10F_11F_11F_REV, UNSIGNED_INT_5_9_9_9_REV, UNSIGNED_INT_24_8, FLOAT_32_UNSIGNED_INT_24_8_REV}
  }

  /** The specification's n: elements of one pixel */
  function Elements(format: Format, t: Type): (n: nat)
    ensures 1 <= n <= 4
  {
    if Packed(t) then 1
    else
      match format
      case RGBA => 4
      case RGBA_INTEGER => 4
      case RGB => 3
      case RGB_INTEGER => 3
      case RG => 2
      case RG_INTEGER => 2
      case LUMINANCE_ALPHA => 2
      case _ => 1
  }

  /** The stub knows the pixel size of every combination but stencil indices. */
  lemma PixelSizes(format: Format, t: Type)
    requires InTable(format, t)
    ensures BytesPerPixel(format, t) == Elements(format, t) * ElementSize(t) <==> format != STENCIL_INDEX
    ensures BytesPerPixel(format, t) >= Elements(format, t) * ElementSize(t) > 0
  {
    match format
    case RGBA =>
    case RGBA_INTEGER =>
    case RGB =>
    case RGB_INTEGER =>
    case RG =>
    case RG_INTEGER =>
    case RED =>
    case RED_INTEGER =>
    case _ =>
  }

  // ---- Sizes as the stub computes them ----------------------------------------------------------------

  /** GL_UNPACK_* as glPixelStorei has set them; 0 stands for the initial alignment of 4. */
  datatype Store = Store(alignment: int, rowLength: int, skipRows: int, skipPixels: int, imageHeight: int,
                         skipImages: int) {
    /** What glPixelStorei accepts */
    predicate Valid() {
      && alignment in {0, 1, 2, 4, 8}
      && rowLength >= 0 && skipRows >= 0 && skipPixels >= 0 && imageHeight >= 0 && skipImages >= 0
    }
  }

  /** gl_align_up_size */
  function AlignUp(value: nat, alignment: nat): nat {
    if alignment <= 1 then value else (value + alignment - 1) / alignment * alignment
  }

  /** gl_unpack_alignment */
  function Alignment(u: Store): nat {
    if u.alignment > 0 then u.alignment else 4
  }

  function OrElse(value: int, other: nat): nat {
    if value > 0 then value else other
  }

  function RowStride(u: Store, width: nat, bpp: nat): nat {
    AlignUp(OrElse(u.rowLength, width) * bpp, Alignment(u))
  }

  /** gl_unpack_image_size_2d */
  function ImageSize2D(u: Store, width: int, height: int, format: Format, t: Type): int {
    if width <= 0 || height <= 0 then 0
    else
      var bpp := BytesPerPixel(format, t);
      var stride := RowStride(u, width, bpp);
      u.skipRows * stride + u.skipPixels * bpp + (height - 1) * stride + width * bpp
  }

  /** gl_unpack_image_size_3d */
  function ImageSize3D(u: Store, width: int, height: int, depth: int, format: Format, t: Type): int {
    if width <= 0 || height <= 0 || depth <= 0 then 0
    else
      var bpp := BytesPerPixel(format, t);
      var stride := RowStride(u, width, bpp);
      var image := stride * OrElse(u.imageHeight, height);
      u.skipImages * image + u.skipRows * stride + u.skipPixels * bpp
        + (depth - 1) * image + (height - 1) * stride + width * bpp
  }

  // ---- The unpacking rule -----------------------------------------------------------------------------

  function CeilDiv(a: nat, b: nat): nat
    requires b > 0
  {
    (a + b - 1) / b
  }

  /** Bytes from one row to the next: k elements of s bytes, with k = n l if s >= a and
      k = (a / s) ceil(s n l / a) otherwise */
  function SpecStride(n: nat, s: nat, l: nat, a: nat): nat
    requires s > 0 && a > 0
  {
    (if s >= a then n * l else a / s * CeilDiv(s * (n * l), a)) * s
  }

  /** Byte b of pixel (x, y) of image z. A two-dimensional upload is image 0 of one without skipped images. */
  function Address(u: Store, width: nat, height: nat, n: nat, s: nat, x: nat, y: nat, z: nat, b: nat): int
    requires s > 0
  {
    var stride := SpecStride(n, s, OrElse(u.rowLength, width), Alignment(u));
    (u.skipImages + z) * (stride * OrElse(u.imageHeight, height)) + (u.skipRows + y) * stride
      + (u.skipPixels + x) * (n * s) + b
  }

  /** size is one more than the greatest byte offset read. */
  ghost predicate Exact(size: int, u: Store, width: nat, height: nat, depth: nat, n: nat, s: nat)
    requires s > 0 && width > 0 && height > 0 && depth > 0 && n > 0
  {
    && Address(u, width, height, n, s, width - 1, height - 1, depth - 1, n * s - 1) == size - 1
    && forall x, y, z, b :: 0 <= x < width && 0 <= y < height && 0 <= z < depth && 0 <= b < n * s ==>
         Address(u, width, height, n, s, x, y, z, b) < size
  }

  // ---- Proofs -------------------------------------------------------------------------------------------

  /** Rounding bytes up to the alignment is the rule's row length. */
  lemma StrideIsSpec(n: nat, s: nat, l: nat, a: nat)
    requires s in {1, 2, 4, 8} && a in {1, 2, 4, 8}
    ensures AlignUp(l * (n * s), a) == SpecStride(n, s, l, a)
  {
    var m := n * l;
    assert l * (n * s) == m * s;
    assert s * m == m * s;
    if s >= a {
      MultipleStays(m, s, a);
    } else {
      assert a / s * s == a;
      Rearrange(a / s, CeilDiv(s * m, a), s);
    }
  }

  lemma Rearrange(c: int, q: int, s: int)
    ensures c * q * s == q * (c * s)
  {
  }

  lemma MultipleStays(m: nat, s: nat, a: nat)
    requires s in {1, 2, 4, 8} && a in {1, 2, 4, 8} && s >= a
    ensures AlignUp(m * s, a) == m * s
  {
    var k := s / a;
    assert m * s == a * (m * k) by {
      assert s == a * k;
    }
    if a > 1 {
      Bits.ModUnique(m * s + a - 1, a, m * k, a - 1);
    }
  }

  /** No pixel is read behind the last one. */
  lemma LastIsGreatest(u: Store, width: nat, height: nat, depth: nat, n: nat, s: nat, x: nat, y: nat, z: nat, b: nat)
    requires s > 0 && n > 0 && x < width && y < height && z < depth && b < n * s
    ensures Address(u, width, height, n, s, x, y, z, b)
      <= Address(u, width, height, n, s, width - 1, height - 1, depth - 1, n * s - 1)
  {
    var stride := SpecStride(n, s, OrElse(u.rowLength, width), Alignment(u));
    var image := stride * OrElse(u.imageHeight, height);
    Bits.MulMono(u.skipImages + z, u.skipImages + (depth - 1), image);
    Bits.MulMono(u.skipRows + y, u.skipRows + (height - 1), stride);
    Bits.MulMono(u.skipPixels + x, u.skipPixels + (width - 1), n * s);
  }

  lemma Split(a: int, b: int, c: int)
    ensures (a + b) * c == a * c + b * c
  {
  }

  /** The address of the last byte, with the rule's products multiplied out */
  lemma LastAddress(u: Store, width: nat, height: nat, depth: nat, n: nat, s: nat, stride: nat, image: nat)
    requires s in {1, 2, 4, 8} && width > 0 && height > 0 && depth > 0 && n > 0
    requires stride == SpecStride(n, s, OrElse(u.rowLength, width), Alignment(u))
    requires image == stride * OrElse(u.imageHeight, height)
    ensures Address(u, width, height, n, s, width - 1, height - 1, depth - 1, n * s - 1) + 1
      == u.skipImages * image + (depth - 1) * image + u.skipRows * stride + (height - 1) * stride
         + u.skipPixels * (n * s) + width * (n * s)
  {
    Split(u.skipImages, depth - 1, image);
    Split(u.skipRows, height - 1, stride);
    Split(u.skipPixels, width - 1, n * s);
    Split(width - 1, 1, n * s);
  }

  /** What the stub computes with a pixel size of bpp bytes */
  function Size(u: Store, width: nat, height: nat, depth: nat, bpp: nat): int {
    var stride := RowStride(u, width, bpp);
    var image := stride * OrElse(u.imageHeight, height);
    u.skipImages * image + u.skipRows * stride + u.skipPixels * bpp
      + (depth - 1) * image + (height - 1) * stride + width * bpp
  }

  /** With the right pixel size the stub's result is the last address plus one. */
  lemma SizeIsLast(u: Store, width: nat, height: nat, depth: nat, n: nat, s: nat)
    requires u.Valid() && s in {1, 2, 4, 8} && width > 0 && height > 0 && depth > 0 && n > 0
    ensures Size(u, width, height, depth, n * s)
      == Address(u, width, height, n, s, width - 1, height - 1, depth - 1, n * s - 1) + 1
  {
    var l := OrElse(u.rowLength, width);
    var stride := SpecStride(n, s, l, Alignment(u));
    StrideIsSpec(n, s, l, Alignment(u));
    LastAddress(u, width, height, depth, n, s, stride, stride * OrElse(u.imageHeight, height));
  }

  lemma AtLeast(a: int, q: int, r: int)
    requires a > 0 && r > -a && a * q >= r
    ensures q >= 0
  {
    MulCommutes(a, q, if q < 0 then -1 else q);
  }

  lemma DivMono(x: nat, y: nat, a: nat)
    requires x <= y && a > 0
    ensures x / a <= y / a
  {
    var q: int, r: int := y / a - x / a, x % a - y % a;
    assert y - x == a * q - r;
    AtLeast(a, q, r);
  }

  lemma AlignMono(v: nat, w: nat, a: nat)
    requires v <= w
    ensures AlignUp(v, a) <= AlignUp(w, a)
  {
    if a > 1 {
      DivMono(v + a - 1, w + a - 1, a);
      Bits.MulMono((v + a - 1) / a, (w + a - 1) / a, a);
    }
  }

  /** A greater pixel size gives a greater result. */
  lemma SizeGrows(u: Store, width: nat, height: nat, depth: nat, p: nat, q: nat)
    requires u.Valid() && width > 0 && height > 0 && depth > 0 && p < q
    ensures Size(u, width, height, depth, p) < Size(u, width, height, depth, q)
  {
    var l, rows := OrElse(u.rowLength, width), OrElse(u.imageHeight, height);
    var v, w := RowStride(u, width, p), RowStride(u, width, q);
    MulCommutes(l, p, q);
    AlignMono(l * p, l * q, Alignment(u));
    Bits.MulMono(v, w, rows);
    MulCommutes(u.skipImages, v * rows, w * rows);
    MulCommutes(u.skipRows, v, w);
    MulCommutes(u.skipPixels, p, q);
    MulCommutes(depth - 1, v * rows, w * rows);
    MulCommutes(height - 1, v, w);
    MulCommutes(width, p + 1, q);
    assert width * (p + 1) == width * p + width;
  }

  lemma MulCommutes(a: int, b: int, c: int)
    requires a >= 0 && b <= c
    ensures a * b <= a * c
  {
  }

  /** The size of a three-dimensional upload is exact for every combination of the table but stencil indices,
      for which it never is. */
  lemma Size3DExact(u: Store, width: nat, height: nat, depth: nat, format: Format, t: Type)
    requires u.Valid() && width > 0 && height > 0 && depth > 0 && InTable(format, t)
    ensures Exact(ImageSize3D(u, width, height, depth, format, t), u, width, height, depth,
                  Elements(format, t), ElementSize(t))
      <==> format != STENCIL_INDEX
  {
    PixelSizes(format, t);
    var n, s, bpp := Elements(format, t), ElementSize(t), BytesPerPixel(format, t);
    assert ImageSize3D(u, width, height, depth, format, t) == Size(u, width, height, depth, bpp);
    SizeIsLast(u, width, height, depth, n, s);
    if format == STENCIL_INDEX {
      SizeGrows(u, width, height, depth, n * s, bpp);
    } else {
      forall x, y, z, b | 0 <= x < width && 0 <= y < height && 0 <= z < depth && 0 <= b < n * s
        ensures Address(u, width, height, n, s, x, y, z, b) < ImageSize3D(u, width, height, depth, format, t)
      {
        LastIsGreatest(u, width, height, depth, n, s, x, y, z, b);
      }
    }
  }

  /** The same for a two-dimensional upload, which skips no images. */
  lemma Size2DExact(u: Store, width: nat, height: nat, format: Format, t: Type)
    requires u.Valid() && width > 0 && height > 0 && InTable(format, t)
    ensures Exact(ImageSize2D(u, width, height, format, t), u.(skipImages := 0), width, height, 1,
                  Elements(format, t), ElementSize(t))
      <==> format != STENCIL_INDEX
  {
    var u0 := u.(skipImages := 0);
    assert ImageSize2D(u, width, height, format, t) == ImageSize3D(u0, width, height, 1, format, t);
    Size3DExact(u0, width, height, 1, format, t);
  }
}
