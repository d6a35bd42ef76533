/**
 * The framebuffer depalettiser: a 128x128 grid of 8-bit palette indices
 * becomes a flat byte buffer in the host's XRGB8888 layout, four bytes per
 * pixel. The palette itself belongs to the emulator crate and is kept
 * abstract here: any table of 256 colours.
 */
module ColorImage {
  import opened Primitives

  /** Geometry of the emulated display. */
  const Width: nat := 128
  const Height: nat := 128
  const PixelCount: nat := Width * Height
  const BytesPerPixel: nat := 4
  /** Length of one finished video frame, in bytes. */
  const FrameBytes: nat := PixelCount * BytesPerPixel

  /** One palette entry in the order the table stores it: red, green, blue, alpha. */
  datatype Rgba = Rgba(r: u8, g: u8, b: u8, a: u8)

  /** The palette: one colour per 8-bit index. */
  type ColorTable = t: seq<Rgba> | |t| == 256 witness seq(256, _ => Rgba(0, 0, 0, 0))

  /** The engine's raw framebuffer: one palette index per pixel, row by row. */
  type Framebuffer = s: seq<u8> | |s| == PixelCount witness seq(PixelCount, _ => 0)

  /** The four bytes one colour occupies in the host's layout: blue, green, red, alpha. */
  function PixelBytes(c: Rgba): (bytes: seq<u8>)
    ensures |bytes| == BytesPerPixel
  {
    [c.b, c.g, c.r, c.a]
  }

  /** Reads one colour back from its four bytes in the host's layout. */
  function ColorOf(bytes: seq<u8>): Rgba
    requires |bytes| == BytesPerPixel
  {
    Rgba(bytes[2], bytes[1], bytes[0], bytes[3])
  }

  /**
   * The specification of the depalettiser: the per-pixel byte groups of the
   * looked-up colours, concatenated in pixel order.
   */
  function Depalettised(indices: seq<u8>, table: ColorTable): (bytes: seq<u8>)
    ensures |bytes| == BytesPerPixel * |indices|
  {
    if indices == [] then []
    else Depalettised(indices[..|indices| - 1], table) + PixelBytes(table[indices[|indices| - 1]])
  }

  /** The colours the indices select, in pixel order. */
  function LookedUp(indices: seq<u8>, table: ColorTable): seq<Rgba>
  {
    seq(|indices|, i requires 0 <= i < |indices| => table[indices[i]])
  }

  /** Decodes a buffer in the host's layout back into colours, four bytes at a time. */
  function Colors(bytes: seq<u8>): seq<Rgba>
    requires |bytes| % BytesPerPixel == 0
  {
    if bytes == [] then []
    else Colors(bytes[..|bytes| - BytesPerPixel]) + [ColorOf(bytes[|bytes| - BytesPerPixel..])]
  }

  /**
   * Bytes 4i, 4i+1, 4i+2 and 4i+3 of the output are the blue, green, red and
   * alpha channels of the colour that index i selects: red and blue are
   * swapped with respect to the table's order.
   */
  lemma {:induction false} DepalettisedAt(indices: seq<u8>, table: ColorTable, i: nat)
    requires i < |indices|
    ensures Depalettised(indices, table)[4 * i] == table[indices[i]].b
    ensures Depalettised(indices, table)[4 * i + 1] == table[indices[i]].g
    ensures Depalettised(indices, table)[4 * i + 2] == table[indices[i]].r
    ensures Depalettised(indices, table)[4 * i + 3] == table[indices[i]].a
  {
    var n := |indices|;
    var front := indices[..n - 1];
    if i < n - 1 {
      DepalettisedAt(front, table, i);
    }
  }

  /** Pixel order is kept: the output of a concatenation is the concatenation of the outputs. */
  lemma {:induction false} DepalettisedAppend(left: seq<u8>, right: seq<u8>, table: ColorTable)
    ensures Depalettised(left + right, table) == Depalettised(left, table) + Depalettised(right, table)
  {
    if right != [] {
      var n := |right|;
      assert (left + right)[..|left + right| - 1] == left + right[..n - 1];
      DepalettisedAppend(left, right[..n - 1], table);
    } else {
      assert left + right == left;
    }
  }

  /** The four bytes of pixel i depend on the index of pixel i alone. */
  lemma PixelDependsOnlyOnItsIndex(first: seq<u8>, second: seq<u8>, table: ColorTable, i: nat)
    requires |first| == |second| && i < |first|
    requires first[i] == second[i]
    ensures Depalettised(first, table)[4 * i..4 * i + 4] == Depalettised(second, table)[4 * i..4 * i + 4]
  {
    DepalettisedAt(first, table, i);
    DepalettisedAt(second, table, i);
  }

  /** Decoding the output gives back the colours the indices select. */
  lemma {:induction false} DecodeDepalettised(indices: seq<u8>, table: ColorTable)
    ensures |Depalettised(indices, table)| % BytesPerPixel == 0
    ensures Colors(Depalettised(indices, table)) == LookedUp(indices, table)
  {
    if indices != [] {
      var n := |indices|;
      var front := indices[..n - 1];
      var bytes := Depalettised(indices, table);
      DecodeDepalettised(front, table);
      assert bytes[..|bytes| - BytesPerPixel] == Depalettised(front, table);
      assert bytes[|bytes| - BytesPerPixel..] == PixelBytes(table[indices[n - 1]]);
      assert LookedUp(indices, table) == LookedUp(front, table) + [table[indices[n - 1]]] by {
        forall i | 0 <= i < n
          ensures LookedUp(indices, table)[i] == (LookedUp(front, table) + [table[indices[n - 1]]])[i]
        {
          if i < n - 1 {
            assert indices[i] == front[i];
          }
        }
      }
    }
  }

  /**
   * `buffer_to_color_image`: pushes the blue, green, red and alpha bytes of
   * each pixel's colour, pixel by pixel.
   */
  method BufferToColorImage(framebuffer: Framebuffer, table: ColorTable) returns (pixels: seq<u8>)
    ensures pixels == Depalettised(framebuffer, table)
    ensures |pixels| == FrameBytes
    ensures Colors(pixels) == LookedUp(framebuffer, table)
  {
    pixels := [];
    for i := 0 to |framebuffer|
      invariant pixels == Depalettised(framebuffer[..i], table)
    {
      var c := table[framebuffer[i]];
      pixels := pixels + [c.b];
      pixels := pixels + [c.g];
      pixels := pixels + [c.r];
      pixels := pixels + [c.a];
      assert framebuffer[..i + 1][..i] == framebuffer[..i];
    }
    assert framebuffer[..|framebuffer|] == framebuffer;
    DecodeDepalettised(framebuffer, table);
  }
}
