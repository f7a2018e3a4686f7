/** The boot logo: a bottom-up bitmap read pixel by pixel and drawn into the framebuffer. */
module Bmp {
  import opened Bits
  import opened Options

  type i32 = x: int | -0x8000_0000 <= x < 0x8000_0000

  /** An `i32` cast to `usize`: negative numbers wrap around. */
  function AsUsize(x: int): nat
    requires x + WORD_SIZE >= 0
  {
    if x < 0 then x + WORD_SIZE else x
  }

  /** The division of the source, which rounds towards zero. */
  function Quarter(x: int): int {
    if x < 0 then -(-x / 4) else x / 4
  }

  datatype Image = Image(width: i32, height: i32, bpp: nat, data: seq<u8>) {
    function BytesPerPixel(): nat { bpp / 8 }

    /** Bytes per stored row, padded to a multiple of four; `None` is an overflow of 32 bits. */
    function Stride(): Option<nat> {
      var row := BytesPerPixel() * width;
      if -0x8000_0000 <= row && row + 3 < 0x8000_0000 then Some(AsUsize(Quarter(row + 3) * 4)) else None
    }

    /** Where the bytes of a stored pixel begin. */
    function Coord(col: nat, row: nat): Option<nat> {
      match Stride()
      case None => None
      case Some(stride) => Some(col * BytesPerPixel() + row * stride)
    }

    /** The decoded colour of a stored pixel; `None` is a panic, because its bytes are not there to be read. */
    function Colour(col: nat, row: nat): Option<nat> {
      match Coord(col, row)
      case None => None
      case Some(c) =>
        if BytesPerPixel() == 3 && c + 3 <= |data| then Some(Rgb(data[c], data[c + 1], data[c + 2]))
        else if BytesPerPixel() == 4 && c + 4 <= |data| then Some(Rgb(data[c + 1], data[c + 2], data[c + 3]))
        else None
    }

    /** Pixels per drawn row and number of rows: an image without width still yields one pixel per row. */
    function Columns(): (n: nat)
      ensures n > 0
    {
      if width == 0 then 1 else AsUsize(width)
    }

    function Rows(): nat { AsUsize(height) }

    function Count(): nat { Columns() * Rows() }

    /** Pixel k in drawing order, left to right and top to bottom: the last stored row comes first. */
    function Shown(k: nat): Option<nat> {
      if k / Columns() < Rows() then Colour(k % Columns(), Rows() - 1 - k / Columns()) else None
    }

    /** The rows fit 32 bits and the pixel data holds all of them; the last row may lack its padding. */
    predicate Complete() {
      Rows() == 0 ||
      ((BytesPerPixel() == 3 || BytesPerPixel() == 4) && Stride().Some? &&
       (Rows() - 1) * Stride().value + BytesPerPixel() * Columns() <= |data|)
    }
  }

  function Rgb(b: u8, g: u8, r: u8): nat {
    Or(Or(Shl(r, 16), Shl(g, 8)), b)
  }

  /** A colour has red in bits 16 to 23, green in bits 8 to 15 and blue in bits 0 to 7. */
  lemma RgbIs(b: u8, g: u8, r: u8)
    ensures Rgb(b, g, r) == Weighted(b, g, r)
  {
    hide Or, Shl, Pow2;
    Powers();
    PowSum(8, 8, 16, 256, 256);
    ShlIsMul(r, 16);
    ShlIsMul(g, 8);
    OrIsSum(r, Shl(g, 8), 16);
    var both: nat := 256 * r + g;
    OrIsSum(both, b, 8);
  }

  function Weighted(b: nat, g: nat, r: nat): nat {
    0x1_0000 * r + 0x100 * g + b
  }

  /** The stride of an image of positive width is the least multiple of four that holds a row. */
  lemma StrideIs(image: Image)
    requires image.width > 0 && image.Stride().Some?
    ensures image.Stride().value % 4 == 0
    ensures image.bpp / 8 * image.width <= image.Stride().value < image.bpp / 8 * image.width + 4
  {
    StrideCore(image.bpp / 8 * image.width);
  }

  lemma StrideCore(row: nat)
    ensures Quarter(row + 3) * 4 % 4 == 0 && row <= Quarter(row + 3) * 4 < row + 4
  {
  }

  /** For a width that is not positive it wraps around: a multiple of four, rounded up from row + 3, modulo `2^64`. */
  lemma StrideWraps(image: Image) returns (m: int)
    requires image.width <= 0 && image.Stride().Some?
    ensures m % 4 == 0 && -0x8000_0000 <= m <= 0
    ensures var row := image.bpp / 8 * image.width;
            if row > -4 then m == 0 else row + 3 <= m < row + 7
    ensures (image.Stride().value - m) % 0x1_0000_0000_0000_0000 == 0
    ensures image.Stride().value < 0x1_0000_0000_0000_0000
  {
    var row := image.bpp / 8 * image.width;
    NotPositive(image.bpp / 8, image.width);
    m := Quarter(row + 3) * 4;
    AsUsizeIs(m);
  }

  lemma NotPositive(n: nat, x: int)
    requires x <= 0
    ensures n * x <= 0
  {
  }

  /** The stride fails only where the row overflows 32 bits. */
  lemma StrideFits(image: Image)
    ensures image.Stride().Some? <==>
            -0x8000_0000 <= image.bpp / 8 * image.width && image.bpp / 8 * image.width + 3 < 0x8000_0000
  {
  }

  /** A cast to 64 bits keeps the number modulo `2^64`. */
  lemma AsUsizeIs(x: int)
    requires -0x8000_0000_0000_0000 <= x < 0x8000_0000_0000_0000
    ensures AsUsize(x) < 0x1_0000_0000_0000_0000 && (AsUsize(x) - x) % 0x1_0000_0000_0000_0000 == 0
  {
  }

  /** The bytes a pixel is decoded from: the first three of 24 bits, the last three of 32. */
  lemma ColourIs(image: Image, col: nat, row: nat)
    requires image.Stride().Some?
    ensures image.bpp / 8 == 3 ==>
              var c := 3 * col + image.Stride().value * row;
              image.Colour(col, row) == if c + 3 <= |image.data|
                then Some(Weighted(image.data[c], image.data[c + 1], image.data[c + 2])) else None
    ensures image.bpp / 8 == 4 ==>
              var c := 4 * col + image.Stride().value * row;
              image.Colour(col, row) == if c + 4 <= |image.data|
                then Some(Weighted(image.data[c + 1], image.data[c + 2], image.data[c + 3])) else None
    ensures image.bpp / 8 != 3 && image.bpp / 8 != 4 ==> image.Colour(col, row) == None
  {
    hide Image.Stride, Rgb, Weighted;
    forall b: u8, g: u8, r: u8
      ensures Rgb(b, g, r) == Weighted(b, g, r)
    {
      RgbIs(b, g, r);
    }
  }

  lemma RowInside(k: nat, width: nat, height: nat)
    requires width > 0 && k < width * height
    ensures k / width < height && k % width < width
  {
    if k / width >= height {
      MulLe(width, height, k / width);
    }
  }

  lemma InBounds(image: Image, col: nat, row: nat)
    requires image.Complete() && col < image.Columns() && row < image.Rows()
    ensures image.Coord(col, row).Some? && image.Coord(col, row).value + image.BytesPerPixel() <= |image.data|
  {
    hide Image.Stride;
    var b, s := image.BytesPerPixel(), image.Stride().value;
    MulLe(s, row, image.Rows() - 1);
    MulLe(b, col + 1, image.Columns());
    Distribute(b, 1, col, 1);
  }

  lemma ReadWhenComplete(image: Image, k: nat)
    requires image.Complete() && k < image.Count()
    ensures image.Shown(k).Some?
  {
    hide Image.Stride, Image.Columns, Image.Rows, Image.Coord, Rgb;
    RowInside(k, image.Columns(), image.Rows());
    InBounds(image, k % image.Columns(), image.Rows() - 1 - k / image.Columns());
  }

  /** If the data is not complete, the last pixel of the row drawn first cannot be read. */
  lemma MissingWhenIncomplete(image: Image)
    requires !image.Complete()
    ensures image.Columns() - 1 < image.Count() && image.Shown(image.Columns() - 1).None?
  {
    hide Image.Stride, Image.Columns, Image.Rows, Rgb;
    var k: nat := image.Columns() - 1;
    MulLe(image.Columns(), 1, image.Rows());
    QuotientUnique(k, image.Columns(), 0, k);
    LastOfRow(image.BytesPerPixel(), image.Columns());
  }

  /** All pixels can be read exactly when the pixel data is complete. */
  lemma CompleteExactly(image: Image)
    ensures (forall k: nat | k < image.Count() :: image.Shown(k).Some?) <==> image.Complete()
  {
    hide Image.Complete, Image.Shown, Image.Count, Image.Columns;
    if image.Complete() {
      forall k: nat | k < image.Count()
        ensures image.Shown(k).Some?
      {
        ReadWhenComplete(image, k);
      }
    } else {
      MissingWhenIncomplete(image);
      assert image.Columns() - 1 >= 0;
    }
  }

  lemma LastOfRow(b: nat, width: nat)
    requires width > 0
    ensures (width - 1) * b + b == b * width
  {
  }

  /** `Panic` is an index out of bounds, an overflow or an unsupported pixel size. */
  datatype Step = Pixel(colour: nat) | End | Panic

  class BmpIterator {
    const image: Image
    var x: nat
    var y: nat

    /** The iterator stands on a pixel or just past the last one. */
    ghost predicate InGrid()
      reads this
    {
      x < image.Columns() && y <= image.Rows() && (y == image.Rows() ==> x == 0)
    }

    /** How many pixels have been produced. */
    ghost function Position(): nat
      requires InGrid()
      reads this
    {
      image.Columns() * y + x
    }

    constructor (image: Image)
      ensures this.image == image && x == 0 && y == 0
      ensures InGrid() && Position() == 0
    {
      this.image := image;
      x := 0;
      y := 0;
    }

    method Next() returns (r: Step)
      modifies this
      ensures r == End <==> old(y) >= AsUsize(image.height)
      ensures r.Pixel? ==> image.Colour(old(x), AsUsize(image.height) - old(y) - 1) == Some(r.colour)
      ensures r == Panic ==> image.Colour(old(x), AsUsize(image.height) - old(y) - 1) == None
      ensures r.Pixel? ==>
                (x, y) == if old(x) + 1 >= AsUsize(image.width) then (0, old(y) + 1) else (old(x) + 1, old(y))
      ensures !r.Pixel? ==> x == old(x) && y == old(y)
      ensures old(InGrid()) ==>
                && InGrid()
                && (r == End <==> old(Position()) >= image.Count())
                && (r.Pixel? ==> image.Shown(old(Position())) == Some(r.colour) && Position() == old(Position()) + 1)
                && (r == Panic ==> image.Shown(old(Position())) == None)
    {
      hide Image.Colour;
      if y >= AsUsize(image.height) {
        return End;
      }
      if InGrid() {
        PositionRow(image.Columns(), image.Rows(), x, y);
      }
      var pixel := ReadPixel(x, AsUsize(image.height) - y - 1);
      if pixel.None? {
        return Panic;
      }
      r := Pixel(pixel.value);
      x := x + 1;
      if x >= AsUsize(image.width) {
        y := y + 1;
        x := 0;
      }
    }

    /** Fetches the bytes of a stored pixel; `None` is the panic. */
    method ReadPixel(col: nat, row: nat) returns (r: Option<nat>)
      ensures r == image.Colour(col, row)
      ensures r.None? <==>
              || image.Stride().None? || !(image.BytesPerPixel() == 3 || image.BytesPerPixel() == 4)
              || col * image.BytesPerPixel() + row * image.Stride().value + image.BytesPerPixel() > |image.data|
    {
      hide Or, Shl, AsUsize;
      var bytesPerPixel := image.bpp / 8;
      var rowBytes := bytesPerPixel * image.width;
      if rowBytes < -0x8000_0000 || rowBytes + 3 >= 0x8000_0000 {
        return None;
      }
      var stride := AsUsize(Quarter(rowBytes + 3) * 4);
      var coord := col * bytesPerPixel + row * stride;
      match bytesPerPixel {
        case 3 =>
          if coord + 3 > |image.data| {
            return None;
          }
          var b, g, red := image.data[coord], image.data[coord + 1], image.data[coord + 2];
          return Some(Or(Or(Shl(red, 16), Shl(g, 8)), b));
        case 4 =>
          if coord + 4 > |image.data| {
            return None;
          }
          var b, g, red := image.data[coord + 1], image.data[coord + 2], image.data[coord + 3];
          return Some(Or(Or(Shl(red, 16), Shl(g, 8)), b));
        case _ =>
          return None;
      }
    }
  }

  lemma PositionRow(width: nat, height: nat, x: nat, y: nat)
    requires x < width && y < height
    ensures width * y + x < width * height
    ensures (width * y + x) / width == y && (width * y + x) % width == x
    ensures width * (y + 1) == width * y + width
  {
    QuotientUnique(width * y + x, width, y, x);
    MulLe(width, y + 1, height);
    Distribute(width, 1, y, 1);
  }

  // ---------- drawing ----------

  /** The framebuffer index of pixel k of a picture drawn at (x0, y0). */
  function Place(width: nat, stride: nat, x0: nat, y0: nat, k: nat): nat
    requires width > 0
  {
    x0 + k % width + stride * (y0 + k / width)
  }

  ghost predicate Drawn(width: nat, stride: nat, x0: nat, y0: nat, n: nat, i: int)
    requires width > 0
  {
    exists k: nat :: k < n && Place(width, stride, x0, y0, k) == i
  }

  /** Distinct pixels have distinct places exactly when a row fits the stride, or there is one row only. */
  lemma PlacesDistinct(width: nat, height: nat, stride: nat, x0: nat, y0: nat)
    requires width > 0 && height > 0
    ensures (forall j: nat, k: nat | j < k < width * height ::
               Place(width, stride, x0, y0, j) != Place(width, stride, x0, y0, k)) <==> width <= stride || height == 1
  {
    if width <= stride || height == 1 {
      forall j: nat, k: nat | j < k < width * height
        ensures Place(width, stride, x0, y0, j) != Place(width, stride, x0, y0, k)
      {
        LaterPlace(width, height, stride, x0, y0, j, k);
      }
    } else {
      MulLe(width, 2, height);
      QuotientUnique(stride, width, 0, stride);
      QuotientUnique(width, width, 1, 0);
      Distribute(stride, 1, y0, 1);
      assert Place(width, stride, x0, y0, stride) == Place(width, stride, x0, y0, width);
      assert stride < width < width * height;
    }
  }

  lemma LaterPlace(width: nat, height: nat, stride: nat, x0: nat, y0: nat, j: nat, k: nat)
    requires width > 0 && j < k < width * height && (width <= stride || height == 1)
    ensures Place(width, stride, x0, y0, j) < Place(width, stride, x0, y0, k)
  {
    RowInside(j, width, height);
    RowInside(k, width, height);
    LaterCell(width, stride, y0, j / width, j % width, k / width, k % width);
  }

  /** The same on rows and columns, without division. */
  lemma LaterCell(width: nat, stride: nat, y0: nat, p: nat, a: nat, q: nat, b: nat)
    requires a < width && b < width && width * p + a < width * q + b && (width <= stride || p == q)
    ensures a + stride * (y0 + p) < b + stride * (y0 + q)
  {
    if p > q {
      MulLe(width, q + 1, p);
      Distribute(width, 1, q, 1);
    } else if p < q {
      MulLe(stride, y0 + p + 1, y0 + q);
      Distribute(stride, 1, y0 + p, 1);
    }
  }

  /** None of the first n pixels after k is drawn over pixel k. */
  ghost predicate StaysVisible(width: nat, stride: nat, x0: nat, y0: nat, k: nat, n: nat)
    requires width > 0
  {
    forall j: nat | k < j < n :: Place(width, stride, x0, y0, j) != Place(width, stride, x0, y0, k)
  }

  /** The first n pixels were drawn: each place shows the last pixel drawn there, and nothing else changed. */
  ghost predicate Painted(was: seq<nat>, fb: seq<nat>, image: Image, stride: nat, x0: nat, y0: nat, n: nat)
  {
    && |fb| == |was|
    && (forall k: nat | k < n :: Place(image.Columns(), stride, x0, y0, k) < |fb| && image.Shown(k).Some?)
    && (forall k: nat | k < n && StaysVisible(image.Columns(), stride, x0, y0, k, n) ::
          image.Shown(k) == Some(fb[Place(image.Columns(), stride, x0, y0, k)]))
    && (forall i | 0 <= i < |fb| && !Drawn(image.Columns(), stride, x0, y0, n, i) :: fb[i] == was[i])
  }

  /** Drawing pixel n leaves a pixel that is still visible after it as it was. */
  lemma StillVisible(
      was: seq<nat>, fb: seq<nat>, image: Image, stride: nat, x0: nat, y0: nat, n: nat, colour: nat, k: nat)
    requires Painted(was, fb, image, stride, x0, y0, n)
    requires k < n && StaysVisible(image.Columns(), stride, x0, y0, k, n + 1)
    requires Place(image.Columns(), stride, x0, y0, n) < |fb|
    ensures var fb' := fb[Place(image.Columns(), stride, x0, y0, n) := colour];
            image.Shown(k) == Some(fb'[Place(image.Columns(), stride, x0, y0, k)])
  {
    hide Image.Shown, Place;
    assert StaysVisible(image.Columns(), stride, x0, y0, k, n);
    assert Place(image.Columns(), stride, x0, y0, n) != Place(image.Columns(), stride, x0, y0, k);
  }

  lemma PaintOne(was: seq<nat>, fb: seq<nat>, image: Image, stride: nat, x0: nat, y0: nat, n: nat, colour: nat)
    requires image.Shown(n) == Some(colour)
    requires Painted(was, fb, image, stride, x0, y0, n) && Place(image.Columns(), stride, x0, y0, n) < |fb|
    ensures Painted(was, fb[Place(image.Columns(), stride, x0, y0, n) := colour], image, stride, x0, y0, n + 1)
  {
    hide Image.Shown, Place, StaysVisible;
    var fb' := fb[Place(image.Columns(), stride, x0, y0, n) := colour];
    forall k: nat | k < n && StaysVisible(image.Columns(), stride, x0, y0, k, n + 1)
      ensures image.Shown(k) == Some(fb'[Place(image.Columns(), stride, x0, y0, k)])
    {
      StillVisible(was, fb, image, stride, x0, y0, n, colour, k);
    }
    forall i | 0 <= i < |fb| && !Drawn(image.Columns(), stride, x0, y0, n + 1, i)
      ensures fb'[i] == was[i]
    {
      assert !Drawn(image.Columns(), stride, x0, y0, n, i);
    }
  }

  /** When rows fit the stride, or there is one only, every pixel of the picture is in its place. */
  lemma AllVisible(was: seq<nat>, fb: seq<nat>, image: Image, stride: nat, x0: nat, y0: nat, k: nat)
    requires Painted(was, fb, image, stride, x0, y0, image.Count()) && k < image.Count()
    requires image.Columns() <= stride || image.Rows() == 1
    ensures Place(image.Columns(), stride, x0, y0, k) < |fb|
    ensures image.Shown(k) == Some(fb[Place(image.Columns(), stride, x0, y0, k)])
  {
    hide Image.Shown, Place;
    PlacesDistinct(image.Columns(), image.Rows(), stride, x0, y0);
    assert StaysVisible(image.Columns(), stride, x0, y0, k, image.Count());
  }

  lemma PlaceCell(width: nat, stride: nat, x0: nat, y0: nat, n: nat)
    requires width > 0
    ensures x0 + n % width + (y0 + n / width) * stride == Place(width, stride, x0, y0, n)
  {
  }

  /** The draw loop's coordinates after one more pixel. */
  lemma NextCell(width: nat, n: nat)
    requires width > 0
    ensures n % width + 1 < width ==> (n + 1) % width == n % width + 1 && (n + 1) / width == n / width
    ensures n % width + 1 >= width ==> (n + 1) % width == 0 && (n + 1) / width == n / width + 1
  {
    if n % width + 1 < width {
      QuotientUnique(n + 1, width, n / width, n % width + 1);
    } else {
      Distribute(width, 1, n / width, 1);
      QuotientUnique(n + 1, width, n / width + 1, 0);
    }
  }

  /** Every pixel has its place inside the framebuffer. */
  predicate FitsIn(length: nat, width: nat, height: nat, stride: nat, x0: nat, y0: nat)
    requires width > 0
  {
    forall k: nat | k < width * height :: Place(width, stride, x0, y0, k) < length
  }

  /** The picture fits exactly when its last pixel does. */
  lemma FitsExactly(length: nat, width: nat, height: nat, stride: nat, x0: nat, y0: nat)
    requires width > 0 && height > 0
    ensures FitsIn(length, width, height, stride, x0, y0) <==>
            x0 + width - 1 + stride * (y0 + height - 1) < length
  {
    RectangleIsPlace(width, height, stride, x0, y0, width - 1, height - 1);
    forall k: nat | k < width * height
      ensures Place(width, stride, x0, y0, k) <= x0 + width - 1 + stride * (y0 + height - 1)
    {
      RowInside(k, width, height);
      MulLe(stride, y0 + k / width, y0 + height - 1);
    }
  }

  /**
   The draw loop of the kernel: pixels go left to right, then to the next framebuffer row. `false` is
   the panic at the first pixel that cannot be read or lies past the end of the framebuffer; `n` pixels
   were drawn.
   */
  method Draw(fb: array<nat>, stride: nat, x0: nat, y0: nat, image: Image) returns (ok: bool, ghost n: nat)
    modifies fb
    ensures n <= image.Count() && Painted(old(fb[..]), fb[..], image, stride, x0, y0, n)
    ensures ok <==> image.Complete() && FitsIn(fb.Length, image.Columns(), image.Rows(), stride, x0, y0)
    ensures if ok then n == image.Count()
            else n < image.Count() && (image.Shown(n).None? || Place(image.Columns(), stride, x0, y0, n) >= fb.Length)
  {
    hide Painted, Image.Shown, Image.Complete, Image.Colour, Place;
    ghost var was := fb[..];
    var it := new BmpIterator(image);
    var x, y := x0, y0;
    n := 0;
    ghost var total: nat := image.Count();
    QuotientUnique(0, image.Columns(), 0, 0);
    NothingPainted(was, image, stride, x0, y0);
    CompleteExactly(image);
    var pixel := it.Next();
    while pixel.Pixel?
      invariant it.InGrid() && it.image == image && fresh(it) && fb.Length == |was|
      invariant n <= total && (pixel == End <==> n >= total)
      invariant pixel.Pixel? ==> image.Shown(n) == Some(pixel.colour) && it.Position() == n + 1
      invariant pixel == Panic ==> image.Shown(n) == None
      invariant x == x0 + n % image.Columns() && y == y0 + n / image.Columns()
      invariant Painted(was, fb[..], image, stride, x0, y0, n)
      decreases total - n
    {
      ghost var before := fb[..];
      NextCell(image.Columns(), n);
      PlaceCell(image.Columns(), stride, x0, y0, n);
      if x + y * stride >= fb.Length {
        return false, n;
      }
      PaintOne(was, before, image, stride, x0, y0, n, pixel.colour);
      fb[x + y * stride] := pixel.colour;
      assert fb[..] == before[Place(image.Columns(), stride, x0, y0, n) := pixel.colour];
      x := x + 1;
      if x - x0 >= AsUsize(image.width) {
        x := x0;
        y := y + 1;
      }
      n := n + 1;
      pixel := it.Next();
    }
    if pixel == Panic {
      return false, n;
    }
    PaintedFits(was, fb[..], image, stride, x0, y0);
    return true, n;
  }

  lemma PaintedFits(was: seq<nat>, fb: seq<nat>, image: Image, stride: nat, x0: nat, y0: nat)
    requires Painted(was, fb, image, stride, x0, y0, image.Count())
    ensures FitsIn(|fb|, image.Columns(), image.Rows(), stride, x0, y0)
    ensures forall k: nat | k < image.Count() :: image.Shown(k).Some?
  {
  }

  lemma NothingPainted(was: seq<nat>, image: Image, stride: nat, x0: nat, y0: nat)
    ensures Painted(was, was, image, stride, x0, y0, 0)
  {
  }

  /** Framebuffer index i lies in the columns and rows of the picture. */
  predicate InRectangle(width: nat, height: nat, stride: nat, x0: nat, y0: nat, i: nat)
    requires stride > 0
  {
    x0 <= i % stride < x0 + width && y0 <= i / stride < y0 + height
  }

  lemma PlaceInRectangle(width: nat, height: nat, stride: nat, x0: nat, y0: nat, k: nat)
    requires width > 0 && x0 + width <= stride && k < width * height
    ensures InRectangle(width, height, stride, x0, y0, Place(width, stride, x0, y0, k))
  {
    RowInside(k, width, height);
    QuotientUnique(Place(width, stride, x0, y0, k), stride, y0 + k / width, x0 + k % width);
  }

  lemma RectangleIsPlace(width: nat, height: nat, stride: nat, x0: nat, y0: nat, a: nat, p: nat)
    requires a < width && p < height
    ensures width * p + a < width * height
    ensures Place(width, stride, x0, y0, width * p + a) == x0 + a + stride * (y0 + p)
  {
    PositionRow(width, height, a, p);
  }

  /** Drawing stays inside the target rectangle exactly when the picture ends within the row. */
  lemma RectangleExactly(width: nat, height: nat, stride: nat, x0: nat, y0: nat)
    requires width > 0 && height > 0 && stride > 0
    ensures (forall k: nat | k < width * height ::
               InRectangle(width, height, stride, x0, y0, Place(width, stride, x0, y0, k))) <==> x0 + width <= stride
  {
    if x0 + width <= stride {
      forall k: nat | k < width * height
        ensures InRectangle(width, height, stride, x0, y0, Place(width, stride, x0, y0, k))
      {
        PlaceInRectangle(width, height, stride, x0, y0, k);
      }
    } else {
      var k := width * (height - 1) + width - 1;
      RectangleIsPlace(width, height, stride, x0, y0, width - 1, height - 1);
      BelowTheRectangle(stride, y0 + height, Place(width, stride, x0, y0, k));
    }
  }

  lemma BelowTheRectangle(stride: nat, rows: nat, i: nat)
    requires stride > 0 && rows > 0 && i >= stride + stride * (rows - 1)
    ensures i / stride >= rows
  {
    Distribute(stride, 1, rows - 1, 1);
    Distribute(stride, 1, i / stride, 1);
    if i / stride < rows {
      MulLe(stride, i / stride + 1, rows);
    }
  }

  /** A picture two pixels wide in column 3 of a row of 4: its second pixel starts the row below. */
  lemma OverhangingPicture()
    ensures Place(2, 4, 3, 0, 1) == 4 && Drawn(2, 4, 3, 0, 2, 4) && !InRectangle(2, 1, 4, 3, 0, 4)
  {
    assert Place(2, 4, 3, 0, 1) == 4;
  }

  /** When rows fit the stride, the places drawn are exactly the target rectangle. */
  lemma DrawnIsRectangle(width: nat, height: nat, stride: nat, x0: nat, y0: nat, i: nat)
    requires width > 0 && x0 + width <= stride
    ensures Drawn(width, stride, x0, y0, width * height, i) <==> InRectangle(width, height, stride, x0, y0, i)
  {
    hide Place;
    if Drawn(width, stride, x0, y0, width * height, i) {
      var k: nat :| k < width * height && Place(width, stride, x0, y0, k) == i;
      PlaceInRectangle(width, height, stride, x0, y0, k);
    }
    if InRectangle(width, height, stride, x0, y0, i) {
      var a, p := i % stride - x0, i / stride - y0;
      RectangleIsPlace(width, height, stride, x0, y0, a, p);
      assert i == stride * (i / stride) + i % stride;
    }
  }
}
