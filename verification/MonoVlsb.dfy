/**
 The pixel store of the display (display/mono_vlsb.cpp): each byte holds eight pixels of a column, the topmost in the
 lowest bit, and the bytes of a page of eight rows follow each other with `stride` bytes from one page to the next.
 */
module MonoVlsbModel {
  import opened Base

  /** `0x01 << k` in a byte. */
  function Mask(k: nat): bv8
    requires k < 8
  {
    match k
    case 0 => 0x01
    case 1 => 0x02
    case 2 => 0x04
    case 3 => 0x08
    case 4 => 0x10
    case 5 => 0x20
    case 6 => 0x40
    case _ => 0x80
  }

  function BitAt(b: bv8, k: nat): bool
    requires k < 8
  {
    b & Mask(k) != 0
  }

  /** The bit numbers count from the lowest bit up. */
  lemma BitAtIs(b: bv8, k: nat)
    requires k < 8
    ensures BitAt(b, k) <==> (b >> k) & 1 == 1
    ensures (b >> k) & 1 == 0 || (b >> k) & 1 == 1
  {
    LowBit(b >> k);
    match k {
      case 0 => assert b >> 0 == b;
      case 1 => assert (b >> 1) & 1 == 1 <==> b & 0x02 != 0;
      case 2 => assert (b >> 2) & 1 == 1 <==> b & 0x04 != 0;
      case 3 => assert (b >> 3) & 1 == 1 <==> b & 0x08 != 0;
      case 4 => assert (b >> 4) & 1 == 1 <==> b & 0x10 != 0;
      case 5 => assert (b >> 5) & 1 == 1 <==> b & 0x20 != 0;
      case 6 => assert (b >> 6) & 1 == 1 <==> b & 0x40 != 0;
      case _ => assert (b >> 7) & 1 == 1 <==> b & 0x80 != 0;
    }
  }

  lemma LowBit(b: bv8)
    ensures b & 1 == 0 || b & 1 == 1
  {
  }

  function WithBit(b: bv8, k: nat, on: bool): bv8
    requires k < 8
  {
    (b & !Mask(k)) | if on then Mask(k) else 0
  }

  lemma BitSet(b: bv8, k: nat, on: bool)
    requires k < 8
    ensures BitAt(WithBit(b, k, on), k) == on
  {
    var m := Mask(k);
    assert m != 0;
    assert (b & !m) & m == 0 && ((b & !m) | m) & m == m;
    assert (b & !m) | 0 == b & !m;
  }

  lemma MasksApart(k: nat, j: nat)
    requires k < 8 && j < 8 && j != k
    ensures Mask(k) & Mask(j) == 0
  {
  }

  lemma OtherBits(b: bv8, m: bv8, n: bv8)
    requires m & n == 0
    ensures (b & !m) & n == b & n && ((b & !m) | m) & n == b & n
  {
  }

  lemma BitKept(b: bv8, k: nat, on: bool, j: nat)
    requires k < 8 && j < 8 && j != k
    ensures BitAt(WithBit(b, k, on), j) == BitAt(b, j)
  {
    MasksApart(k, j);
    OtherBits(b, Mask(k), Mask(j));
    assert (b & !Mask(k)) | 0 == b & !Mask(k);
  }

  function Pages(height: nat): nat { height / 8 + if height % 8 != 0 then 1 else 0 }

  lemma {:induction false} PagesApart(p: nat, q: nat, stride: nat)
    ensures p < q ==> p * stride + stride <= q * stride
    ensures p <= q ==> p * stride <= q * stride
    decreases q
  {
    if p < q {
      PagesApart(p, q - 1, stride);
      assert q * stride == (q - 1) * stride + stride;
    }
  }

  class MonoVlsb {
    const width: u16
    const height: u16
    const stride: u16
    const bufferOffset: u16
    const buffer: array<bv8>

    /** Rows do not overlap and the last one ends within the buffer. */
    predicate Valid() {
      && width <= stride
      && (width > 0 && height > 0 ==> (Pages(height) - 1) * stride + width + bufferOffset <= buffer.Length)
    }

    predicate InFrame(x: int, y: int) { 0 <= x < width && 0 <= y < height }

    function Index(x: nat, y: nat): nat { (y / 8) * stride + x + bufferOffset }

    lemma IndexInBuffer(x: nat, y: nat)
      requires Valid() && InFrame(x, y)
      ensures Index(x, y) < buffer.Length
    {
      PagesApart(y / 8, Pages(height) - 1, stride);
    }

    /** Different pixels are in different bytes or at different bits. */
    lemma PixelsApart(x: nat, y: nat, x': nat, y': nat)
      requires Valid() && InFrame(x, y) && InFrame(x', y') && Index(x, y) == Index(x', y') && y % 8 == y' % 8
      ensures x == x' && y == y'
    {
      PagesApart(y / 8, y' / 8, stride);
      PagesApart(y' / 8, y / 8, stride);
    }

    /** Whether a pixel is set. */
    predicate Pixel(x: int, y: int)
      requires Valid() && InFrame(x, y)
      reads buffer
    {
      IndexInBuffer(x, y);
      BitAt(buffer[Index(x, y)], y % 8)
    }

    /**
     The first constructor: an empty frame. A stride of zero stands for the width. The buffer is sized by the width, so
     a wider stride only fits a frame of one page.
     */
    constructor (width_: u16, height_: u16, stride_: u16, bufOffset: u16)
      ensures Valid() <==> stride_ == 0 || stride_ == width_ || (stride_ > width_ && (height_ <= 8 || width_ == 0))
      ensures fresh(buffer) && width == width_ && height == height_ && bufferOffset == bufOffset
      ensures Valid() ==> forall x, y :: InFrame(x, y) ==> !Pixel(x, y)
    {
      width, height, bufferOffset := width_, height_, bufOffset;
      stride := if stride_ == 0 then width_ else stride_;
      var size := width_ * Pages(height_) + bufOffset;
      buffer := new bv8[size](_ => 0);
      new;
      if width > 0 && height > 0 && width <= stride {
        FrameFits(width, height, stride);
      }
      if Valid() {
        forall x, y | InFrame(x, y)
          ensures !Pixel(x, y)
        {
          IndexInBuffer(x, y);
          assert 0 as bv8 & Mask(y % 8) == 0;
        }
      }
    }

    /** The read, mask and write that sets the pixel at `x`, `y`. */
    method Store(index: nat, offset: nat, color: nat, ghost x: nat, ghost y: nat)
      requires Valid() && InFrame(x, y) && index == Index(x, y) && offset == y % 8
      modifies buffer
      ensures index < buffer.Length
      ensures buffer[..] == old(buffer[..])[index := WithBit(old(buffer[index]), offset, color != 0)]
      ensures Pixel(x, y) == (color != 0)
      ensures forall x', y' :: InFrame(x', y') && (x' != x || y' != y) ==> Pixel(x', y') == old(Pixel(x', y'))
    {
      hide Mask, BitAt, WithBit;
      IndexInBuffer(x, y);
      ghost var byte := buffer[index];
      buffer[index] := WithBit(buffer[index], offset, color != 0);
      BitSet(byte, offset, color != 0);
      forall x', y' | InFrame(x', y') && (x' != x || y' != y)
        ensures Pixel(x', y') == old(Pixel(x', y'))
      {
        IndexInBuffer(x', y');
        if Index(x', y') == index {
          if y' % 8 == offset {
            PixelsApart(x, y, x', y');
          } else {
            BitKept(byte, offset, color != 0, y' % 8);
          }
        }
      }
    }

    /** setpixel. */
    method SetPixel(x: nat, y: nat, color: nat)
      requires Valid() && InFrame(x, y)
      modifies buffer
      ensures Index(x, y) < buffer.Length
      ensures buffer[..] == old(buffer[..])[Index(x, y) := WithBit(old(buffer[Index(x, y)]), y % 8, color != 0)]
      ensures Pixel(x, y) == (color != 0)
      ensures forall x', y' :: InFrame(x', y') && (x' != x || y' != y) ==> Pixel(x', y') == old(Pixel(x', y'))
    {
      var index := (y / 8) * stride + x + bufferOffset;
      var offset := y % 8;
      Store(index, offset, color, x, y);
    }

    /** getpixel. */
    method GetPixel(x: nat, y: nat) returns (color: nat)
      requires Valid() && InFrame(x, y)
      ensures color == if Pixel(x, y) then 1 else 0
    {
      IndexInBuffer(x, y);
      BitAtIs(buffer[Index(x, y)], y % 8);
      color := ((buffer[(y / 8) * stride + x + bufferOffset] >> (y % 8)) & 1) as nat;
    }

    /** fill_rect, for a rectangle within the frame. */
    method FillRect(x: nat, y: nat, w: nat, h: nat, color: nat)
      requires Valid() && x + w <= width && y + h <= height
      modifies buffer
      ensures forall x', y' :: InFrame(x', y') ==>
                Pixel(x', y') == if x <= x' < x + w && y <= y' < y + h then color != 0 else old(Pixel(x', y'))
    {
      hide Index, Valid;
      var row, left := y, h;
      while left > 0
        invariant 0 <= left <= h && row == y + (h - left) && Valid()
        invariant forall x', y' :: InFrame(x', y') ==>
                    Pixel(x', y') == if x <= x' < x + w && y <= y' < row then color != 0 else old(Pixel(x', y'))
      {
        left := left - 1;
        var b := Index(x, row);
        var offset := row % 8;
        var ww := w;
        while ww > 0
          invariant 0 <= ww <= w && b == Index(x, row) + (w - ww) && Valid()
          invariant forall x', y' :: InFrame(x', y') ==>
                      Pixel(x', y') == if (x <= x' < x + w && y <= y' < row) || (x <= x' < x + (w - ww) && y' == row)
                                       then color != 0 else old(Pixel(x', y'))
        {
          NextIndex(x, row, w - ww);
          Store(b, offset, color, x + (w - ww), row);
          b := b + 1;
          ww := ww - 1;
        }
        row := row + 1;
      }
    }

    lemma NextIndex(x: nat, y: nat, i: nat)
      ensures Index(x + i, y) == Index(x, y) + i
    {
    }
  }

  /** The rows of a frame fit a buffer of `width` bytes a page when the stride is the width or there is one page. */
  lemma FrameFits(width: nat, height: nat, stride: nat)
    requires width > 0 && height > 0 && width <= stride
    ensures (Pages(height) - 1) * stride + width <= width * Pages(height) <==> stride == width || height <= 8
  {
    var p := Pages(height) - 1;
    assert width * Pages(height) == p * width + width;
    if stride != width && height > 8 {
      assert p >= 1;
      assert p * stride == p * width + p * (stride - width);
      assert p * (stride - width) >= 1;
    }
  }
}
