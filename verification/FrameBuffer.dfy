/** The back buffer of the display: a row-major array of 32-bit colours. */
module FrameBuffers {
  import opened Integers
  import opened Words

  class FrameBuffer {
    const width: UInt16
    const height: UInt16
    const backBuffer: array<UInt32>

    constructor (width: UInt16, height: UInt16, backBuffer: array<UInt32>)
      requires backBuffer.Length == width * height
      ensures this.width == width && this.height == height && this.backBuffer == backBuffer
      ensures Valid()
    {
      this.width, this.height, this.backBuffer := width, height, backBuffer;
    }

    ghost predicate Valid() {
      backBuffer.Length == width * height
    }

    predicate InFrame(x: int, y: int) {
      0 <= x < width && 0 <= y < height
    }

    /** The array slot that drawPixel and drawHLine compute, in 32-bit arithmetic. */
    function Index(x: int, y: int): UInt32 {
      ToUInt32(x + y * width)
    }

    lemma IndexOfPixel(x: int, y: int)
      requires InFrame(x, y)
      ensures Index(x, y) == x + y * width < width * height
    {
      RowMajorFits(x, y, width, height);
    }

    lemma IndexInjective(x: int, y: int, x': int, y': int)
      requires InFrame(x, y) && InFrame(x', y')
      ensures Index(x, y) == Index(x', y') <==> (x, y) == (x', y')
    {
      IndexOfPixel(x, y);
      IndexOfPixel(x', y');
      RowMajorInjective(x, y, x', y', width);
    }

    /** Every slot of the buffer is that of a pixel of the frame, of one alone by IndexInjective. */
    lemma PixelOfSlot(k: nat) returns (x: nat, y: nat)
      requires k < width * height
      ensures k == y * width + x && x < width && y < height
      ensures InFrame(x, y) && Index(x, y) == k
    {
      x, y := k % width, k / width;
      SlotInRow(k, width, height);
      IndexOfPixel(x, y);
    }

    /** Storing into the slot of one pixel changes that pixel alone. */
    lemma StoreIsLocal(before: seq<UInt32>, x: int, y: int, color: UInt32)
      requires |before| == width * height && InFrame(x, y)
      ensures Index(x, y) < |before|
      ensures forall px, py | InFrame(px, py) ::
                Index(px, py) < |before|
                && before[Index(x, y) := color][Index(px, py)]
                   == if px == x && py == y then color else before[Index(px, py)]
    {
      IndexOfPixel(x, y);
      forall px, py | InFrame(px, py)
        ensures Index(px, py) < |before|
        ensures before[Index(x, y) := color][Index(px, py)]
                == if px == x && py == y then color else before[Index(px, py)]
      {
        IndexOfPixel(px, py);
        IndexInjective(px, py, x, y);
      }
    }

    /** The colour of an on-screen pixel. */
    ghost function At(x: int, y: int): UInt32
      requires Valid() && InFrame(x, y)
      reads backBuffer
    {
      IndexOfPixel(x, y);
      backBuffer[Index(x, y)]
    }

    /**
     * Sets one pixel. There is no clipping: coordinates outside the frame land on whatever slot
     * the index computation gives, so the caller owes a slot inside the buffer.
     */
    method DrawPixel(x: UInt32, y: UInt32, color: UInt32)
      requires Valid() && Index(x, y) < backBuffer.Length
      modifies backBuffer
      ensures backBuffer[..] == old(backBuffer[..])[Index(x, y) := color]
      ensures InFrame(x, y) ==>
                forall px, py | InFrame(px, py) ::
                  At(px, py) == if px == x && py == y then color else old(At(px, py))
    {
      var index := Index(x, y);
      backBuffer[index] := color;
      if InFrame(x, y) {
        StoreIsLocal(old(backBuffer[..]), x, y, color);
      }
    }
  }

  lemma OneRowLess(width: int, height: int)
    ensures (height - 1) * width == width * height - width
  {
  }

  lemma SlotInRow(k: nat, width: nat, height: nat)
    requires k < width * height
    ensures width > 0 && k == k / width * width + k % width && 0 <= k / width < height && 0 <= k % width < width
  {
    var q, r := k / width, k % width;
    assert k == q * width + r;
    if q >= height {
      ProductMonotone(height, q, width);
    } else if q < 0 {
      ProductMonotone(q, -1, width);
    }
  }

  lemma RowMajorFits(x: int, y: int, width: int, height: int)
    requires 0 <= x < width < TWO16 && 0 <= y < height < TWO16
    ensures 0 <= x + y * width < width * height < TWO32
  {
    ProductMonotone(0, y, width);
    ProductMonotone(y, height - 1, width);
    ProductMonotone(width, TWO16 - 1, height);
    OneRowLess(width, height);
  }

  lemma RowMajorInjective(x: int, y: int, x': int, y': int, width: int)
    requires 0 <= x < width && 0 <= x' < width
    ensures x + y * width == x' + y' * width <==> x == x' && y == y'
  {
    if y < y' {
      ProductMonotone(y + 1, y', width);
    } else if y' < y {
      ProductMonotone(y' + 1, y, width);
    }
  }
}
