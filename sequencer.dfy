/**
 * getNextShot of LsbImpl (and its copies in LsbEncoder and LsbDecoder): the
 * running bit counter is split into a pixel cell of bitsPerLayer * layers
 * bits, and the cell number is unfolded row by row over the image width.
 */
module Sequencer {
  import opened Shots

  /** The parameters encode and decode derive from the image and the bit range. */
  datatype Layout = Layout(startBits: int, bitsPerLayer: int, layers: int, width: int, height: int)
  {
    /** height * width * bitsPerLayer * layers, evaluated left to right as in the source. */
    function MaxBits(): int
    {
      height * width * bitsPerLayer * layers
    }

    /** The bits of one pixel cell. */
    function CellBits(): int
    {
      bitsPerLayer * layers
    }

    /** A layout over a nonempty image with at least one layer and one bit per layer. */
    predicate Sound()
    {
      0 <= startBits && 1 <= bitsPerLayer && 1 <= layers && 1 <= width && 1 <= height
    }

    /** The shot getNextShot returns for counter `c` on this layout. */
    function Shot(c: int): Shot
      requires Sound() && 0 <= c
    {
      AddressOf(startBits, bitsPerLayer, layers, MaxBits(), width, c)
    }
  }

  /**
   * getNextShot's address arithmetic for a counter `c` that has passed the
   * `bitCounter > maxBits` test, with the source's operators (all operands
   * are non-negative, so Java's truncating / and % agree with Dafny's).
   */
  function AddressOf(startBits: int, bitsPerLayer: int, layers: int, maxBits: int, width: int, c: int): Shot
    requires maxBits > 0 && bitsPerLayer * layers > 0 && width > 0 && c >= 0
  {
    var plane := startBits + c / maxBits;
    var rangeupto := c % (bitsPerLayer * layers);
    var tmp := (c - rangeupto) / (bitsPerLayer * layers);
    var xrow := tmp % width;
    var yrow := (tmp - xrow) / width;
    Shot(xrow, yrow, plane + rangeupto % bitsPerLayer, rangeupto / bitsPerLayer)
  }

  /** Euclidean division pins quotient and remainder. */
  lemma DivModUnique(a: int, b: int, q: int, r: int)
    requires b > 0 && 0 <= r < b && a == q * b + r
    ensures a / b == q && a % b == r
  {
    var q', r' := a / b, a % b;
    assert (q - q') * b == r' - r;
    MulSign(q - q', b);
  }

  /** Quotient and remainder put back together give the dividend. */
  lemma DivModSplit(a: int, b: int)
    requires b > 0
    ensures a == (a / b) * b + a % b && 0 <= a % b < b
  {
  }

  /** A nonzero multiple of b is at least b away from zero. */
  lemma MulSign(d: int, b: int)
    requires b > 0
    ensures d >= 1 ==> d * b >= b
    ensures d <= -1 ==> d * b <= -b
  {
    if d >= 1 {
      MulMonotone(1, d, b);
    }
    if d <= -1 {
      MulMonotone(d, -1, b);
    }
  }

  lemma MulMonotone(a: int, a': int, b: int)
    requires a <= a' && b >= 0
    ensures a * b <= a' * b
  {
    assert a' * b - a * b == (a' - a) * b;
  }

  /** A product below n * b has a quotient below n. */
  lemma QuotientBound(a: int, b: int, n: int)
    requires b > 0 && 0 <= a < n * b
    ensures a / b < n
  {
    var q := a / b;
    assert (q - n) * b < a % b - (a - n * b);
    MulSign(q - n + 1, b);
  }

  /** The maximum bit count is the cell count times the cell size. */
  lemma MaxBitsCells(l: Layout)
    ensures l.MaxBits() == (l.height * l.width) * l.CellBits()
  {
    var hw := l.height * l.width;
    assert hw * l.bitsPerLayer * l.layers == hw * (l.bitsPerLayer * l.layers);
  }

  /**
   * For a counter below maxBits, with k = bitsPerLayer * layers: x is
   * (c / k) % width, y is (c / k) / width, the layer is (c % k) / bitsPerLayer
   * and the bit position is startBits + (c % k) % bitsPerLayer.
   */
  lemma ShotFields(l: Layout, c: int)
    requires l.Sound() && 0 <= c < l.MaxBits()
    ensures var s, k := l.Shot(c), l.CellBits();
      s.x == (c / k) % l.width && s.y == (c / k) / l.width &&
      s.layer == (c % k) / l.bitsPerLayer && s.bitPos == l.startBits + (c % k) % l.bitsPerLayer
  {
    var k := l.CellBits();
    assert k > 0 by { MulMonotone(1, l.bitsPerLayer, l.layers); }
    DivModUnique(c, l.MaxBits(), 0, c);
    var r := c % k;
    var tmp := c / k;
    DivModSplit(c, k);
    DivModUnique(c - r, k, tmp, 0);
    var x := tmp % l.width;
    DivModSplit(tmp, l.width);
    DivModUnique(tmp - x, l.width, tmp / l.width, 0);
  }

  /** Every shot below maxBits addresses a pixel of the image, a layer it has and a bit of the range. */
  lemma ShotInImage(l: Layout, c: int)
    requires l.Sound() && 0 <= c < l.MaxBits()
    ensures var s := l.Shot(c);
      0 <= s.x < l.width && 0 <= s.y < l.height && 0 <= s.layer < l.layers &&
      l.startBits <= s.bitPos < l.startBits + l.bitsPerLayer
  {
    ShotFields(l, c);
    CellInImage(l, c);
    OffsetInCell(l, c);
    var k := l.CellBits();
    assert k > 0 by { MulMonotone(1, l.bitsPerLayer, l.layers); }
    var tmp, r := c / k, c % k;
    assert 0 <= tmp && 0 <= r;
    assert 0 <= tmp % l.width < l.width && 0 <= tmp / l.width;
    assert 0 <= r % l.bitsPerLayer < l.bitsPerLayer && 0 <= r / l.bitsPerLayer;
  }

  /** The cell number of a counter below maxBits lies in row 0..height - 1. */
  lemma CellInImage(l: Layout, c: int)
    requires l.Sound() && 0 <= c < l.MaxBits()
    ensures (c / l.CellBits()) / l.width < l.height
  {
    var k := l.CellBits();
    assert k > 0 by { MulMonotone(1, l.bitsPerLayer, l.layers); }
    MaxBitsCells(l);
    QuotientBound(c, k, l.height * l.width);
    QuotientBound(c / k, l.width, l.height);
  }

  /** The offset within a cell splits into a layer below `layers` and a bit below bitsPerLayer. */
  lemma OffsetInCell(l: Layout, c: int)
    requires l.Sound() && 0 <= c
    ensures (c % l.CellBits()) / l.bitsPerLayer < l.layers
  {
    var k := l.CellBits();
    assert k > 0 by { MulMonotone(1, l.bitsPerLayer, l.layers); }
    QuotientBound(c % k, l.bitsPerLayer, l.layers);
  }

  /** A cell offset is recovered from its layer and bit position. */
  lemma CellOffset(l: Layout, c: int)
    requires l.Sound() && 0 <= c < l.MaxBits()
    ensures var s, k := l.Shot(c), l.CellBits();
      c % k == s.layer * l.bitsPerLayer + (s.bitPos - l.startBits) &&
      c / k == s.y * l.width + s.x &&
      c == (c / k) * k + c % k
  {
    ShotFields(l, c);
    var k := l.CellBits();
    assert k > 0 by { MulMonotone(1, l.bitsPerLayer, l.layers); }
    DivModSplit(c, k);
    DivModSplit(c % k, l.bitsPerLayer);
    DivModSplit(c / k, l.width);
  }

  /** Distinct counters below maxBits give distinct shots. */
  lemma ShotInjective(l: Layout, c1: int, c2: int)
    requires l.Sound() && 0 <= c1 < l.MaxBits() && 0 <= c2 < l.MaxBits() && c1 != c2
    ensures l.Shot(c1) != l.Shot(c2)
  {
    CellOffset(l, c1);
    CellOffset(l, c2);
  }

  /**
   * getNextShot tests `bitCounter > maxBits`, so counter maxBits still gets a
   * shot: it is column 0 of row `height`, one row below the image, on bit
   * position startBits + 1.
   */
  lemma ShotPastEnd(l: Layout)
    requires l.Sound()
    ensures var s := l.Shot(l.MaxBits());
      s.x == 0 && s.y == l.height && s.layer == 0 && s.bitPos == l.startBits + 1
  {
    var k := l.CellBits();
    assert k > 0 by { MulMonotone(1, l.bitsPerLayer, l.layers); }
    MaxBitsCells(l);
    var m := l.MaxBits();
    DivModUnique(m, m, 1, 0);
    DivModUnique(m, k, l.height * l.width, 0);
    assert (m - 0) / k == l.height * l.width;
    DivModUnique(l.height * l.width, l.width, l.height, 0);
  }
}
