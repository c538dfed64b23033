/** The xterm palette of src/color.rs and the search for the closest palette entry. */
module Color {
  import opened Utf8

  datatype Rgb = Rgb(r: Byte, g: Byte, b: Byte)

  const ANSI_16: seq<Rgb> := [
    Rgb(0, 0, 0), Rgb(128, 0, 0), Rgb(0, 128, 0), Rgb(128, 128, 0),
    Rgb(0, 0, 128), Rgb(128, 0, 128), Rgb(0, 128, 128), Rgb(192, 192, 192),
    Rgb(128, 128, 128), Rgb(255, 0, 0), Rgb(0, 255, 0), Rgb(255, 255, 0),
    Rgb(0, 0, 255), Rgb(255, 0, 255), Rgb(0, 255, 255), Rgb(255, 255, 255)]

  function ColorCube(component: nat): Byte
    requires component < 6
  {
    if component == 0 then 0 else 55 + component * 40
  }

  function Xterm256ToRgb(index: Byte): Rgb {
    if index < 16 then ANSI_16[index]
    else if index < 232 then
      var value := index - 16;
      Rgb(ColorCube(value / 36), ColorCube(value % 36 / 6), ColorCube(value % 6))
    else
      var level := 8 + (index - 232) * 10;
      Rgb(level, level, level)
  }

  /** 0x80 or another level, where a bit is set. */
  function Bit(n: Byte, place: nat, level: Byte): Byte
    requires place > 0
  {
    if n / place % 2 == 1 then level else 0
  }

  /** The palette of xterm: two rows of eight colours by the bits of their number, but for the greys at 7 and
      8; a cube of six levels; a ramp of greys. */
  lemma PaletteIsXterm(i: Byte)
    ensures i < 7 ==> Xterm256ToRgb(i) == Rgb(Bit(i, 1, 128), Bit(i, 2, 128), Bit(i, 4, 128))
    ensures Xterm256ToRgb(7) == Rgb(192, 192, 192) && Xterm256ToRgb(8) == Rgb(128, 128, 128)
    ensures 9 <= i < 16 ==> Xterm256ToRgb(i) == Rgb(Bit(i, 1, 255), Bit(i, 2, 255), Bit(i, 4, 255))
    ensures 232 <= i ==> var grey := 10 * (i - 232) + 8; Xterm256ToRgb(i) == Rgb(grey, grey, grey)
  {
  }

  lemma CubeIsXterm(r: nat, g: nat, b: nat)
    requires r < 6 && g < 6 && b < 6
    ensures var level := [0, 95, 135, 175, 215, 255];
            Xterm256ToRgb(16 + 36 * r + 6 * g + b) == Rgb(level[r], level[g], level[b])
  {
    var value := 36 * r + 6 * g + b;
    assert value / 36 == r && value % 36 == 6 * g + b && value % 36 / 6 == g && value % 6 == b;
  }

  lemma ProductBound(m: nat, n: nat)
    requires m <= 255 && n <= 255
    ensures m * n <= 65025
    ensures m > 0 && n > 0 ==> m * n > 0
  {
    assert m * n <= 255 * n;
  }

  function Square(d: int): (s: nat)
    requires -255 <= d <= 255
    ensures s == 0 <==> d == 0
    ensures s <= 65025
  {
    var m := if d < 0 then -d else d;
    ProductBound(m, m);
    m * m
  }

  /** Never more than 195075, so the 32-bit arithmetic of the original does not wrap. */
  function ColorDistance(left: Rgb, right: Rgb): (d: nat)
    ensures d == 0 <==> left == right
    ensures d <= 195075
  {
    Square(left.r - right.r) + Square(left.g - right.g) + Square(left.b - right.b)
  }

  /** The squared Euclidean distance. */
  lemma DistanceIsEuclidean(left: Rgb, right: Rgb)
    ensures ColorDistance(left, right)
            == (left.r - right.r) * (left.r - right.r) + (left.g - right.g) * (left.g - right.g)
               + (left.b - right.b) * (left.b - right.b)
  {
    SquareIsProduct(left.r - right.r);
    SquareIsProduct(left.g - right.g);
    SquareIsProduct(left.b - right.b);
  }

  lemma SquareIsProduct(d: int)
    requires -255 <= d <= 255
    ensures Square(d) == d * d
  {
  }

  function Distance(rgb: Rgb, index: Byte): nat { ColorDistance(rgb, Xterm256ToRgb(index)) }

  /** The lowest of the first n palette indices at minimal distance. */
  ghost predicate IsNearestOf(rgb: Rgb, n: nat, best: nat)
    requires n <= 256
  {
    && best < n
    && (forall i: Byte | i < n :: Distance(rgb, best) <= Distance(rgb, i))
    && (forall i: Byte | i < best :: Distance(rgb, best) < Distance(rgb, i))
  }

  function NearestOf(rgb: Rgb, n: nat): Byte
    requires 1 <= n <= 256
  {
    if n == 1 then 0
    else
      var best := NearestOf(rgb, n - 1);
      if Distance(rgb, n - 1) < Distance(rgb, best) then n - 1 else best
  }

  /** The palette index a colour is downgraded to. */
  function Nearest(rgb: Rgb): Byte { NearestOf(rgb, 256) }

  lemma {:induction false} NearestOfIsNearest(rgb: Rgb, n: nat)
    requires 1 <= n <= 256
    ensures IsNearestOf(rgb, n, NearestOf(rgb, n))
  {
    if n > 1 {
      NearestOfIsNearest(rgb, n - 1);
    }
  }

  /** The replacement is the lowest palette index at minimal distance, and the only such index. */
  lemma NearestIsLowestClosest(rgb: Rgb, i: Byte)
    ensures IsNearestOf(rgb, 256, i) <==> i == Nearest(rgb)
  {
    NearestOfIsNearest(rgb, 256);
    if IsNearestOf(rgb, 256, i) {
      assert Distance(rgb, i) == Distance(rgb, Nearest(rgb));
    }
  }

  method RgbToXterm256(rgb: Rgb) returns (best: Byte)
    ensures best == Nearest(rgb)
  {
    best := 0;
    var bestDistance := 0xFFFF_FFFF;
    for index := 0 to 256
      invariant index == 0 ==> best == 0 && bestDistance == 0xFFFF_FFFF
      invariant index > 0 ==> best == NearestOf(rgb, index) && bestDistance == Distance(rgb, best)
    {
      var distance := Distance(rgb, index);
      if distance < bestDistance {
        best, bestDistance := index, distance;
      }
    }
  }

  /** A palette colour is downgraded to the first palette entry that shows it. */
  lemma FirstExactEntryIsNearest(rgb: Rgb, index: Byte)
    requires Xterm256ToRgb(index) == rgb && forall i: Byte | i < index :: Xterm256ToRgb(i) != rgb
    ensures Nearest(rgb) == index
  {
    NearestIsLowestClosest(rgb, index);
  }

  /** Palette colours are shown exactly, and quantising a quantised colour changes nothing. */
  lemma QuantisingIsIdempotent(rgb: Rgb, index: Byte)
    ensures Xterm256ToRgb(Nearest(Xterm256ToRgb(index))) == Xterm256ToRgb(index)
    ensures Nearest(Xterm256ToRgb(Nearest(rgb))) == Nearest(rgb)
  {
    NearestIsLowestClosest(Xterm256ToRgb(index), Nearest(Xterm256ToRgb(index)));
    NearestIsLowestClosest(rgb, Nearest(rgb));
    NearestIsLowestClosest(Xterm256ToRgb(Nearest(rgb)), Nearest(Xterm256ToRgb(Nearest(rgb))));
    assert Distance(Xterm256ToRgb(index), index) == 0;
    var best := Nearest(rgb);
    var again := Nearest(Xterm256ToRgb(best));
    assert Distance(Xterm256ToRgb(best), best) == 0;
    assert Xterm256ToRgb(again) == Xterm256ToRgb(best);
    assert Distance(rgb, again) == Distance(rgb, best);
  }
}
