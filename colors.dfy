/** The sixteen text-mode colours of the display driver and their 4-bit
    numeric values. */
module Colors {

  /** One of the sixteen named hues a cell's foreground or background can take. */
  datatype Color =
    | Black | Blue | Green | Cyan
    | Red | Magenta | Brown | LightGray
    | DarkGray | LightBlue | LightGreen | LightCyan
    | LightRed | Pink | Yellow | White

  /** The fixed integer each colour stands for; always a 4-bit value. */
  function ColorValue(c: Color): (v: nat)
    ensures v < 16
  {
    match c
    case Black => 0
    case Blue => 1
    case Green => 2
    case Cyan => 3
    case Red => 4
    case Magenta => 5
    case Brown => 6
    case LightGray => 7
    case DarkGray => 8
    case LightBlue => 9
    case LightGreen => 10
    case LightCyan => 11
    case LightRed => 12
    case Pink => 13
    case Yellow => 14
    case White => 15
  }

  /** The colour whose value is `n`: every 4-bit value names exactly one colour. */
  function ColorOf(n: nat): (c: Color)
    requires n < 16
    ensures ColorValue(c) == n
  {
    if n == 0 then Black
    else if n == 1 then Blue
    else if n == 2 then Green
    else if n == 3 then Cyan
    else if n == 4 then Red
    else if n == 5 then Magenta
    else if n == 6 then Brown
    else if n == 7 then LightGray
    else if n == 8 then DarkGray
    else if n == 9 then LightBlue
    else if n == 10 then LightGreen
    else if n == 11 then LightCyan
    else if n == 12 then LightRed
    else if n == 13 then Pink
    else if n == 14 then Yellow
    else White
  }

  /** ColorOf undoes ColorValue. */
  lemma ColorOfValue(c: Color)
    ensures ColorOf(ColorValue(c)) == c
  {
  }

  /** Distinct colours have distinct values. */
  lemma ColorValueInjective(a: Color, b: Color)
    ensures ColorValue(a) == ColorValue(b) ==> a == b
  {
  }

  /** The colours listed in the order of their values. */
  const AllColors: seq<Color> :=
    [Black, Blue, Green, Cyan, Red, Magenta, Brown, LightGray,
     DarkGray, LightBlue, LightGreen, LightCyan, LightRed, Pink, Yellow, White]

  /** There are exactly sixteen colours, and the i-th one has value i, so the
      values 0..15 are all taken, each by one colour. */
  lemma AllColorsEnumerated()
    ensures |AllColors| == 16
    ensures forall i :: 0 <= i < 16 ==> ColorValue(AllColors[i]) == i
    ensures forall c: Color :: c in AllColors
  {
    forall c: Color ensures c in AllColors {
      ColorOfValue(c);
      assert AllColors[ColorValue(c)] == c;
    }
  }

  /** The two colours the writer's defaults are built from. */
  lemma DefaultHues()
    ensures ColorValue(Black) == 0 && ColorValue(White) == 15
  {
  }
}
