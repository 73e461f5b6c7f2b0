/**
 * The immutability section of session1/example2.js: rateColor and addColor,
 * first as functions that mutate their argument, then as functions that
 * return a new value and leave the argument alone.
 */
module Immutability {

  /** A color record such as color_lawn. */
  datatype Color = Color(title: string, color: string, rating: int)

  /** An entry of the color list: `{ title }`. */
  datatype Swatch = Swatch(title: string)

  /** rateColor = (color, rating) => ({...color, rating}): a copy with the new rating. */
  function RateColor(c: Color, rating: int): (r: Color)
    ensures r.rating == rating
    ensures r.title == c.title && r.color == c.color
  {
    c.(rating := rating)
  }

  /** Rating twice keeps only the last rating. */
  lemma RateColorOverrides(c: Color, first: int, second: int)
    ensures RateColor(RateColor(c, first), second) == RateColor(c, second)
    ensures RateColor(c, c.rating) == c
  {
  }

  /** addColor = (title, list) => [...list, { title }]: a new list one entry longer. */
  function AddColor(title: string, list: seq<Swatch>): (r: seq<Swatch>)
    ensures |r| == |list| + 1
    ensures r[..|list|] == list && r[|list|] == Swatch(title)
  {
    list + [Swatch(title)]
  }

  /** addColor("Glam Green", list) has 4 entries while list keeps its 3. */
  lemma AddColorExample()
    ensures var list := [Swatch("Rad Red"), Swatch("Lawn"), Swatch("Party Pink")];
      |AddColor("Glam Green", list)| == 4 && |list| == 3
  {
  }

  // ------------------------------------------------------------------
  // The mutating versions
  // ------------------------------------------------------------------

  /** A color object the first rateColor writes into. */
  class ColorObject {
    var title: string
    var color: string
    var rating: int

    constructor (title: string, color: string, rating: int)
      ensures this.title == title && this.color == color && this.rating == rating
    {
      this.title := title;
      this.color := color;
      this.rating := rating;
    }

    /** The record the object currently holds. */
    function Value(): Color
      reads this
    {
      Color(title, color, rating)
    }
  }

  /**
   * function rateColor(color, rating) { color.rating = rating; return color }:
   * the caller's object itself changes, as the pure RateColor would describe.
   */
  method RateColorInPlace(c: ColorObject, rating: int) returns (r: ColorObject)
    modifies c
    ensures r == c
    ensures c.Value() == RateColor(old(c.Value()), rating)
  {
    c.rating := rating;
    r := c;
  }

  /** A JavaScript array the first addColor pushes onto. */
  class ColorList {
    var items: seq<Swatch>

    constructor (items: seq<Swatch>)
      ensures this.items == items
    {
      this.items := items;
    }
  }

  /** colors.push({ title }); return colors: the caller's list itself grows. */
  method AddColorInPlace(title: string, colors: ColorList) returns (r: ColorList)
    modifies colors
    ensures r == colors
    ensures colors.items == AddColor(title, old(colors.items))
  {
    colors.items := colors.items + [Swatch(title)];
    r := colors;
  }

  /**
   * The contrast the section draws: after the mutating rateColor the original
   * object reads 5; the pure one, applied to a fresh color_lawn rated 0,
   * leaves that record at 0.
   */
  method ColorLawnRatings() returns (mutatedOriginal: int, pureOriginal: int, pureResult: int)
    ensures mutatedOriginal == 5 && pureOriginal == 0 && pureResult == 5
  {
    var lawn := new ColorObject("lawn", "#00FF00", 0);
    var rated := RateColorInPlace(lawn, 5);
    mutatedOriginal := lawn.rating;
    var lawnValue := Color("lawn", "#00FF00", 0);
    pureResult := RateColor(lawnValue, 5).rating;
    pureOriginal := lawnValue.rating;
  }
}
