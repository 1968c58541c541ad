/**
 * The game-mode icon: which glyph a mode string selects, the difficulty colour of a
 * star rating, and the style defaults of the icon.
 */
module ModeIcon {
  import opened Common

  datatype ModeGlyph = StandardIcon | TaikoIcon | CatchIcon | ManiaIcon

  /** The mode strings the osu! API returns, each with its glyph. */
  const Modes: seq<string> := ["Standard", "Taiko", "Catch the Beat", "Mania"]

  /** `iconMap[mode]`: a glyph for the four API mode strings, nothing for any other. */
  function IconFor(mode: string): Option<ModeGlyph> {
    if mode == "Standard" then Some(StandardIcon)
    else if mode == "Taiko" then Some(TaikoIcon)
    else if mode == "Catch the Beat" then Some(CatchIcon)
    else if mode == "Mania" then Some(ManiaIcon)
    else None
  }

  /** An icon exists exactly for the four modes, and no two modes share one. */
  lemma IconForSpec(mode: string, other: string)
    ensures IconFor(mode).Some? <==> mode in Modes
    ensures IconFor(mode).Some? && IconFor(mode) == IconFor(other) ==> mode == other
  {
  }

  /** The lower bounds of the colour bands above the first. */
  const Thresholds: seq<real> := [2.0, 2.7, 4.0, 5.3, 6.5]

  /** The colour of each band, lowest first. */
  const Palette: seq<string> := ["#88b300", "#66ccff", "#ffcc22", "#ff66aa", "#aa88ff", "#121415"]

  /** How many thresholds lie at or below `rating`. */
  function CountAtMost(ts: seq<real>, rating: real): (n: nat)
    ensures n <= |ts|
  {
    if ts == [] then 0 else (if ts[0] <= rating then 1 else 0) + CountAtMost(ts[1..], rating)
  }

  /** The colour band of a rating: 0 below 2, up to 5 from 6.5. */
  function Band(rating: real): (b: nat)
    ensures b < |Palette|
  {
    CountAtMost(Thresholds, rating)
  }

  /** `getDiffColor`: the first band whose upper bound the rating is below. */
  function GetDiffColor(rating: real): string {
    if rating < 2.0 then "#88b300"
    else if rating < 2.7 then "#66ccff"
    else if rating < 4.0 then "#ffcc22"
    else if rating < 5.3 then "#ff66aa"
    else if rating < 6.5 then "#aa88ff"
    else "#121415"
  }

  /** Every rating gets the colour of its band, the half-open interval it falls in. */
  lemma DiffColorBands(rating: real)
    ensures GetDiffColor(rating) == Palette[Band(rating)]
    ensures Band(rating) == 0 <==> rating < 2.0
    ensures 0 < Band(rating) ==> Thresholds[Band(rating) - 1] <= rating
    ensures Band(rating) < |Thresholds| ==> rating < Thresholds[Band(rating)]
  {
    var t := Thresholds;
    var c := (x: real) => if x <= rating then 1 else 0;
    assert t[1..][1..][1..][1..][1..] == [];
    assert CountAtMost(t[1..][1..][1..][1..], rating) == c(6.5);
    assert CountAtMost(t[1..][1..][1..], rating) == c(5.3) + c(6.5);
    assert CountAtMost(t[1..][1..], rating) == c(4.0) + c(5.3) + c(6.5);
    assert CountAtMost(t[1..], rating) == c(2.7) + c(4.0) + c(5.3) + c(6.5);
    assert Band(rating) == c(2.0) + c(2.7) + c(4.0) + c(5.3) + c(6.5);
  }

  /** The six colours are distinct, so the colour names the band. */
  lemma PaletteDistinct()
    ensures forall i, j :: 0 <= i < j < |Palette| ==> Palette[i] != Palette[j]
  {
  }

  lemma {:induction false} CountAtMostMonotone(ts: seq<real>, r1: real, r2: real)
    requires r1 <= r2
    ensures CountAtMost(ts, r1) <= CountAtMost(ts, r2)
  {
    if ts != [] {
      CountAtMostMonotone(ts[1..], r1, r2);
    }
  }

  /** A higher rating never falls in a lower band. */
  lemma BandMonotone(r1: real, r2: real)
    requires r1 <= r2
    ensures Band(r1) <= Band(r2)
  {
    CountAtMostMonotone(Thresholds, r1, r2);
  }

  datatype IconStyle = IconStyle(color: string, fontSize: real, padding: real)

  /**
   * The icon's style: colour "inherit" without a rating (a `null` rating compares
   * as 0), and font size 24 and padding 5 unless given (a given 0 is kept).
   */
  function Style(sr: Nullable<real>, size: Nullable<real>, padding: Nullable<real>): IconStyle {
    IconStyle(
      match sr case Undefined => "inherit" case Null => GetDiffColor(0.0) case Value(r) => GetDiffColor(r),
      size.OrDefault(24.0),
      padding.OrDefault(5.0))
  }

  lemma StyleSpec(sr: Nullable<real>, size: Nullable<real>, padding: Nullable<real>)
    ensures var st := Style(sr, size, padding);
      && (st.color == "inherit" <==> sr.Undefined?)
      && (sr.Null? ==> st.color == "#88b300")
      && (sr.Value? ==> st.color == GetDiffColor(sr.value) == Palette[Band(sr.value)])
      && (st.fontSize == if size.Value? then size.value else 24.0)
      && (st.padding == if padding.Value? then padding.value else 5.0)
  {
    match sr {
      case Value(r) => DiffColorBands(r);
      case _ =>
    }
  }
}
