/**
 * The map card: the status icon and colour looked up by status name with their
 * fallbacks, the mod-type label, the difficulty colours, and the cover link.
 */
module MapCard {
  import opened Common
  import ModeIcon
  import RequestPage

  datatype StatusGlyph =
    InfoCircleTwoTone | CloseCircleTwoTone | CheckCircleTwoTone | ProfileTwoTone | LikeTwoTone | HeartTwoTone

  /** `icons[status]`: the table's entry, when the status has one. */
  function IconsEntry(status: string): Option<StatusGlyph> {
    if status == "Pending" then Some(InfoCircleTwoTone)
    else if status == "Rejected" then Some(CloseCircleTwoTone)
    else if status == "Accepted" then Some(CheckCircleTwoTone)
    else if status == "Modded" then Some(ProfileTwoTone)
    else if status == "Nominated" then Some(LikeTwoTone)
    else if status == "Finished" then Some(LikeTwoTone)
    else if status == "Ranked" then Some(HeartTwoTone)
    else None
  }

  /** The status icon, falling back to the Pending icon for a status the table lacks. */
  function StatusIcon(status: string): StatusGlyph {
    IconsEntry(status).GetOr(InfoCircleTwoTone)
  }

  /** The seven statuses the icon table knows. */
  const IconStatuses: seq<string> := ["Pending", "Rejected", "Accepted", "Modded", "Nominated", "Finished", "Ranked"]

  /**
   * A status outside the table gets the Pending icon; Nominated and Finished share
   * the like icon; apart from those two, different statuses get different icons.
   */
  lemma StatusIconSpec(status: string, other: string)
    ensures status !in IconStatuses ==> StatusIcon(status) == InfoCircleTwoTone
    ensures StatusIcon(status) == InfoCircleTwoTone <==> status == "Pending" || status !in IconStatuses
    ensures StatusIcon("Nominated") == StatusIcon("Finished") == LikeTwoTone
    ensures status in IconStatuses && other in IconStatuses && status != other
            && StatusIcon(status) == StatusIcon(other) ==>
              {status, other} == {"Nominated", "Finished"}
  {
  }

  /** `colors[status]`: a two-tone colour for five statuses, none for any other. */
  function StatusColor(status: string): Option<string> {
    if status == "Pending" then Some("#aaaaaa")
    else if status == "Accepted" then Some("#52c41a")
    else if status == "Modded" then Some("#17bebb")
    else if status == "Rejected" then Some("#f8333c")
    else if status == "Ranked" then Some("#eb2f96")
    else None
  }

  lemma StatusColorSpec(status: string)
    ensures StatusColor(status).Some? <==> status in ["Pending", "Accepted", "Modded", "Rejected", "Ranked"]
    ensures StatusColor(status).Some? ==> IconsEntry(status).Some?
    ensures StatusColor("Nominated").None? && StatusColor("Finished").None?
  {
  }

  /** The mod-type badge: shown only with `showModType`, reading "M4M" or "NM". */
  function ModTypeLabel(showModType: bool, m4m: bool): Option<string> {
    if showModType then Some(if m4m then "M4M" else "NM") else None
  }

  lemma ModTypeLabelSpec(showModType: bool, m4m: bool)
    ensures ModTypeLabel(showModType, m4m).Some? <==> showModType
    ensures ModTypeLabel(showModType, m4m) == Some("M4M") <==> showModType && m4m
    ensures ModTypeLabel(showModType, m4m) == Some("NM") <==> showModType && !m4m
  {
  }

  /** The card's own copy of `getDiffColor`. */
  function GetDiffColor(rating: real): string {
    if rating < 2.0 then "#88b300"
    else if rating < 2.7 then "#66ccff"
    else if rating < 4.0 then "#ffcc22"
    else if rating < 5.3 then "#ff66aa"
    else if rating < 6.5 then "#aa88ff"
    else "#121415"
  }

  /** The card's difficulty colours agree with the mode icon's, band by band. */
  lemma DiffColorAgrees(rating: real)
    ensures GetDiffColor(rating) == ModeIcon.GetDiffColor(rating)
    ensures GetDiffColor(rating) == ModeIcon.Palette[ModeIcon.Band(rating)]
  {
    ModeIcon.DiffColorBands(rating);
  }

  /** `diffIcons[mode]`, the card's copy of the mode icon table. */
  function DiffIcon(mode: string): Option<ModeIcon.ModeGlyph> {
    if mode == "Standard" then Some(ModeIcon.StandardIcon)
    else if mode == "Taiko" then Some(ModeIcon.TaikoIcon)
    else if mode == "Catch the Beat" then Some(ModeIcon.CatchIcon)
    else if mode == "Mania" then Some(ModeIcon.ManiaIcon)
    else None
  }

  lemma DiffIconAgrees(mode: string)
    ensures DiffIcon(mode) == ModeIcon.IconFor(mode)
    ensures DiffIcon(mode).Some? <==> mode in ModeIcon.Modes
  {
    ModeIcon.IconForSpec(mode, mode);
  }

  const CoverPrefix: string := "https://osu.ppy.sh/b/"

  /** The link around the cover image. */
  function CoverHref(mapId: nat): string {
    CoverPrefix + Decimal(mapId)
  }

  /** The cover link has no line break, and its only occurrence of the link pattern is its host. */
  lemma CoverHrefShape(mapId: nat)
    ensures var s := CoverHref(mapId);
      && |s| > 21
      && (forall k :: 0 <= k < |s| ==> !RequestPage.IsLineTerminator(s[k]))
      && RequestPage.OccursAt(s, 8) && RequestPage.PathEnd(s, 8) == Some(21)
      && (forall q: nat :: q != 8 ==> !RequestPage.OccursAt(s, q))
      && s[21..] == Decimal(mapId) && RequestPage.DigitsEnd(s, 21) == |s|
  {
    var d := Decimal(mapId);
    var s := CoverHref(mapId);
    assert s[..8] == "https://" && s[8..19] == "osu.ppy.sh/" && s[19..21] == "b/";
    assert forall k :: 21 <= k < |s| ==> s[k] == d[k - 21];
    assert RequestPage.PathEnd(s, 8) == Some(21);
    forall q: nat | q != 8 ensures !RequestPage.OccursAt(s, q) {
      if q < |s| {
        assert s[q] != 'o';
        RequestPage.HasAtHead(s, q, "osu.ppy.sh/");
        RequestPage.HasAtHead(s, q, "old.ppy.sh/");
      }
    }
    assert s[21..] == d;
  }

  /** The cover link is itself a link the request page accepts, naming the same map. */
  lemma CoverHrefParses(mapId: nat)
    ensures RequestPage.ParseLink(CoverHref(mapId)) == Some(Decimal(mapId))
  {
    var s := CoverHref(mapId);
    CoverHrefShape(mapId);
    RequestPage.ParseLinkLastOccurrence(s);
    var q: nat :| && RequestPage.OccursAt(s, q)
                  && RequestPage.ParseLink(s)
                     == Some(s[RequestPage.PathEnd(s, q).value..RequestPage.DigitsEnd(s, RequestPage.PathEnd(s, q).value)]);
    assert q == 8;
    assert s[21..|s|] == s[21..];
  }
}
