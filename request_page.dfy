/**
 * The request page: the beatmap-link pattern (any text on the line, the osu or old host,
 * a b, s or beatmapsets path, and the id digits) matched by `exec` from the start of the
 * link, and the state steps of `onFinish` around the post.
 */
module RequestPage {
  import opened Common

  // ---------------------------------------------------------------- the link pattern

  /** The characters `.` does not match. */
  predicate IsLineTerminator(c: char) {
    c == '\n' || c == '\r' || c as int == 0x2028 || c as int == 0x2029
  }

  predicate HasAt(s: string, q: nat, lit: string) {
    q + |lit| <= |s| && s[q..q + |lit|] == lit
  }

  /** Where the id digits begin when the host and path part of the pattern starts at `q`. */
  function PathEnd(s: string, q: nat): Option<nat> {
    if !(HasAt(s, q, "osu.ppy.sh/") || HasAt(s, q, "old.ppy.sh/")) then None
    else if HasAt(s, q + 11, "b/") || HasAt(s, q + 11, "s/") then Some(q + 13)
    else if HasAt(s, q + 11, "beatmapsets/") then Some(q + 23)
    else None
  }

  /** The pattern's core, with at least one digit, occurs at `q`. */
  predicate OccursAt(s: string, q: nat) {
    var e := PathEnd(s, q);
    e.Some? && e.value < |s| && IsDigit(s[e.value])
  }

  /** The end of the longest digit run starting at `i`. */
  function DigitsEnd(s: string, i: nat): (j: nat)
    requires i <= |s|
    ensures i <= j <= |s|
    ensures forall k :: i <= k < j ==> IsDigit(s[k])
    ensures j < |s| ==> !IsDigit(s[j])
    decreases |s| - i
  {
    if i < |s| && IsDigit(s[i]) then DigitsEnd(s, i + 1) else i
  }

  /** How far the leading `.*` can reach from `p`: up to the first line terminator. */
  function Reach(s: string, p: nat): (r: nat)
    requires p <= |s|
    ensures p <= r <= |s|
    ensures forall k :: p <= k < r ==> !IsLineTerminator(s[k])
    ensures r < |s| ==> IsLineTerminator(s[r])
    decreases |s| - p
  {
    if p < |s| && !IsLineTerminator(s[p]) then Reach(s, p + 1) else p
  }

  /**
   * The greedy `.*` gives back one character at a time, so the core is tried at
   * `hi`, `hi - 1`, ..., `lo`: the last occurrence in that range wins.
   */
  function LastOccurrence(s: string, lo: nat, hi: nat): (r: Option<nat>)
    requires lo <= hi
    ensures r.Some? ==> lo <= r.value <= hi && OccursAt(s, r.value)
                        && forall q :: r.value < q <= hi ==> !OccursAt(s, q)
    ensures r.None? ==> forall q :: lo <= q <= hi ==> !OccursAt(s, q)
    decreases hi - lo
  {
    if OccursAt(s, hi) then Some(hi)
    else if hi == lo then None
    else LastOccurrence(s, lo, hi - 1)
  }

  /** `exec` tries the start positions `p`, `p + 1`, ... in turn. */
  function ExecFrom(s: string, p: nat): (r: Option<nat>)
    requires p <= |s|
    ensures r.Some? ==> p <= r.value && OccursAt(s, r.value)
    decreases |s| - p
  {
    match LastOccurrence(s, p, Reach(s, p))
    case Some(q) => Some(q)
    case None => if p < |s| then ExecFrom(s, p + 1) else None
  }

  /** `match[3]`: the id the link names, or `None` when the pattern does not match. */
  function ParseLink(link: string): Option<string> {
    match ExecFrom(link, 0)
    case None => None
    case Some(q) =>
      var start := PathEnd(link, q).value;
      Some(link[start..DigitsEnd(link, start)])
  }

  /** The id is a non-empty run of digits, so the `!match[3]` test never fires on a match. */
  lemma ParseLinkDigits(link: string)
    ensures ParseLink(link).Some? ==> |ParseLink(link).value| >= 1 && AllDigits(ParseLink(link).value)
  {
  }

  /** An occurrence at `q` is found from any start at or before it. */
  lemma {:induction false} ExecFindsOccurrence(s: string, p: nat, q: nat)
    requires p <= q < |s| && OccursAt(s, q)
    ensures ExecFrom(s, p).Some?
    decreases q - p
  {
    var r := Reach(s, p);
    if LastOccurrence(s, p, r).None? {
      assert r < q;
      ExecFindsOccurrence(s, p + 1, q);
    }
  }

  /** A link is accepted exactly when the pattern's core occurs somewhere in it. */
  lemma ParseLinkIff(link: string)
    ensures ParseLink(link).Some? <==> exists q: nat :: OccursAt(link, q)
  {
    if q: nat :| OccursAt(link, q) {
      assert q < PathEnd(link, q).value < |link|;
      ExecFindsOccurrence(link, 0, q);
    }
  }

  /** On a link without line breaks the id is taken from the last occurrence. */
  lemma ParseLinkLastOccurrence(link: string)
    requires forall k :: 0 <= k < |link| ==> !IsLineTerminator(link[k])
    requires exists q: nat :: OccursAt(link, q)
    ensures exists q: nat ::
      && OccursAt(link, q)
      && (forall q': nat :: q < q' ==> !OccursAt(link, q'))
      && ParseLink(link) == Some(link[PathEnd(link, q).value..DigitsEnd(link, PathEnd(link, q).value)])
  {
    var q0: nat :| OccursAt(link, q0);
    assert q0 < PathEnd(link, q0).value < |link|;
    assert Reach(link, 0) == |link|;
    var r := LastOccurrence(link, 0, |link|);
    assert r.Some?;
    var q := r.value;
    forall q': nat | q < q' ensures !OccursAt(link, q') {
      if q' <= |link| {
      } else {
        assert PathEnd(link, q').None?;
      }
    }
  }

  lemma HasAtHead(s: string, q: nat, lit: string)
    requires q < |s| && |lit| > 0
    ensures HasAt(s, q, lit) ==> s[q] == lit[0]
  {
    if HasAt(s, q, lit) {
      assert s[q..q + |lit|][0] == s[q];
    }
  }

  /** Only the earlier of two links on separate lines is read. */
  lemma ParseLinkFirstLine()
    ensures ParseLink("osu.ppy.sh/b/1\nosu.ppy.sh/b/2") == Some("1")
  {
    var host, path := "osu.ppy.sh/", "b/";
    var s := host + path + "1" + "\n" + host + path + "2";
    assert s == "osu.ppy.sh/b/1\nosu.ppy.sh/b/2";
    assert s[0..11] == host && s[11..13] == path;
    assert Reach(s, 0) == 14 by {
      assert forall k :: 0 <= k < 14 ==> !IsLineTerminator(s[k]);
      assert IsLineTerminator(s[14]);
    }
    assert HasAt(s, 0, "osu.ppy.sh/") && HasAt(s, 11, "b/");
    assert OccursAt(s, 0);
    forall q | 0 < q <= 14 ensures !OccursAt(s, q) {
      assert s[q] != 'o';
      HasAtHead(s, q, host);
      HasAtHead(s, q, "old.ppy.sh/");
    }
    assert LastOccurrence(s, 0, 14) == Some(0);
    assert DigitsEnd(s, 13) == 14;
    assert s[13..14] == "1";
  }

  // ---------------------------------------------------------------- onFinish

  /** What the page does that can be seen: state updates, the post, and error toasts. */
  datatype Event<M> = SetLoading(on: bool) | Post(id: string) | SetMap(beatmap: M) | Toast(msg: Option<string>)

  /** How the post settles: with the map, or throwing a body whose `msg` field may be absent. */
  datatype PostOutcome<M> = Answered(beatmap: M) | Failed(msg: Option<string>)

  const InvalidLink: string := "Invalid beatmap link"

  /** Everything one submission of `link` does, in order, given how the post settles. */
  function OnFinishEffects<M>(link: string, outcome: PostOutcome<M>): seq<Event<M>> {
    match ParseLink(link)
    case None => [Toast(Some(InvalidLink))]
    case Some(id) =>
      [SetLoading(true), Post(id)]
      + (match outcome case Answered(m) => [SetMap(m)] case Failed(msg) => [Toast(msg)])
      + [SetLoading(false)]
  }

  /**
   * A submission posts iff the link matches, and then exactly once, with the parsed id;
   * otherwise its only effect is the "Invalid beatmap link" toast.
   */
  lemma PostIffMatch<M>(link: string, outcome: PostOutcome<M>)
    ensures var e := OnFinishEffects(link, outcome);
      && (ParseLink(link).None? ==> e == [Toast(Some(InvalidLink))])
      && (ParseLink(link).Some? <==> exists i :: 0 <= i < |e| && e[i].Post?)
      && (forall i, j :: 0 <= i < j < |e| && e[i].Post? ==> !e[j].Post?)
      && (forall i :: 0 <= i < |e| && e[i].Post? ==> Some(e[i].id) == ParseLink(link))
  {
    var e := OnFinishEffects(link, outcome);
    if ParseLink(link).Some? {
      assert |e| == 4 && e[1] == Post(ParseLink(link).value);
      assert !e[0].Post? && !e[2].Post? && !e[3].Post?;
    }
  }

  /**
   * Around the post `loading` is set true first and false last, whether the post
   * succeeds or fails; the beatmap is set only on success.
   */
  lemma LoadingBracketsPost<M>(link: string, outcome: PostOutcome<M>)
    requires ParseLink(link).Some?
    ensures var e := OnFinishEffects(link, outcome);
      && |e| == 4 && e[0] == SetLoading(true) && e[1].Post? && e[3] == SetLoading(false)
      && ((exists i :: 0 <= i < |e| && e[i].SetMap?) <==> outcome.Answered?)
  {
    var e := OnFinishEffects(link, outcome);
    assert !e[0].SetMap? && !e[1].SetMap? && !e[3].SetMap?;
    assert e[2].SetMap? <==> outcome.Answered?;
  }

  /** The component's state; `events` records what the user and the server observe. */
  class RequestForm<M> {
    var loading: bool
    var beatmap: Option<M>
    ghost var events: seq<Event<M>>

    constructor ()
      ensures !loading && beatmap == None && events == []
    {
      loading := false;
      beatmap := None;
      events := [];
    }

    /** `onFinish`: match the link, then post and update the state around the post. */
    method OnFinish(link: string, outcome: PostOutcome<M>)
      modifies this
      ensures events == old(events) + OnFinishEffects(link, outcome)
      ensures ParseLink(link).None? ==> loading == old(loading) && beatmap == old(beatmap)
      ensures ParseLink(link).Some? ==> !loading
      ensures beatmap == if ParseLink(link).Some? && outcome.Answered? then Some(outcome.beatmap) else old(beatmap)
    {
      var id := ParseLink(link);
      if id.None? {
        events := events + [Toast(Some(InvalidLink))];
        return;
      }
      loading := true;
      events := events + [SetLoading(true)];
      events := events + [Post(id.value)];
      match outcome {
        case Answered(m) =>
          beatmap := Some(m);
          events := events + [SetMap(m)];
        case Failed(msg) =>
          events := events + [Toast(msg)];
      }
      loading := false;
      events := events + [SetLoading(false)];
    }
  }
}
