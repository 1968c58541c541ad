/**
 * The `POST /api/request` handler: normalise the osu! API's beatmap rows into a
 * map record, run every admission check of the Taiko-nominator policy, and store
 * a new Request only when no check failed.
 */
module Admission {
  import opened Common

  // ---------------------------------------------------------------- formatTime

  /** `formatTime`: a length in seconds as `m:ss`. */
  function FormatTime(time: nat): string {
    Decimal(time / 60) + ":" + (if time % 60 < 10 then "0" else "") + Decimal(time % 60)
  }

  /** Reads `m:ss` back: the minutes before the last colon, two digits below 60 after it. */
  function ParseTime(s: string): Option<nat> {
    if |s| < 4 || s[|s| - 3] != ':' then None
    else
      var m, ss := s[..|s| - 3], s[|s| - 2..];
      if AllDigits(m) && AllDigits(ss) && ParseDecimal(ss) < 60
      then Some(ParseDecimal(m) * 60 + ParseDecimal(ss))
      else None
  }

  /** The zero-padded seconds are two digits with the value of the seconds. */
  lemma PaddedSeconds(sec: nat)
    requires sec < 60
    ensures var ss := (if sec < 10 then "0" else "") + Decimal(sec);
      |ss| == 2 && AllDigits(ss) && ParseDecimal(ss) == sec
  {
    var ss := (if sec < 10 then "0" else "") + Decimal(sec);
    ParseDecimalOfDecimal(sec);
    if sec < 10 {
      assert ss[..1] == "0" && ss[1] == Decimal(sec)[0];
      assert ParseDecimal(ss) == ParseDecimal(ss[..1]) * 10 + DigitValue(ss[1]);
    } else {
      assert ss == Decimal(sec);
    }
  }

  /** The seconds field is two digits below 60 and `m * 60 + ss` is the input. */
  lemma FormatTimeShape(time: nat)
    ensures var s := FormatTime(time);
      |s| >= 4 && s[|s| - 3] == ':' && AllDigits(s[..|s| - 3]) && AllDigits(s[|s| - 2..])
      && ParseDecimal(s[..|s| - 3]) == time / 60
      && ParseDecimal(s[|s| - 2..]) == time % 60 < 60
  {
    var m, sec := Decimal(time / 60), time % 60;
    var ss := (if sec < 10 then "0" else "") + Decimal(sec);
    PaddedSeconds(sec);
    ParseDecimalOfDecimal(time / 60);
    var s := FormatTime(time);
    assert s == m + ":" + ss;
    assert s[..|s| - 3] == m;
    assert s[|s| - 2..] == ss;
  }

  /** `formatTime` round-trips: its output is parsed back to the same number of seconds. */
  lemma FormatTimeRoundTrip(time: nat)
    ensures ParseTime(FormatTime(time)) == Some(time)
  {
    FormatTimeShape(time);
  }

  // ---------------------------------------------------------------- the map record

  /** One difficulty row as the osu! API returns it for a mapset (the fields the handler reads). */
  datatype BeatmapRow = BeatmapRow(
    id: int, title: string, artist: string, creator: string, bpm: real,
    lengthTotal: nat, version: string, mode: string, rating: real,
    approvalStatus: string, beatmapSetId: string)

  datatype Diff = Diff(name: string, mode: string, sr: real)

  /** The `map` object the handler builds and answers with. */
  datatype MapRecord = MapRecord(
    mapId: int, title: string, artist: string, creator: string, bpm: real,
    length: string, comment: string, m4m: bool, diffs: seq<Diff>,
    status: string, image: string)

  function ToDiff(row: BeatmapRow): Diff {
    Diff(row.version, row.mode, row.rating)
  }

  function ToDiffs(rows: seq<BeatmapRow>): (ds: seq<Diff>)
    ensures |ds| == |rows|
    ensures forall i :: 0 <= i < |rows| ==> ds[i] == ToDiff(rows[i])
  {
    if rows == [] then [] else [ToDiff(rows[0])] + ToDiffs(rows[1..])
  }

  predicate SortedBySr(ds: seq<Diff>) {
    forall i, j :: 0 <= i < j < |ds| ==> ds[i].sr <= ds[j].sr
  }

  /** A difficulty rated no higher than every one of a sorted list can go in front. */
  lemma SortedCons(x: Diff, ds: seq<Diff>)
    requires SortedBySr(ds)
    requires forall k :: 0 <= k < |ds| ==> x.sr <= ds[k].sr
    ensures SortedBySr([x] + ds)
  {
    var r := [x] + ds;
    assert forall k :: 1 <= k < |r| ==> r[k] == ds[k - 1];
  }

  /** Places `d` before the first difficulty rated at least as high (so the sort is stable). */
  function InsertBySr(d: Diff, ds: seq<Diff>): (r: seq<Diff>)
    requires SortedBySr(ds)
    ensures SortedBySr(r)
    ensures multiset(r) == multiset(ds) + multiset{d}
    ensures forall k :: 0 <= k < |r| ==> r[k] == d || r[k] in ds
  {
    if ds == [] || d.sr <= ds[0].sr then
      SortedCons(d, ds);
      [d] + ds
    else
      var rest := InsertBySr(d, ds[1..]);
      assert ds == [ds[0]] + ds[1..];
      assert forall k :: 0 <= k < |rest| ==> rest[k] == d || rest[k] in ds[1..];
      SortedCons(ds[0], rest);
      [ds[0]] + rest
  }

  /** The difficulties sorted by ascending star rating. */
  function SortBySr(ds: seq<Diff>): (r: seq<Diff>)
    ensures SortedBySr(r)
    ensures multiset(r) == multiset(ds)
    ensures |r| == |ds|
  {
    if ds == [] then []
    else
      assert ds == [ds[0]] + ds[1..];
      var r := InsertBySr(ds[0], SortBySr(ds[1..]));
      assert |r| == |multiset(r)| == |multiset(ds)| == |ds|;
      r
  }

  /** The normalised record; `rows[0]` supplies the mapset-wide fields. */
  function Normalise(rows: seq<BeatmapRow>, comment: Option<string>, m4m: Option<bool>): MapRecord
    requires |rows| > 0
  {
    var first := rows[0];
    MapRecord(
      first.id, first.title, first.artist, first.creator, first.bpm,
      FormatTime(first.lengthTotal),
      comment.GetOr(""), m4m.GetOr(false),
      SortBySr(ToDiffs(rows)),
      first.approvalStatus,
      "https://assets.ppy.sh/beatmaps/" + first.beatmapSetId + "/covers/cover.jpg")
  }

  /** One diff per provider row, sorted by rating; absent comment and m4m take their defaults. */
  lemma NormaliseSpec(rows: seq<BeatmapRow>, comment: Option<string>, m4m: Option<bool>)
    requires |rows| > 0
    ensures var rec := Normalise(rows, comment, m4m);
      && |rec.diffs| == |rows|
      && SortedBySr(rec.diffs)
      && multiset(rec.diffs) == multiset(ToDiffs(rows))
      && rec.comment == (if comment.Some? then comment.value else "")
      && rec.m4m == (m4m == Some(true))
      && ParseTime(rec.length) == Some(rows[0].lengthTotal)
  {
    FormatTimeRoundTrip(rows[0].lengthTotal);
  }

  // ---------------------------------------------------------------- the checks

  const MaxCommentLength := 500
  const MinWait: int := 14 * Day

  /** One entry of the `errors` array, in the order the handler can push them. */
  datatype AdmissionError =
    | InvalidBeatmapId
    | NotTaiko
    | HybridSet
    | NotPending(status: string)
    | NotOwnMap
    | CommentTooLong
    | OnCooldown(remaining: int)

  function Taikos(ds: seq<Diff>): (r: seq<Diff>)
    ensures |r| <= |ds|
    ensures forall d :: d in r <==> d in ds && d.mode == "Taiko"
    ensures |r| == |ds| <==> forall i :: 0 <= i < |ds| ==> ds[i].mode == "Taiko"
  {
    if ds == [] then []
    else if ds[0].mode == "Taiko" then [ds[0]] + Taikos(ds[1..])
    else
      assert ds[0] !in Taikos(ds[1..]);
      Taikos(ds[1..])
  }

  /** The remaining wait in days, rounded to hundredths (halves up), counted in hundredths of a day. */
  function WaitHundredths(remaining: int): int {
    (2 * remaining + Day / 100) / (2 * Day / 100)
  }

  /** The rounded wait is the hundredth of a day nearest to the exact remaining time. */
  lemma WaitHundredthsNearest(remaining: int)
    ensures var k := WaitHundredths(remaining);
      k * (2 * Day / 100) <= 2 * remaining + Day / 100 < (k + 1) * (2 * Day / 100)
  {
  }

  /** `String(k / 100)` for a count of hundredths: trailing zeros of the fraction dropped. */
  function Hundredths(k: nat): string {
    var whole, frac := k / 100, k % 100;
    Decimal(whole)
      + (if frac == 0 then ""
         else if frac % 10 == 0 then "." + [DigitChar(frac / 10)]
         else "." + [DigitChar(frac / 10), DigitChar(frac % 10)])
  }

  /**
   * Reads a number of days back into hundredths: digits, then optionally a point and
   * one or two digits.
   */
  function ReadHundredths(s: string): Option<nat> {
    if |s| >= 1 && AllDigits(s) then Some(ParseDecimal(s) * 100)
    else if |s| >= 3 && s[|s| - 2] == '.' && AllDigits(s[..|s| - 2]) && IsDigit(s[|s| - 1])
    then Some(ParseDecimal(s[..|s| - 2]) * 100 + DigitValue(s[|s| - 1]) * 10)
    else if |s| >= 4 && s[|s| - 3] == '.' && AllDigits(s[..|s| - 3]) && IsDigit(s[|s| - 2]) && IsDigit(s[|s| - 1])
    then Some(ParseDecimal(s[..|s| - 3]) * 100 + DigitValue(s[|s| - 2]) * 10 + DigitValue(s[|s| - 1]))
    else None
  }

  /** Whole days and one decimal read back as hundredths. */
  lemma ReadOneDecimal(d: string, c: char)
    requires |d| >= 1 && AllDigits(d) && IsDigit(c)
    ensures ReadHundredths(d + ['.', c]) == Some(ParseDecimal(d) * 100 + DigitValue(c) * 10)
  {
    var s := d + ['.', c];
    assert !AllDigits(s) by {
      assert !IsDigit(s[|d|]);
    }
    assert s[|s| - 2] == '.' && s[|s| - 1] == c;
    assert s[..|s| - 2] == d;
    assert AllDigits(s[..|s| - 2]);
  }

  /** Whole days and two decimals read back as hundredths. */
  lemma ReadTwoDecimals(d: string, c1: char, c2: char)
    requires |d| >= 1 && AllDigits(d) && IsDigit(c1) && IsDigit(c2)
    ensures ReadHundredths(d + ['.', c1, c2]) == Some(ParseDecimal(d) * 100 + DigitValue(c1) * 10 + DigitValue(c2))
  {
    var s := d + ['.', c1, c2];
    assert !AllDigits(s) by {
      assert !IsDigit(s[|d|]);
    }
    assert s[|s| - 2] == c1 != '.';
    assert s[|s| - 3] == '.';
    assert s[..|s| - 3] == d;
  }

  /**
   * The whole days are written as a decimal, and a fraction only when there is one,
   * without a trailing zero; the text reads back as the same number of hundredths.
   */
  /** A whole number of days prints as the whole-day decimal alone. */
  lemma HundredthsWhole(k: nat)
    requires k % 100 == 0
    ensures Hundredths(k) == Decimal(k / 100)
    ensures ReadHundredths(Hundredths(k)) == Some(k)
  {
    ParseDecimalOfDecimal(k / 100);
  }

  /** Tenths of a day print with one fraction digit. */
  lemma HundredthsTenths(k: nat)
    requires k % 100 != 0 && (k % 100) % 10 == 0
    ensures Hundredths(k) == Decimal(k / 100) + ['.', DigitChar((k % 100) / 10)]
    ensures ReadHundredths(Hundredths(k)) == Some(k)
  {
    var d, t := Decimal(k / 100), (k % 100) / 10;
    var c := DigitChar(t);
    assert DigitValue(c) == t;
    ParseDecimalOfDecimal(k / 100);
    ReadOneDecimal(d, c);
    assert k == (k / 100) * 100 + t * 10;
  }

  /** Other fractions print with two fraction digits. */
  lemma HundredthsTwoDigits(k: nat)
    requires (k % 100) % 10 != 0
    ensures Hundredths(k) == Decimal(k / 100) + ['.', DigitChar((k % 100) / 10), DigitChar((k % 100) % 10)]
    ensures ReadHundredths(Hundredths(k)) == Some(k)
  {
    var d, t, h := Decimal(k / 100), (k % 100) / 10, (k % 100) % 10;
    var c1, c2 := DigitChar(t), DigitChar(h);
    assert DigitValue(c1) == t && DigitValue(c2) == h;
    ParseDecimalOfDecimal(k / 100);
    ReadTwoDecimals(d, c1, c2);
    assert k == (k / 100) * 100 + t * 10 + h;
  }

  lemma HundredthsShape(k: nat)
    ensures var s, d := Hundredths(k), Decimal(k / 100);
      && |s| >= |d| && s[..|d|] == d
      && (k % 100 == 0 <==> s == d)
      && (k % 100 != 0 ==> |s| > |d| + 1 && s[|d|] == '.' && AllDigits(s[|d| + 1..]) && s[|s| - 1] != '0')
      && ReadHundredths(s) == Some(k)
  {
    var s, d, frac := Hundredths(k), Decimal(k / 100), k % 100;
    if frac == 0 {
      HundredthsWhole(k);
    } else if frac % 10 == 0 {
      HundredthsTenths(k);
      assert s[..|d|] == d && s[|d| + 1..] == [s[|s| - 1]];
    } else {
      HundredthsTwoDigits(k);
      assert s[..|d|] == d && s[|d| + 1..] == [s[|s| - 2], s[|s| - 1]];
    }
  }


  /** The exact text the handler pushes for each error. */
  function Message(e: AdmissionError): string {
    match e
    case InvalidBeatmapId => "Invalid beatmap ID"
    case NotTaiko => "I'm a taiko BN"
    case HybridSet => "I can't nominate hybrid sets"
    case NotPending(status) => "Expected a Pending map (this is " + status + ")"
    case NotOwnMap => "This map isn't yours"
    case CommentTooLong => "Comment is excessively long"
    case OnCooldown(remaining) =>
      var k := WaitHundredths(remaining);
      "You need to wait " + Hundredths(if k < 0 then 0 else k) + " days before you can request again"
  }

  /** Three days after a request the requester still has exactly eleven days to wait. */
  lemma ElevenDaysMessage()
    ensures WaitHundredths(MinWait - 3 * Day) == 1100 && Hundredths(1100) == "11"
    ensures Message(OnCooldown(MinWait - 3 * Day))
         == "You need to wait " + "11" + " days before you can request again"
  {
    assert Hundredths(1100) == "11" by {
      DecimalTwoDigits(11);
    }
  }

  /** Every error the checks produce for `rec`, in the order the handler pushes them. */
  function Errors(rec: MapRecord, username: string, lastRequest: Option<Millis>, now: Millis)
    : seq<AdmissionError>
  {
    ModeErrors(rec.diffs) + MapErrors(rec, username) + CooldownErrors(lastRequest, now)
  }

  function ModeErrors(diffs: seq<Diff>): seq<AdmissionError> {
    var taikos := Taikos(diffs);
    (if |taikos| == 0 then [NotTaiko] else [])
    + (if |taikos| < |diffs| then [HybridSet] else [])
  }

  function MapErrors(rec: MapRecord, username: string): seq<AdmissionError> {
    (if rec.status != "Pending" then [NotPending(rec.status)] else [])
    + (if rec.creator != username then [NotOwnMap] else [])
    + (if |rec.comment| > MaxCommentLength then [CommentTooLong] else [])
  }

  function CooldownErrors(lastRequest: Option<Millis>, now: Millis): seq<AdmissionError> {
    if lastRequest.Some? && now - lastRequest.value < MinWait
    then [OnCooldown(MinWait - (now - lastRequest.value))]
    else []
  }

  /** "I'm a taiko BN" exactly when no difficulty is Taiko. */
  lemma NotTaikoIff(rec: MapRecord, username: string, last: Option<Millis>, now: Millis)
    ensures NotTaiko in Errors(rec, username, last, now)
        <==> forall i :: 0 <= i < |rec.diffs| ==> rec.diffs[i].mode != "Taiko"
  {
    var taikos := Taikos(rec.diffs);
    if |taikos| > 0 {
      assert taikos[0] in taikos;
    } else {
      forall i | 0 <= i < |rec.diffs| ensures rec.diffs[i].mode != "Taiko" {
        assert rec.diffs[i] in rec.diffs;
      }
    }
  }

  /** "I can't nominate hybrid sets" exactly when some difficulty is not Taiko. */
  lemma HybridIff(rec: MapRecord, username: string, last: Option<Millis>, now: Millis)
    ensures HybridSet in Errors(rec, username, last, now)
        <==> exists i :: 0 <= i < |rec.diffs| && rec.diffs[i].mode != "Taiko"
  {
  }

  /** The mode checks pass exactly when there is a difficulty and every one is Taiko. */
  lemma ModeChecksPassIff(rec: MapRecord, username: string, last: Option<Millis>, now: Millis)
    ensures var es := Errors(rec, username, last, now);
      (NotTaiko !in es && HybridSet !in es)
      <==> (|rec.diffs| > 0 && forall i :: 0 <= i < |rec.diffs| ==> rec.diffs[i].mode == "Taiko")
  {
    NotTaikoIff(rec, username, last, now);
    HybridIff(rec, username, last, now);
  }

  /** A non-Pending map is reported with its actual status, and only then. */
  lemma StatusCheckIff(rec: MapRecord, username: string, last: Option<Millis>, now: Millis)
    ensures (exists s :: NotPending(s) in Errors(rec, username, last, now))
        <==> rec.status != "Pending"
    ensures forall s :: NotPending(s) in Errors(rec, username, last, now) ==> s == rec.status
  {
    if rec.status != "Pending" {
      assert NotPending(rec.status) in Errors(rec, username, last, now);
    }
  }

  /** A map whose creator is not the requester is reported, and only then. */
  lemma OwnMapCheckIff(rec: MapRecord, username: string, last: Option<Millis>, now: Millis)
    ensures NotOwnMap in Errors(rec, username, last, now) <==> rec.creator != username
  {
  }

  /** A comment of 501 characters or more is reported; 500 passes. */
  lemma CommentCheckIff(rec: MapRecord, username: string, last: Option<Millis>, now: Millis)
    ensures CommentTooLong in Errors(rec, username, last, now) <==> |rec.comment| > 500
  {
  }

  /**
   * The cooldown error appears exactly when a previous request exists and less than
   * 14 days have passed; it carries the time still to wait.
   */
  lemma CooldownCheckIff(rec: MapRecord, username: string, last: Option<Millis>, now: Millis)
    ensures (exists r :: OnCooldown(r) in Errors(rec, username, last, now))
        <==> last.Some? && now - last.value < 14 * 24 * 3600 * 1000
    ensures forall r :: OnCooldown(r) in Errors(rec, username, last, now) ==>
              last.Some? && r == last.value + MinWait - now && r > 0
  {
    if last.Some? && now - last.value < MinWait {
      assert OnCooldown(MinWait - (now - last.value)) in Errors(rec, username, last, now);
    }
  }

  /** No check short-circuits: the list is empty exactly when every single check passes. */
  lemma NoErrorsIff(rec: MapRecord, username: string, last: Option<Millis>, now: Millis)
    ensures Errors(rec, username, last, now) == []
        <==> && |rec.diffs| > 0
             && (forall i :: 0 <= i < |rec.diffs| ==> rec.diffs[i].mode == "Taiko")
             && rec.status == "Pending"
             && rec.creator == username
             && |rec.comment| <= MaxCommentLength
             && (last.Some? ==> now - last.value >= MinWait)
  {
    var es := Errors(rec, username, last, now);
    ModeChecksPassIff(rec, username, last, now);
    StatusCheckIff(rec, username, last, now);
    CooldownCheckIff(rec, username, last, now);
  }

  // ---------------------------------------------------------------- the Request collection

  /** A stored Request document (the map fields plus requester and date). */
  datatype StoredRequest = StoredRequest(rec: MapRecord, user: int, requestDate: Millis)

  /**
   * `Request.findOne({ user }).sort({ requestDate: -1 })`: the date of the user's latest
   * request to any queue, or nothing when the user never requested.
   */
  function LatestRequestDate(docs: seq<StoredRequest>, user: int): (r: Option<Millis>)
    ensures r.None? <==> forall i :: 0 <= i < |docs| ==> docs[i].user != user
    ensures r.Some? ==> exists i :: 0 <= i < |docs| && docs[i].user == user && docs[i].requestDate == r.value
    ensures r.Some? ==> forall i :: 0 <= i < |docs| && docs[i].user == user ==> docs[i].requestDate <= r.value
  {
    if docs == [] then None
    else
      var rest := LatestRequestDate(docs[1..], user);
      if docs[0].user != user then
        assert forall i :: 1 <= i < |docs| ==> docs[i] == docs[1..][i - 1];
        rest
      else if rest.Some? && rest.value > docs[0].requestDate then
        assert forall i :: 1 <= i < |docs| ==> docs[i] == docs[1..][i - 1];
        rest
      else
        assert forall i :: 1 <= i < |docs| ==> docs[i] == docs[1..][i - 1];
        Some(docs[0].requestDate)
  }

  /** What the provider call gave: an exception, or the rows of the mapset. */
  datatype Lookup = Threw | Rows(rows: seq<BeatmapRow>)

  /** What the handler answers. */
  datatype Response =
    | LookupFailed                                    // { mapset: {}, errors: ["Invalid beatmap ID"] }
    | Reply(rec: MapRecord, errors: seq<AdmissionError>)
    | Faulted                                         // `mapData[0]` of an empty list throws

  /** The two mode checks: no Taiko difficulty at all, or some difficulty of another mode. */
  method PushModeErrors(pushed: seq<AdmissionError>, diffs: seq<Diff>) returns (errors: seq<AdmissionError>)
    ensures errors == pushed + ModeErrors(diffs)
  {
    errors := pushed;
    var taikos := Taikos(diffs);
    if |taikos| == 0 {
      errors := errors + [NotTaiko];
    }
    if |taikos| < |diffs| {
      errors := errors + [HybridSet];
    }
  }

  /** The status, ownership and comment-length checks. */
  method PushMapErrors(pushed: seq<AdmissionError>, rec: MapRecord, username: string)
    returns (errors: seq<AdmissionError>)
    ensures errors == pushed + MapErrors(rec, username)
  {
    errors := pushed;
    if rec.status != "Pending" {
      errors := errors + [NotPending(rec.status)];
    }
    if rec.creator != username {
      errors := errors + [NotOwnMap];
    }
    if |rec.comment| > MaxCommentLength {
      errors := errors + [CommentTooLong];
    }
  }

  /** The cooldown check against the user's latest request, if any. */
  method PushCooldownError(pushed: seq<AdmissionError>, lastReq: Option<Millis>, now: Millis)
    returns (errors: seq<AdmissionError>)
    ensures errors == pushed + CooldownErrors(lastReq, now)
  {
    errors := pushed;
    if lastReq.Some? {
      var diff := now - lastReq.value;
      if diff < MinWait {
        errors := errors + [OnCooldown(MinWait - diff)];
      }
    }
  }

  /**
   * The handler's checks in order, each pushing its error onto `errors`; none of
   * them stops the others.
   */
  method CollectErrors(rec: MapRecord, username: string, lastReq: Option<Millis>, now: Millis)
    returns (errors: seq<AdmissionError>)
    ensures errors == Errors(rec, username, lastReq, now)
  {
    errors := PushModeErrors([], rec.diffs);
    errors := PushMapErrors(errors, rec, username);
    errors := PushCooldownError(errors, lastReq, now);
  }

  /** The Request collection the handler reads the cooldown from and saves into. */
  class RequestCollection {
    var docs: seq<StoredRequest>

    constructor (docs: seq<StoredRequest>)
      ensures this.docs == docs
    {
      this.docs := docs;
    }

    /**
     * The `POST /request` handler: every check runs and pushes its error; the new
     * Request (dated `now`, by `userid`) is saved only when `errors` stayed empty.
     */
    method Submit(lookup: Lookup, username: string, userid: int,
                  comment: Option<string>, m4m: Option<bool>, now: Millis)
      returns (resp: Response)
      modifies this
      ensures lookup.Threw? ==> resp == LookupFailed && docs == old(docs)
      ensures lookup == Rows([]) ==> resp == Faulted && docs == old(docs)
      ensures lookup.Rows? && |lookup.rows| > 0 ==>
        var rec := Normalise(lookup.rows, comment, m4m);
        && resp == Reply(rec, Errors(rec, username, LatestRequestDate(old(docs), userid), now))
        && docs == old(docs) + (if resp.errors == [] then [StoredRequest(rec, userid, now)] else [])
    {
      if lookup.Threw? {
        return LookupFailed;
      }
      if |lookup.rows| == 0 {
        return Faulted;
      }
      var rec := Normalise(lookup.rows, comment, m4m);

      var lastReq := LatestRequestDate(docs, userid);
      var errors := CollectErrors(rec, username, lastReq, now);
      if |errors| == 0 {
        docs := docs + [StoredRequest(rec, userid, now)];
      }
      resp := Reply(rec, errors);
    }
  }

  predicate AllTaiko(ds: seq<Diff>) {
    forall i :: 0 <= i < |ds| ==> ds[i].mode == "Taiko"
  }

  /** Every difficulty of `b` is Taiko when every one of `a` is and `b` holds the same ones. */
  lemma AllTaikoPermutation(a: seq<Diff>, b: seq<Diff>)
    requires multiset(a) == multiset(b)
    requires AllTaiko(a)
    ensures AllTaiko(b)
  {
    forall i | 0 <= i < |b| ensures b[i].mode == "Taiko" {
      assert b[i] in multiset(a);
      var j :| 0 <= j < |a| && a[j] == b[i];
    }
  }

  /** The latest-request cooldown holds exactly when every earlier request is 14 days old. */
  lemma LatestRequestCooldown(docs: seq<StoredRequest>, userid: int, now: Millis)
    ensures var last := LatestRequestDate(docs, userid);
      (last.Some? ==> now - last.value >= MinWait)
      <==> forall i :: 0 <= i < |docs| && docs[i].user == userid ==> now - docs[i].requestDate >= MinWait
  {
  }

  /**
   * A submission is stored exactly when every check passes, in terms of the provider
   * rows and the stored requests: all difficulties Taiko, a Pending map by the
   * requester, a comment of at most 500 characters, and no request of the requester
   * (to any queue) in the last 14 days.
   */
  lemma AcceptedIff(docs: seq<StoredRequest>, rows: seq<BeatmapRow>, username: string,
                    userid: int, comment: Option<string>, m4m: Option<bool>, now: Millis)
    requires |rows| > 0
    ensures var rec := Normalise(rows, comment, m4m);
      Errors(rec, username, LatestRequestDate(docs, userid), now) == []
      <==> && (forall i :: 0 <= i < |rows| ==> rows[i].mode == "Taiko")
           && rows[0].approvalStatus == "Pending"
           && rows[0].creator == username
           && |comment.GetOr("")| <= 500
           && (forall i :: 0 <= i < |docs| && docs[i].user == userid ==> now - docs[i].requestDate >= MinWait)
  {
    var rec := Normalise(rows, comment, m4m);
    var last := LatestRequestDate(docs, userid);
    NoErrorsIff(rec, username, last, now);
    var ds := ToDiffs(rows);
    if AllTaiko(ds) {
      AllTaikoPermutation(ds, rec.diffs);
    }
    if AllTaiko(rec.diffs) {
      AllTaikoPermutation(rec.diffs, ds);
    }
    assert AllTaiko(ds) <==> forall i :: 0 <= i < |rows| ==> rows[i].mode == "Taiko";
    LatestRequestCooldown(docs, userid, now);
  }
}
