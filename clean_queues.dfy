/**
 * The daily maintenance sweep over the Settings collection: close open queues
 * inactive for more than three weeks, archive queues inactive for more than eight.
 */
module CleanQueues {
  import opened Common
  import opened Settings

  const Week: int := 7 * Day
  const AutoArchiveTime: int := 8 * Week
  const AutoCloseTime: int := 3 * Week

  /**
   * `new Date("2022-04-17")`: midnight UTC of that day, 52 years of 365 days, the 13 leap
   * days 1972..2020, and 31 + 28 + 31 + 16 days into 2022 after the Unix epoch.
   */
  const ScriptCreateDate: Millis := (52 * 365 + 13 + 31 + 28 + 31 + 16) * Day

  /** `getLastActiveDate`: the last owner action, or the date this sweep was introduced. */
  function LastActiveDate(q: Queue): Millis {
    match q.lastActionedDate
    case Some(d) => d
    case None => ScriptCreateDate
  }

  predicate ShouldClose(q: Queue, now: Millis) {
    q.open && now - LastActiveDate(q) > AutoCloseTime
  }

  predicate ShouldArchive(q: Queue, now: Millis) {
    now - LastActiveDate(q) > AutoArchiveTime
  }

  /** The queues to close: the open ones whose last activity is more than three weeks old, in order. */
  function QueuesToClose(queues: seq<Queue>, now: Millis): (r: seq<Queue>)
    ensures forall q :: q in r <==> q in queues && ShouldClose(q, now)
  {
    if queues == [] then []
    else
      assert forall q :: q in queues <==> q == queues[0] || q in queues[1..];
      (if ShouldClose(queues[0], now) then [queues[0]] else []) + QueuesToClose(queues[1..], now)
  }

  /** The queues to archive: those whose last activity is more than eight weeks old, in order. */
  function QueuesToArchive(queues: seq<Queue>, now: Millis): (r: seq<Queue>)
    ensures forall q :: q in r <==> q in queues && ShouldArchive(q, now)
  {
    if queues == [] then []
    else
      assert forall q :: q in queues <==> q == queues[0] || q in queues[1..];
      (if ShouldArchive(queues[0], now) then [queues[0]] else []) + QueuesToArchive(queues[1..], now)
  }

  /** Every open queue chosen for archiving is also chosen for closing (eight weeks exceed three). */
  lemma ArchiveSelectionAlsoCloses(queues: seq<Queue>, now: Millis)
    ensures forall q :: q in QueuesToArchive(queues, now) && q.open ==> q in QueuesToClose(queues, now)
  {
  }

  /** What one document looks like after the sweep. */
  function Swept(q: Queue, now: Millis): Queue {
    if q.archived then q
    else if ShouldArchive(q, now) then q.(open := false, archived := true)
    else if ShouldClose(q, now) then q.(open := false)
    else q
  }

  function Sweep(docs: seq<Queue>, now: Millis): (r: seq<Queue>)
    ensures |r| == |docs|
  {
    seq(|docs|, i requires 0 <= i < |docs| => Swept(docs[i], now))
  }

  /**
   * After the sweep a queue is open exactly when it was open and was either already
   * archived or active within three weeks; it is archived exactly when it was, or
   * its last activity is more than eight weeks old. Nothing else in it changes.
   */
  lemma SweepEffect(docs: seq<Queue>, now: Millis, i: int)
    requires 0 <= i < |docs|
    ensures var q, r := docs[i], Sweep(docs, now)[i];
      && r.open == (q.open && (q.archived || now - LastActiveDate(q) <= 3 * 7 * 24 * 3600 * 1000))
      && r.archived == (q.archived || now - LastActiveDate(q) > 8 * 7 * 24 * 3600 * 1000)
      && r.(open := q.open, archived := q.archived) == q
  {
  }

  /** The sweep never opens a queue and never un-archives one; archived queues are untouched. */
  lemma SweepMonotone(docs: seq<Queue>, now: Millis)
    ensures var r := Sweep(docs, now);
      forall i :: 0 <= i < |docs| ==>
        && (r[i].open ==> docs[i].open)
        && (docs[i].archived ==> r[i] == docs[i])
        && (r[i].archived || !docs[i].archived)
  {
  }

  /** A second sweep at the same instant changes nothing. */
  lemma SweepIdempotent(docs: seq<Queue>, now: Millis)
    ensures Sweep(Sweep(docs, now), now) == Sweep(docs, now)
  {
    var once := Sweep(docs, now);
    forall i | 0 <= i < |docs| ensures Swept(once[i], now) == once[i] {
      assert LastActiveDate(once[i]) == LastActiveDate(docs[i]);
    }
  }

  /** With one document per owner, an owner of a selected queue picks out exactly that document. */
  lemma SelectedByOwner(docs: seq<Queue>, sel: seq<Queue>, i: int)
    requires UniqueOwners(docs) && 0 <= i < |docs|
    requires forall q :: q in sel ==> q in docs
    ensures docs[i].ownerId in OwnerIds(sel) <==> docs[i] in sel
  {
    if j :| 0 <= j < |sel| && sel[j].ownerId == docs[i].ownerId {
      assert sel[j] in sel;
      var m :| 0 <= m < |docs| && docs[m] == sel[j];
      assert m == i;
    }
  }

  /**
   * `cleanQueues`: find the unarchived queues, select those to close and those to
   * archive, then update each selected owner's document, closing first.
   */
  method Clean(table: SettingsCollection, now: Millis)
    requires table.Valid()
    modifies table
    ensures table.Valid()
    ensures table.docs == Sweep(old(table.docs), now)
  {
    var queues := Unarchived(table.docs);
    var queuesToClose := QueuesToClose(queues, now);
    var queuesToArchive := QueuesToArchive(queues, now);
    ghost var d0 := table.docs;

    table.UpdateOwners(OwnerIds(queuesToClose), Update(Some(false), None));
    table.UpdateOwners(OwnerIds(queuesToArchive), Update(Some(false), Some(true)));

    forall i | 0 <= i < |d0| ensures table.docs[i] == Swept(d0[i], now) {
      SelectedByOwner(d0, queuesToClose, i);
      SelectedByOwner(d0, queuesToArchive, i);
    }
  }
}
