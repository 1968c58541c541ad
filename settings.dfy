/**
 * The Settings collection: one queue document per owner, as `server/models/settings.js`
 * declares it, with the two store operations the maintenance scripts use:
 * `find({ archived: { $ne: true } })` and `findOneAndUpdate({ ownerId }, update)`.
 */
module Settings {
  import opened Common

  /** A queue document. */
  datatype Queue = Queue(
    ownerId: int,
    owner: string,                    // deprecated display-name reference
    open: bool,
    archived: bool,
    maxPending: int,
    cooldown: int,
    m4m: bool,
    modes: seq<string>,
    modderType: string,
    notes: string,
    lastActionedDate: Option<Millis>)

  /** The fields a `findOneAndUpdate` sets; an absent field is left alone. */
  datatype Update = Update(open: Option<bool>, archived: Option<bool>)

  function Apply(q: Queue, u: Update): (r: Queue)
    ensures r.open == u.open.GetOr(q.open) && r.archived == u.archived.GetOr(q.archived)
    ensures r.(open := q.open, archived := q.archived) == q
  {
    q.(open := u.open.GetOr(q.open), archived := u.archived.GetOr(q.archived))
  }

  /** No two documents share an owner (re-creating a queue reactivates the old document). */
  predicate UniqueOwners(docs: seq<Queue>) {
    forall i, j :: 0 <= i < j < |docs| ==> docs[i].ownerId != docs[j].ownerId
  }

  /** `find({ archived: { $ne: true } })`: the unarchived documents, in collection order. */
  function Unarchived(docs: seq<Queue>): (r: seq<Queue>)
    ensures forall q :: q in r <==> q in docs && !q.archived
    ensures |r| <= |docs|
    ensures UniqueOwners(docs) ==> UniqueOwners(r)
  {
    if docs == [] then []
    else
      var rest := Unarchived(docs[1..]);
      assert forall q :: q in docs[1..] ==> q in docs;
      if docs[0].archived then rest
      else
        assert UniqueOwners(docs) ==> forall q :: q in rest ==> q.ownerId != docs[0].ownerId;
        [docs[0]] + rest
  }

  /** The query keeps collection order: documents of two stretches stay in their stretches, in order. */
  lemma {:induction false} UnarchivedConcat(a: seq<Queue>, b: seq<Queue>)
    ensures Unarchived(a + b) == Unarchived(a) + Unarchived(b)
  {
    if a == [] {
      assert a + b == b;
    } else {
      assert (a + b)[0] == a[0];
      assert (a + b)[1..] == a[1..] + b;
      UnarchivedConcat(a[1..], b);
    }
  }

  /** One more document is listed last when it is unarchived, and not at all otherwise. */
  lemma UnarchivedSnoc(docs: seq<Queue>, q: Queue)
    ensures Unarchived(docs + [q]) == Unarchived(docs) + (if q.archived then [] else [q])
  {
    UnarchivedConcat(docs, [q]);
    assert [q][1..] == [];
  }

  /** The index of the first document of `ownerId`, the one `findOneAndUpdate` picks. */
  function FirstIndex(docs: seq<Queue>, ownerId: int): (r: Option<nat>)
    ensures r.None? <==> forall i :: 0 <= i < |docs| ==> docs[i].ownerId != ownerId
    ensures r.Some? ==> r.value < |docs| && docs[r.value].ownerId == ownerId
                        && forall i :: 0 <= i < r.value ==> docs[i].ownerId != ownerId
  {
    if docs == [] then None
    else if docs[0].ownerId == ownerId then Some(0)
    else match FirstIndex(docs[1..], ownerId)
      case None => None
      case Some(i) => Some(i + 1)
  }

  /** The collection after `findOneAndUpdate({ ownerId }, u)`. */
  function UpdateFirst(docs: seq<Queue>, ownerId: int, u: Update): seq<Queue> {
    match FirstIndex(docs, ownerId)
    case None => docs
    case Some(i) => docs[i := Apply(docs[i], u)]
  }

  /** With one document per owner, the update reaches exactly that owner's document. */
  lemma UpdateFirstByOwner(docs: seq<Queue>, ownerId: int, u: Update)
    requires UniqueOwners(docs)
    ensures var r := UpdateFirst(docs, ownerId, u);
      && |r| == |docs|
      && UniqueOwners(r)
      && forall i :: 0 <= i < |docs| ==>
           r[i] == if docs[i].ownerId == ownerId then Apply(docs[i], u) else docs[i]
  {
  }

  function OwnerIds(qs: seq<Queue>): (r: seq<int>)
    ensures |r| == |qs|
    ensures forall j :: 0 <= j < |qs| ==> r[j] == qs[j].ownerId
  {
    seq(|qs|, j requires 0 <= j < |qs| => qs[j].ownerId)
  }

  class SettingsCollection {
    var docs: seq<Queue>

    predicate Valid()
      reads this
    {
      UniqueOwners(docs)
    }

    constructor (docs: seq<Queue>)
      requires UniqueOwners(docs)
      ensures Valid() && this.docs == docs
    {
      this.docs := docs;
    }

    /** `Settings.findOneAndUpdate({ ownerId }, u)`: update the first document of that owner. */
    method FindOneAndUpdate(ownerId: int, u: Update)
      modifies this
      ensures docs == UpdateFirst(old(docs), ownerId, u)
      ensures old(Valid()) ==> Valid()
    {
      if Valid() {
        UpdateFirstByOwner(docs, ownerId, u);
      }
      var i := 0;
      while i < |docs| && docs[i].ownerId != ownerId
        invariant 0 <= i <= |docs|
        invariant forall j :: 0 <= j < i ==> docs[j].ownerId != ownerId
      {
        i := i + 1;
      }
      if i < |docs| {
        docs := docs[i := Apply(docs[i], u)];
      }
    }

    /**
     * `for (const o of owners) await Settings.findOneAndUpdate({ ownerId: o }, u)`:
     * each listed owner's document receives the update, every other document is kept.
     */
    method UpdateOwners(owners: seq<int>, u: Update)
      requires Valid()
      modifies this
      ensures Valid() && |docs| == |old(docs)|
      ensures forall i :: 0 <= i < |docs| ==>
        docs[i] == if old(docs)[i].ownerId in owners then Apply(old(docs)[i], u) else old(docs)[i]
    {
      ghost var d0 := docs;
      for k := 0 to |owners|
        invariant Valid() && |docs| == |d0|
        invariant forall i :: 0 <= i < |d0| ==>
          docs[i] == if d0[i].ownerId in owners[..k] then Apply(d0[i], u) else d0[i]
      {
        UpdateFirstByOwner(docs, owners[k], u);
        FindOneAndUpdate(owners[k], u);
        assert owners[..k + 1] == owners[..k] + [owners[k]];
      }
      assert owners[..|owners|] == owners;
    }
  }
}
