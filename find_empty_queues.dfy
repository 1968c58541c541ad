/**
 * The one-off clean-up script: group every unarchived queue's requests by owner,
 * classify the queues as empty, empty-and-closed, abandoned or dead, and archive the
 * empty-and-closed ones except the last twenty.
 */
module FindEmptyQueues {
  import opened Common
  import opened Settings

  const AbandonedTime: int := 60 * Day
  const DeathTime: int := 150 * Day
  const KeepLast: nat := 20

  /** The fields of a Request document the script reads. */
  datatype TargetedRequest = TargetedRequest(
    targetId: int, requestDate: Millis, archived: bool, feedback: string, status: string)

  // ---------------------------------------------------------------- grouping

  /** `Request.find({ targetId: owner })`, in collection order. */
  function RequestsFor(requests: seq<TargetedRequest>, owner: int): (r: seq<TargetedRequest>)
    ensures forall x :: x in r <==> x in requests && x.targetId == owner
  {
    if requests == [] then []
    else
      assert forall x :: x in requests <==> x == requests[0] || x in requests[1..];
      (if requests[0].targetId == owner then [requests[0]] else []) + RequestsFor(requests[1..], owner)
  }

  /** The `reduce` into `userToQueue`: each owner to its queue, a later queue replacing an earlier one. */
  function UserToQueue(queues: seq<Queue>): (m: map<int, Queue>)
    ensures forall o :: o in m <==> exists j :: 0 <= j < |queues| && queues[j].ownerId == o
    ensures forall o :: o in m ==> m[o] in queues && m[o].ownerId == o
  {
    if queues == [] then map[]
    else
      var prefix := queues[..|queues| - 1];
      var last := queues[|queues| - 1];
      var m := UserToQueue(prefix);
      assert forall q :: q in prefix ==> q in queues;
      assert forall j :: 0 <= j < |prefix| ==> prefix[j] == queues[j];
      m[last.ownerId := last]
  }

  /** Object keys in insertion order: each owner once, where it first appears. */
  function Keys(owners: seq<int>): (ks: seq<int>)
    ensures forall o :: o in ks <==> o in owners
    ensures forall i, j :: 0 <= i < j < |ks| ==> ks[i] != ks[j]
  {
    if owners == [] then []
    else
      var ks := Keys(owners[..|owners| - 1]);
      var o := owners[|owners| - 1];
      assert forall x :: x in owners <==> x in owners[..|owners| - 1] || x == o;
      if o in ks then ks else ks + [o]
  }

  /** Owners that already appear once are listed as they are. */
  lemma {:induction false} KeysOfDistinct(owners: seq<int>)
    requires forall i, j :: 0 <= i < j < |owners| ==> owners[i] != owners[j]
    ensures Keys(owners) == owners
  {
    if owners != [] {
      var n := |owners| - 1;
      var prefix := owners[..n];
      assert forall i, j :: 0 <= i < j < |prefix| ==> prefix[i] != prefix[j] by {
        assert forall i :: 0 <= i < |prefix| ==> prefix[i] == owners[i];
      }
      KeysOfDistinct(prefix);
      assert owners[n] !in prefix by {
        assert forall i :: 0 <= i < |prefix| ==> prefix[i] == owners[i] && owners[i] != owners[n];
      }
      assert Keys(owners) == Keys(prefix) + [owners[n]];
      assert prefix + [owners[n]] == owners;
    }
  }

  /** `userToReqs` as the fetch loop leaves it. */
  function UserToReqs(queues: seq<Queue>, requests: seq<TargetedRequest>)
    : map<int, seq<TargetedRequest>>
  {
    map o | o in OwnerIds(queues) :: RequestsFor(requests, o)
  }

  /** Extending the owners by one adds that owner at the end unless it is already a key. */
  lemma KeysSnoc(owners: seq<int>, k: nat)
    requires k < |owners|
    ensures Keys(owners[..k + 1])
         == if owners[k] in owners[..k] then Keys(owners[..k]) else Keys(owners[..k]) + [owners[k]]
  {
    assert owners[..k + 1][..k] == owners[..k];
  }

  /** A map with the owners as keys and each owner's requests as value is `userToReqs`. */
  lemma UserToReqsPointwise(m: map<int, seq<TargetedRequest>>, queues: seq<Queue>, requests: seq<TargetedRequest>)
    requires forall o :: o in m <==> o in OwnerIds(queues)
    requires forall o :: o in m ==> m[o] == RequestsFor(requests, o)
    ensures m == UserToReqs(queues, requests)
  {
    var expected := UserToReqs(queues, requests);
    assert m.Keys == expected.Keys;
  }

  /**
   * The fetch loop: for each queue, `userToReqs[owner] = Request.find({ targetId: owner })`;
   * `usersWithQueue` is `Object.keys(userToReqs)`.
   */
  method FetchRequests(queues: seq<Queue>, requests: seq<TargetedRequest>)
    returns (usersWithQueue: seq<int>, userToReqs: map<int, seq<TargetedRequest>>)
    ensures userToReqs == UserToReqs(queues, requests)
    ensures usersWithQueue == Keys(OwnerIds(queues))
  {
    ghost var owners := OwnerIds(queues);
    usersWithQueue, userToReqs := [], map[];
    for k := 0 to |queues|
      invariant usersWithQueue == Keys(owners[..k])
      invariant forall o :: o in userToReqs <==> o in owners[..k]
      invariant forall o :: o in userToReqs ==> userToReqs[o] == RequestsFor(requests, o)
    {
      var owner := queues[k].ownerId;
      KeysSnoc(owners, k);
      if owner !in userToReqs {
        usersWithQueue := usersWithQueue + [owner];
      }
      userToReqs := userToReqs[owner := RequestsFor(requests, owner)];
      assert owners[..k + 1] == owners[..k] + [owner];
    }
    assert owners[..|queues|] == owners;
    UserToReqsPointwise(userToReqs, queues, requests);
  }

  // ---------------------------------------------------------------- sorting by request count

  /** `userToReqs[u].length`; every owner being sorted is a key. */
  function Count(u: int, userToReqs: map<int, seq<TargetedRequest>>): nat {
    if u in userToReqs then |userToReqs[u]| else 0
  }

  predicate AllIn(users: seq<int>, userToReqs: map<int, seq<TargetedRequest>>) {
    forall u :: u in users ==> u in userToReqs
  }

  predicate SortedByCountDesc(users: seq<int>, userToReqs: map<int, seq<TargetedRequest>>) {
    forall i, j :: 0 <= i < j < |users| ==> Count(users[i], userToReqs) >= Count(users[j], userToReqs)
  }

  /** An owner with at least as many requests as every one of a sorted list can go in front. */
  lemma SortedByCountCons(u: int, users: seq<int>, userToReqs: map<int, seq<TargetedRequest>>)
    requires SortedByCountDesc(users, userToReqs)
    requires forall k :: 0 <= k < |users| ==> Count(u, userToReqs) >= Count(users[k], userToReqs)
    ensures SortedByCountDesc([u] + users, userToReqs)
  {
    var r := [u] + users;
    assert forall k :: 1 <= k < |r| ==> r[k] == users[k - 1];
  }

  lemma AllInPermutation(a: seq<int>, b: seq<int>, userToReqs: map<int, seq<TargetedRequest>>)
    requires multiset(a) == multiset(b) && AllIn(a, userToReqs)
    ensures AllIn(b, userToReqs)
  {
    forall x | x in b ensures x in userToReqs {
      assert x in multiset(b);
    }
  }

  /** Places `u` before the first user with at most as many requests (so the sort is stable). */
  function InsertByCount(u: int, users: seq<int>, userToReqs: map<int, seq<TargetedRequest>>)
    : (r: seq<int>)
    ensures multiset(r) == multiset(users) + multiset{u}
  {
    if users == [] || Count(users[0], userToReqs) <= Count(u, userToReqs) then [u] + users
    else
      assert users == [users[0]] + users[1..];
      [users[0]] + InsertByCount(u, users[1..], userToReqs)
  }

  /** Inserting into a sorted list keeps it sorted; nothing placed ranks above both `u` and the old head. */
  lemma {:induction false} InsertByCountSorted(u: int, users: seq<int>, userToReqs: map<int, seq<TargetedRequest>>)
    requires SortedByCountDesc(users, userToReqs)
    ensures var r := InsertByCount(u, users, userToReqs);
      && SortedByCountDesc(r, userToReqs)
      && forall k :: 0 <= k < |r| ==>
           Count(r[k], userToReqs) <= Count(u, userToReqs)
           || (users != [] && Count(r[k], userToReqs) <= Count(users[0], userToReqs))
  {
    if users == [] || Count(users[0], userToReqs) <= Count(u, userToReqs) {
      SortedByCountCons(u, users, userToReqs);
    } else {
      var rest := InsertByCount(u, users[1..], userToReqs);
      assert SortedByCountDesc(users[1..], userToReqs);
      InsertByCountSorted(u, users[1..], userToReqs);
      SortedByCountCons(users[0], rest, userToReqs);
      var r := [users[0]] + rest;
      assert forall k :: 1 <= k < |r| ==> r[k] == rest[k - 1];
    }
  }

  /** The owners ordered by how many requests they received, most first; ties keep their order. */
  function SortByCount(users: seq<int>, userToReqs: map<int, seq<TargetedRequest>>): (r: seq<int>)
    ensures multiset(r) == multiset(users)
    ensures AllIn(users, userToReqs) ==> AllIn(r, userToReqs)
  {
    if users == [] then []
    else
      assert users == [users[0]] + users[1..];
      var r := InsertByCount(users[0], SortByCount(users[1..], userToReqs), userToReqs);
      if AllIn(users, userToReqs) then
        AllInPermutation(users, r, userToReqs);
        r
      else r
  }

  /** The sort orders by request count, most first. */
  lemma {:induction false} SortByCountSorted(users: seq<int>, userToReqs: map<int, seq<TargetedRequest>>)
    ensures SortedByCountDesc(SortByCount(users, userToReqs), userToReqs)
  {
    if users != [] {
      SortByCountSorted(users[1..], userToReqs);
      InsertByCountSorted(users[0], SortByCount(users[1..], userToReqs), userToReqs);
    }
  }

  // ---------------------------------------------------------------- the classification

  /** The owners whose queue never received a request, in list order. */
  function EmptyQueues(users: seq<int>, userToReqs: map<int, seq<TargetedRequest>>): (r: seq<int>)
    requires AllIn(users, userToReqs)
    ensures forall u :: u in r <==> u in users && userToReqs[u] == []
  {
    if users == [] then []
    else
      assert forall x :: x in users <==> x == users[0] || x in users[1..];
      (if userToReqs[users[0]] == [] then [users[0]] else []) + EmptyQueues(users[1..], userToReqs)
  }

  /**
   * Inserting a queue into any list keeps the empty queues in their order: an empty
   * queue goes in before every other empty one, a used queue is not listed.
   */
  lemma {:induction false} EmptyQueuesOfInsert(u: int, users: seq<int>, userToReqs: map<int, seq<TargetedRequest>>)
    requires u in userToReqs && AllIn(users, userToReqs)
    ensures AllIn(InsertByCount(u, users, userToReqs), userToReqs)
    ensures EmptyQueues(InsertByCount(u, users, userToReqs), userToReqs)
         == (if userToReqs[u] == [] then [u] else []) + EmptyQueues(users, userToReqs)
  {
    var r := InsertByCount(u, users, userToReqs);
    assert AllIn(users + [u], userToReqs);
    AllInPermutation(users + [u], r, userToReqs);
    assert r != [];
    assert EmptyQueues(r, userToReqs)
        == (if userToReqs[r[0]] == [] then [r[0]] else []) + EmptyQueues(r[1..], userToReqs);
    if users == [] || Count(users[0], userToReqs) <= Count(u, userToReqs) {
      assert r[1..] == users;
    } else {
      var rest := InsertByCount(u, users[1..], userToReqs);
      assert r[1..] == rest;
      EmptyQueuesOfInsert(u, users[1..], userToReqs);
      assert EmptyQueues(users, userToReqs) == EmptyQueues(users[1..], userToReqs);
    }
  }

  /**
   * The sort is stable for the empty queues: they keep the order in which their
   * owners were first listed, which decides which twenty are kept.
   */
  lemma {:induction false} SortKeepsEmptyOrder(users: seq<int>, userToReqs: map<int, seq<TargetedRequest>>)
    requires AllIn(users, userToReqs)
    ensures EmptyQueues(SortByCount(users, userToReqs), userToReqs) == EmptyQueues(users, userToReqs)
  {
    if users != [] {
      SortKeepsEmptyOrder(users[1..], userToReqs);
      EmptyQueuesOfInsert(users[0], SortByCount(users[1..], userToReqs), userToReqs);
    }
  }

  /** The empty queues that are closed, in list order. */
  function ClosedAmong(empty: seq<int>, userToQueue: map<int, Queue>): (r: seq<int>)
    requires forall u :: u in empty ==> u in userToQueue
    ensures forall u :: u in r <==> u in empty && !userToQueue[u].open
  {
    if empty == [] then []
    else
      assert forall x :: x in empty <==> x == empty[0] || x in empty[1..];
      (if !userToQueue[empty[0]].open then [empty[0]] else []) + ClosedAmong(empty[1..], userToQueue)
  }

  /** The owners not listed as empty, in list order. */
  function UsedQueues(users: seq<int>, empty: seq<int>): (r: seq<int>)
    ensures forall u :: u in r <==> u in users && u !in empty
  {
    if users == [] then []
    else
      assert forall x :: x in users <==> x == users[0] || x in users[1..];
      (if users[0] !in empty then [users[0]] else []) + UsedQueues(users[1..], empty)
  }

  /** Empty and used queues split the list of queues between them. */
  lemma {:induction false} EmptyUsedPartition(users: seq<int>, empty: seq<int>, userToReqs: map<int, seq<TargetedRequest>>)
    requires AllIn(users, userToReqs)
    requires forall u :: u in users ==> (u in empty <==> userToReqs[u] == [])
    ensures multiset(EmptyQueues(users, userToReqs)) + multiset(UsedQueues(users, empty)) == multiset(users)
  {
    if users != [] {
      assert users == [users[0]] + users[1..];
      var u := users[0];
      assert EmptyQueues(users, userToReqs)
          == (if userToReqs[u] == [] then [u] else []) + EmptyQueues(users[1..], userToReqs);
      assert UsedQueues(users, empty)
          == (if u !in empty then [u] else []) + UsedQueues(users[1..], empty);
      EmptyUsedPartition(users[1..], empty, userToReqs);
    }
  }

  /** The first date after sorting newest first: the latest request date. */
  function Latest(reqs: seq<TargetedRequest>): (d: Millis)
    requires reqs != []
    ensures exists i :: 0 <= i < |reqs| && reqs[i].requestDate == d
    ensures forall i :: 0 <= i < |reqs| ==> reqs[i].requestDate <= d
  {
    if |reqs| == 1 then reqs[0].requestDate
    else
      var rest := Latest(reqs[1..]);
      assert forall i :: 1 <= i < |reqs| ==> reqs[i] == reqs[1..][i - 1];
      if reqs[0].requestDate >= rest then reqs[0].requestDate else rest
  }

  /** The first date after sorting oldest first: the oldest request date. */
  function Oldest(reqs: seq<TargetedRequest>): (d: Millis)
    requires reqs != []
    ensures exists i :: 0 <= i < |reqs| && reqs[i].requestDate == d
    ensures forall i :: 0 <= i < |reqs| ==> d <= reqs[i].requestDate
  {
    if |reqs| == 1 then reqs[0].requestDate
    else
      var rest := Oldest(reqs[1..]);
      assert forall i :: 1 <= i < |reqs| ==> reqs[i] == reqs[1..][i - 1];
      if reqs[0].requestDate <= rest then reqs[0].requestDate else rest
  }

  /** No request was ever answered: none archived, none with feedback, all still Pending. */
  predicate Untouched(r: TargetedRequest) {
    !r.archived && r.feedback == "" && r.status == "Pending"
  }

  predicate IsAbandoned(reqs: seq<TargetedRequest>, now: Millis) {
    reqs != [] && now - Oldest(reqs) > AbandonedTime
    && forall i :: 0 <= i < |reqs| ==> Untouched(reqs[i])
  }

  /** The `abandonedQueues` filter over the used queues. */
  function AbandonedAmong(used: seq<int>, userToReqs: map<int, seq<TargetedRequest>>, now: Millis)
    : (r: seq<int>)
    requires AllIn(used, userToReqs)
    ensures forall u :: u in r <==> u in used && IsAbandoned(userToReqs[u], now)
  {
    if used == [] then []
    else
      assert forall x :: x in used <==> x == used[0] || x in used[1..];
      (if IsAbandoned(userToReqs[used[0]], now) then [used[0]] else [])
        + AbandonedAmong(used[1..], userToReqs, now)
  }

  /** The `deadQueues` filter: not abandoned, and no new request for 150 days. */
  function DeadAmong(used: seq<int>, abandoned: seq<int>, userToReqs: map<int, seq<TargetedRequest>>,
                     now: Millis): (r: seq<int>)
    requires AllIn(used, userToReqs)
    requires forall u :: u in used ==> userToReqs[u] != []
    ensures forall u :: u in r <==> u in used && u !in abandoned && now - Latest(userToReqs[u]) > DeathTime
  {
    if used == [] then []
    else
      assert forall x :: x in used <==> x == used[0] || x in used[1..];
      (if used[0] !in abandoned && now - Latest(userToReqs[used[0]]) > DeathTime then [used[0]] else [])
        + DeadAmong(used[1..], abandoned, userToReqs, now)
  }

  // ---------------------------------------------------------------- keeping the last twenty

  function Max(a: int, b: int): int { if a < b then b else a }
  function Min(a: int, b: int): int { if a < b then a else b }

  /** `Array.prototype.slice(start, end)`: a negative bound counts back from the end. */
  function JsSlice<T>(s: seq<T>, start: int, end: int): seq<T> {
    var from := if start < 0 then Max(|s| + start, 0) else Min(start, |s|);
    var to := if end < 0 then Max(|s| + end, 0) else Min(end, |s|);
    if from < to then s[from..to] else []
  }

  /** The selection as written: a slice from the start to twenty before the end, with a JavaScript end bound. */
  function ToArchiveAsWritten<T>(emptyAndClosed: seq<T>): seq<T> {
    JsSlice(emptyAndClosed, 0, |emptyAndClosed| - 20)
  }

  /**
   * With fewer than twenty queues the end bound is negative and is read from the
   * end: of 15 empty closed queues the first 10 are archived, where none should be.
   */
  lemma ToArchiveAsWrittenArchivesTooMany<T>(emptyAndClosed: seq<T>)
    requires 10 <= |emptyAndClosed| < 20
    ensures |ToArchiveAsWritten(emptyAndClosed)| == 2 * |emptyAndClosed| - 20
    ensures |emptyAndClosed| == 15 ==> |ToArchiveAsWritten(emptyAndClosed)| == 10
  {
  }

  /** The selection intended: everything but the last twenty. */
  function EmptyAndClosedToArchive<T>(emptyAndClosed: seq<T>): (r: seq<T>)
    ensures |r| == Max(0, |emptyAndClosed| - 20)
    ensures r == emptyAndClosed[..|r|]
    ensures |emptyAndClosed| - |r| == Min(|emptyAndClosed|, KeepLast)
  {
    emptyAndClosed[..Max(0, |emptyAndClosed| - 20)]
  }

  /** From twenty queues on, the code as written selects what was intended. */
  lemma ToArchiveAgreesFromTwenty<T>(emptyAndClosed: seq<T>)
    requires |emptyAndClosed| >= 20 || |emptyAndClosed| <= 10
    ensures ToArchiveAsWritten(emptyAndClosed) == EmptyAndClosedToArchive(emptyAndClosed)
  {
  }

  // ---------------------------------------------------------------- the whole script

  datatype Report = Report(
    usersWithQueue: seq<int>,
    emptyQueues: seq<int>,
    emptyAndClosedQueues: seq<int>,
    usedQueues: seq<int>,
    abandonedQueues: seq<int>,
    deadQueues: seq<int>,
    emptyAndClosedToArchive: seq<int>)

  /** Every list the script prints, from the unarchived queues and all requests. */
  function Classify(queues: seq<Queue>, requests: seq<TargetedRequest>, now: Millis): Report {
    var userToQueue := UserToQueue(queues);
    var userToReqs := UserToReqs(queues, requests);
    var users := SortByCount(Keys(OwnerIds(queues)), userToReqs);
    var empty := EmptyQueues(users, userToReqs);
    var emptyAndClosed := ClosedAmong(empty, userToQueue);
    var used := UsedQueues(users, empty);
    var abandoned := AbandonedAmong(used, userToReqs, now);
    var dead := DeadAmong(used, abandoned, userToReqs, now);
    Report(users, empty, emptyAndClosed, used, abandoned, dead, EmptyAndClosedToArchive(emptyAndClosed))
  }

  /** The sorted list holds each owner of an unarchived queue once. */
  lemma ClassifyOwners(queues: seq<Queue>, requests: seq<TargetedRequest>, now: Millis)
    ensures var r := Classify(queues, requests, now);
      && Distinct(r.usersWithQueue)
      && forall u :: u in r.usersWithQueue <==>
           (exists j :: 0 <= j < |queues| && queues[j].ownerId == u) && u in UserToReqs(queues, requests)
  {
    var keys := Keys(OwnerIds(queues));
    var r := Classify(queues, requests, now);
    assert multiset(r.usersWithQueue) == multiset(keys);
    forall x ensures x in r.usersWithQueue <==> x in keys {
      assert x in r.usersWithQueue <==> x in multiset(r.usersWithQueue);
    }
    forall x | x in OwnerIds(queues) ensures exists j :: 0 <= j < |queues| && queues[j].ownerId == x {
      var j :| 0 <= j < |queues| && OwnerIds(queues)[j] == x;
    }
    DistinctOfPermutation(keys, r.usersWithQueue);
  }

  predicate Distinct(xs: seq<int>) {
    forall i, j :: 0 <= i < j < |xs| ==> xs[i] != xs[j]
  }

  lemma {:induction false} DistinctAtMostOnce(xs: seq<int>, x: int)
    requires Distinct(xs)
    ensures multiset(xs)[x] <= 1
  {
    if xs != [] {
      assert xs == [xs[0]] + xs[1..];
      assert x == xs[0] ==> x !in xs[1..];
      DistinctAtMostOnce(xs[1..], x);
    }
  }

  lemma RepeatCountsTwice(w: seq<int>, i: int, j: int)
    requires 0 <= i < j < |w| && w[i] == w[j]
    ensures multiset(w)[w[i]] >= 2
  {
    assert w == w[..i] + [w[i]] + w[i + 1..j] + [w[j]] + w[j + 1..];
  }

  /** Reordering a list without repeats gives a list without repeats. */
  lemma DistinctOfPermutation(a: seq<int>, b: seq<int>)
    requires multiset(a) == multiset(b) && Distinct(a)
    ensures Distinct(b)
  {
    forall i, j | 0 <= i < j < |b| ensures b[i] != b[j] {
      if b[i] == b[j] {
        RepeatCountsTwice(b, i, j);
        DistinctAtMostOnce(a, b[i]);
      }
    }
  }

  /**
   * Empty and used queues split the owners: an owner is empty exactly when no request
   * targets it, and a closed empty queue is listed exactly when it is closed.
   */
  lemma ClassifyEmptyUsed(queues: seq<Queue>, requests: seq<TargetedRequest>, now: Millis, u: int)
    ensures var r := Classify(queues, requests, now);
      var reqs := RequestsFor(requests, u);
      && multiset(r.emptyQueues) + multiset(r.usedQueues) == multiset(r.usersWithQueue)
      && (u in r.emptyQueues <==> u in r.usersWithQueue && reqs == [])
      && (u in r.usedQueues <==> u in r.usersWithQueue && reqs != [])
      && (u in r.emptyAndClosedQueues <==> u in r.emptyQueues && !UserToQueue(queues)[u].open)
      && (u in r.emptyAndClosedToArchive ==> u in r.emptyAndClosedQueues)
  {
    var r := Classify(queues, requests, now);
    ClassifyOwners(queues, requests, now);
    EmptyUsedPartition(r.usersWithQueue, r.emptyQueues, UserToReqs(queues, requests));
  }

  /**
   * A used queue is abandoned when its oldest request is over 60 days old and no
   * request was ever answered; it is dead when it is not abandoned and its latest
   * request is over 150 days old; no queue is both.
   */
  lemma ClassifyAges(queues: seq<Queue>, requests: seq<TargetedRequest>, now: Millis, u: int)
    ensures var r := Classify(queues, requests, now);
      var reqs := RequestsFor(requests, u);
      && (u in r.abandonedQueues <==>
            && u in r.usedQueues && now - Oldest(reqs) > 60 * 24 * 3600 * 1000
            && forall i :: 0 <= i < |reqs| ==> Untouched(reqs[i]))
      && (u in r.deadQueues <==>
            u in r.usedQueues && u !in r.abandonedQueues && now - Latest(reqs) > 150 * 24 * 3600 * 1000)
      && !(u in r.abandonedQueues && u in r.deadQueues)
  {
    ClassifyOwners(queues, requests, now);
  }

  /**
   * The script: fetch every unarchived queue's requests, classify, then set
   * `archived = true` on each owner chosen for archiving.
   */
  method Run(table: SettingsCollection, requests: seq<TargetedRequest>, now: Millis)
    returns (report: Report)
    requires table.Valid()
    modifies table
    ensures report == Classify(Unarchived(old(table.docs)), requests, now)
    ensures table.Valid() && |table.docs| == |old(table.docs)|
    ensures forall i :: 0 <= i < |table.docs| ==>
      table.docs[i] == if old(table.docs)[i].ownerId in report.emptyAndClosedToArchive
                       then old(table.docs)[i].(archived := true)
                       else old(table.docs)[i]
  {
    var queues := Unarchived(table.docs);
    var userToQueue := UserToQueue(queues);
    var usersWithQueue, userToReqs := FetchRequests(queues, requests);
    usersWithQueue := SortByCount(usersWithQueue, userToReqs);
    var emptyQueues := EmptyQueues(usersWithQueue, userToReqs);
    var emptyAndClosedQueues := ClosedAmong(emptyQueues, userToQueue);
    var usedQueues := UsedQueues(usersWithQueue, emptyQueues);
    var abandonedQueues := AbandonedAmong(usedQueues, userToReqs, now);
    var deadQueues := DeadAmong(usedQueues, abandonedQueues, userToReqs, now);
    var toArchive := EmptyAndClosedToArchive(emptyAndClosedQueues);
    report := Report(usersWithQueue, emptyQueues, emptyAndClosedQueues, usedQueues,
                     abandonedQueues, deadQueues, toArchive);
    table.UpdateOwners(toArchive, Update(None, Some(true)));
  }
}
