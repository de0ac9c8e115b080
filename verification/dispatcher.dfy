/**
 The dispatch loop of `main` in main.go, as a sequential abstraction.

 The program launches task `i` (for `i = 0, 1, 2, ...`) only after finding
 `ShouldStop` false, then moves on without waiting for it. Here every task
 runs to completion before the next check, so the tasks' effects reach the
 store in launch order. `tasks[i]` is what the world does to task `i`; when
 the sequence runs out the loop ends, standing for a run that is observed
 only that far.
 */
module Dispatcher {
  import opened Store
  import opened Trace
  import opened Worker

  /** The store after tasks `0 .. |tasks| - 1` have run in order, with no stop check. */
  function Replay(im: ImageManager, baseUrl: string, tasks: seq<Task>, hash: Payload -> Fingerprint): ImageManager
    decreases |tasks|
  {
    if |tasks| == 0 then im
    else
      var n := |tasks| - 1;
      Work(Replay(im, baseUrl, tasks[..n], hash), n, baseUrl, tasks[n], hash).store
  }

  /** The deliveries the store receives from a sequence of tasks: one per
      task that downloaded a body, in order. */
  function Successful(tasks: seq<Task>): (ds: seq<Delivery>)
    ensures |ds| <= |tasks|
    decreases |tasks|
  {
    if |tasks| == 0 then []
    else
      var t := tasks[|tasks| - 1];
      Successful(tasks[..|tasks| - 1]) +
        (match Downloaded(t.response)
         case Some(p) => [Delivery(p, t.writeFails)]
         case None => [])
  }

  /**
   Running tasks changes the store exactly as feeding it the successful
   downloads alone: failed tasks are invisible to it.
   */
  lemma {:induction false} ReplayIsFeedOfSuccesses(im: ImageManager, baseUrl: string, tasks: seq<Task>, hash: Payload -> Fingerprint)
    ensures Replay(im, baseUrl, tasks, hash) == Feed(im, Successful(tasks), hash).store
    decreases |tasks|
  {
    if |tasks| > 0 {
      var n := |tasks| - 1;
      ReplayIsFeedOfSuccesses(im, baseUrl, tasks[..n], hash);
      var prev := Successful(tasks[..n]);
      match Downloaded(tasks[n].response)
      case Some(p) =>
        var ds := prev + [Delivery(p, tasks[n].writeFails)];
        assert ds[..|ds| - 1] == prev;
      case None =>
        assert Successful(tasks) == prev;
    }
  }

  /** A task ends by changing the store by at most one unique image. */
  lemma WorkCountsAtMostOne(im: ImageManager, id: nat, baseUrl: string, task: Task, hash: Payload -> Fingerprint)
    ensures var s := Work(im, id, baseUrl, task, hash).store;
            im.counter <= s.counter <= im.counter + 1
            && (s.counter == im.counter ==> s.repeated <= im.repeated + 1)
            && s.limit == im.limit && s.maxUnique == im.maxUnique
            && (Valid(im) ==> Valid(s))
  {
  }

  /** Replaying one more task of a sequence runs that task on the store the earlier ones left. */
  lemma ReplayStep(im: ImageManager, baseUrl: string, tasks: seq<Task>, i: nat, hash: Payload -> Fingerprint)
    requires i < |tasks|
    ensures Replay(im, baseUrl, tasks[..i + 1], hash) == Work(Replay(im, baseUrl, tasks[..i], hash), i, baseUrl, tasks[i], hash).store
  {
    assert tasks[..i + 1][..i] == tasks[..i];
  }

  /**
   A run of tasks each launched from an unstopped store keeps the thresholds
   and `Valid`, never passes a positive cap, and never lets the streak pass a
   positive threshold.
   */
  lemma {:induction false} UnstoppedPrefixBounds(im: ImageManager, baseUrl: string, tasks: seq<Task>, hash: Payload -> Fingerprint)
    requires forall k :: 0 <= k < |tasks| ==> !ShouldStop(Replay(im, baseUrl, tasks[..k], hash))
    ensures var s := Replay(im, baseUrl, tasks, hash);
            && s.limit == im.limit && s.maxUnique == im.maxUnique
            && (Valid(im) ==> Valid(s))
            && (im.maxUnique > 0 && im.counter <= im.maxUnique ==> s.counter <= im.maxUnique)
            && (im.limit > 0 && im.repeated <= im.limit ==> s.repeated <= im.limit)
    decreases |tasks|
  {
    if |tasks| > 0 {
      var n := |tasks| - 1;
      var init := tasks[..n];
      forall k | 0 <= k < n
        ensures !ShouldStop(Replay(im, baseUrl, init[..k], hash))
      {
        assert init[..k] == tasks[..k];
      }
      UnstoppedPrefixBounds(im, baseUrl, init, hash);
      assert !ShouldStop(Replay(im, baseUrl, init, hash));
      WorkCountsAtMostOne(Replay(im, baseUrl, init, hash), n, baseUrl, tasks[n], hash);
    }
  }

  /**
   The loop `for i := 0; ; i++ { if im.ShouldStop() { break }; launch i }`.

   It launches tasks `0 .. launched - 1`, each from a store where `ShouldStop`
   was false, and stops early only at a store where it holds; so `launched`
   is the first index at which the store is stopped. Because nothing is in
   flight at a check, a positive cap is never overshot and the streak never
   passes a positive threshold.
   */
  method Run(im: ImageManager, baseUrl: string, tasks: seq<Task>, hash: Payload -> Fingerprint)
    returns (final: ImageManager, launched: nat)
    ensures launched <= |tasks|
    ensures final == Replay(im, baseUrl, tasks[..launched], hash)
    ensures forall k :: 0 <= k < launched ==> !ShouldStop(Replay(im, baseUrl, tasks[..k], hash))
    ensures launched < |tasks| ==> ShouldStop(final)
    ensures final.limit == im.limit && final.maxUnique == im.maxUnique
    ensures Valid(im) ==> Valid(final)
    ensures im.maxUnique > 0 && im.counter <= im.maxUnique ==> final.counter <= im.maxUnique
    ensures im.limit > 0 && im.repeated <= im.limit ==> final.repeated <= im.limit
  {
    var store := im;
    var i := 0;
    while i < |tasks|
      invariant i <= |tasks|
      invariant store == Replay(im, baseUrl, tasks[..i], hash)
      invariant forall k :: 0 <= k < i ==> !ShouldStop(Replay(im, baseUrl, tasks[..k], hash))
    {
      if ShouldStop(store) {
        break;
      }
      ReplayStep(im, baseUrl, tasks, i, hash);
      store := Work(store, i, baseUrl, tasks[i], hash).store;
      i := i + 1;
    }
    assert i == |tasks| ==> tasks[..i] == tasks;
    forall k | 0 <= k < i
      ensures !ShouldStop(Replay(im, baseUrl, tasks[..i][..k], hash))
    {
      assert tasks[..i][..k] == tasks[..k];
    }
    UnstoppedPrefixBounds(im, baseUrl, tasks[..i], hash);
    final, launched := store, i;
  }

  /** The thresholds `main` configures: stop after 100 duplicates in a row, no cap. */
  const RepeatLimit: int := 100
  const MaxUniqueImages: int := 0

  /**
   `main` after start-up: a fresh store with the configured thresholds, the
   dispatch loop, then the reported total. The total is the number of
   distinct fingerprints among the bodies the launched tasks downloaded, and
   the loop ends early only after a streak of 100 duplicates.
   */
  method Program(baseUrl: string, tasks: seq<Task>, hash: Payload -> Fingerprint)
    returns (total: nat, launched: nat)
    ensures launched <= |tasks|
    ensures total == |Fingerprints(Successful(tasks[..launched]), hash)|
    ensures launched < |tasks| ==> 0 < launched && total <= launched - RepeatLimit
  {
    var im := NewImageManager(RepeatLimit, MaxUniqueImages);
    var final;
    final, launched := Run(im, baseUrl, tasks, hash);
    ReplayIsFeedOfSuccesses(im, baseUrl, tasks[..launched], hash);
    UniqueCountIsDistinctFingerprints(im, Successful(tasks[..launched]), hash);
    if launched < |tasks| {
      StreakNeedsLaunches(im, baseUrl, tasks[..launched], hash);
      assert final.repeated >= RepeatLimit;
      assert final.counter + final.repeated <= launched;
    }
    total := final.counter;
  }

  /** Every unique image and every duplicate in the current streak took a task of its own. */
  lemma {:induction false} StreakNeedsLaunches(im: ImageManager, baseUrl: string, tasks: seq<Task>, hash: Payload -> Fingerprint)
    ensures var s := Replay(im, baseUrl, tasks, hash);
            s.counter + s.repeated <= im.counter + im.repeated + |tasks|
    decreases |tasks|
  {
    if |tasks| > 0 {
      var n := |tasks| - 1;
      StreakNeedsLaunches(im, baseUrl, tasks[..n], hash);
      WorkCountsAtMostOne(Replay(im, baseUrl, tasks[..n], hash), n, baseUrl, tasks[n], hash);
    }
  }

  /** One more task is one more `Work` on the store the earlier ones left. */
  lemma ReplaySnoc(im: ImageManager, baseUrl: string, tasks: seq<Task>, t: Task, hash: Payload -> Fingerprint)
    ensures Replay(im, baseUrl, tasks + [t], hash) == Work(Replay(im, baseUrl, tasks, hash), |tasks|, baseUrl, t, hash).store
  {
    assert (tasks + [t])[..|tasks|] == tasks;
  }

  /**
   Runs with a cap of 2 and three tasks that each download a payload with a
   distinct fingerprint: the loop launches exactly two tasks, stops because
   the cap is reached, and reports two unique images.
   */
  method CapScenario(baseUrl: string, a: Payload, b: Payload, c: Payload, hash: Payload -> Fingerprint)
    returns (final: ImageManager, launched: nat)
    requires hash(a) != hash(b)
    ensures launched == 2 && final.counter == 2 && ShouldStop(final)
  {
    var im := NewImageManager(100, 2);
    var ta := Task(Received(StatusOK, ReadAll(a)), false);
    var tb := Task(Received(StatusOK, ReadAll(b)), false);
    var tc := Task(Received(StatusOK, ReadAll(c)), false);
    var tasks := [ta, tb, tc];
    assert tasks[..0] == [];
    assert tasks[..1] == [] + [ta];
    assert tasks[..2] == [ta] + [tb];
    ReplaySnoc(im, baseUrl, [], ta, hash);
    ReplaySnoc(im, baseUrl, [ta], tb, hash);
    var s1 := Replay(im, baseUrl, tasks[..1], hash);
    assert s1.counter == 1 && s1.repeated == 0 && s1.hashes == {hash(a)};
    var s2 := Replay(im, baseUrl, tasks[..2], hash);
    assert s2.counter == 2;
    final, launched := Run(im, baseUrl, tasks, hash);
    assert launched != 0;
    assert launched != 1;
    assert launched <= 2;
  }

  /**
   With a streak threshold of 3 and no cap, the payloads A, B, A, A, A
   (A and B with distinct fingerprints) are answered new, new, duplicate,
   duplicate, duplicate, and the store is then stopped.
   */
  lemma StreakScenario(a: Payload, b: Payload, hash: Payload -> Fingerprint)
    requires hash(a) != hash(b)
    ensures var ds := [Delivery(a, false), Delivery(b, false), Delivery(a, false), Delivery(a, false), Delivery(a, false)];
            var r := Feed(NewImageManager(3, 0), ds, hash);
            && r.replies == [Reply(true, FileName(1)), Reply(true, FileName(2)),
                             Reply(false, ""), Reply(false, ""), Reply(false, "")]
            && r.store.counter == 2 && r.store.repeated == 3
            && ShouldStop(r.store)
  {
    var da := Delivery(a, false);
    var db := Delivery(b, false);
    var im := NewImageManager(3, 0);
    StreakScenarioFirstTwo(a, b, hash);
    var r2 := Feed(im, [da, db], hash);
    FeedSnocSeen(im, [da, db], da, hash);
    assert [da, db] + [da] == [da, db, da];
    FeedSnocSeen(im, [da, db, da], da, hash);
    assert [da, db, da] + [da] == [da, db, da, da];
    FeedSnocSeen(im, [da, db, da, da], da, hash);
    assert [da, db, da, da] + [da] == [da, db, da, da, da];
  }

  /** The first two, distinct, payloads of `StreakScenario` are both new. */
  lemma StreakScenarioFirstTwo(a: Payload, b: Payload, hash: Payload -> Fingerprint)
    requires hash(a) != hash(b)
    ensures var r := Feed(NewImageManager(3, 0), [Delivery(a, false), Delivery(b, false)], hash);
            && r.store == ImageManager({hash(a), hash(b)}, 2, 0, 3, 0)
            && r.replies == [Reply(true, FileName(1)), Reply(true, FileName(2))]
  {
    var da := Delivery(a, false);
    var db := Delivery(b, false);
    var im := NewImageManager(3, 0);
    FeedSnoc(im, [], da, hash);
    assert [] + [da] == [da];
    FeedSnoc(im, [da], db, hash);
    assert [da] + [db] == [da, db];
  }
}
