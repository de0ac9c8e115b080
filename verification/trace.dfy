/**
 Sequences of `SaveIfUnique` calls.

 Because the store's mutex serialises every call, any execution of the
 program hands the store its downloaded payloads one at a time, in some
 order. `Feed` folds a sequence of such deliveries through `SaveIfUnique`;
 the lemmas below say what the store and the replies are after any such
 sequence, in terms of the fingerprints of the payloads alone.
 */
module Trace {
  import opened Store

  /** A downloaded payload, together with whether writing it to disk fails
      (relevant only if it turns out to be unique). */
  datatype Delivery = Delivery(payload: Payload, writeFails: bool)

  /** The store after a sequence of calls, and the reply of each call in order. */
  datatype Run = Run(store: ImageManager, replies: seq<Reply>)

  function Feed(im: ImageManager, ds: seq<Delivery>, hash: Payload -> Fingerprint): (r: Run)
    ensures |r.replies| == |ds|
    decreases |ds|
  {
    if |ds| == 0 then Run(im, [])
    else
      var prev := Feed(im, ds[..|ds| - 1], hash);
      var d := ds[|ds| - 1];
      var s := SaveIfUnique(prev.store, d.payload, hash, d.writeFails);
      Run(s.store, prev.replies + [s.reply])
  }

  /** One more delivery is one more call on the store the earlier ones left. */
  lemma FeedSnoc(im: ImageManager, ds: seq<Delivery>, d: Delivery, hash: Payload -> Fingerprint)
    ensures var prev := Feed(im, ds, hash);
            var s := SaveIfUnique(prev.store, d.payload, hash, d.writeFails);
            Feed(im, ds + [d], hash) == Run(s.store, prev.replies + [s.reply])
  {
    assert (ds + [d])[..|ds|] == ds;
  }

  /** A delivery whose fingerprint the store already holds only extends the streak. */
  lemma FeedSnocSeen(im: ImageManager, ds: seq<Delivery>, d: Delivery, hash: Payload -> Fingerprint)
    requires hash(d.payload) in Feed(im, ds, hash).store.hashes
    ensures var prev := Feed(im, ds, hash);
            Feed(im, ds + [d], hash) == Run(prev.store.(repeated := prev.store.repeated + 1), prev.replies + [Reply(false, "")])
  {
    FeedSnoc(im, ds, d, hash);
  }

  function Payloads(ds: seq<Delivery>): (ps: seq<Payload>)
    ensures |ps| == |ds|
    ensures forall i :: 0 <= i < |ds| ==> ps[i] == ds[i].payload
  {
    seq(|ds|, i requires 0 <= i < |ds| => ds[i].payload)
  }

  /** The distinct fingerprints of a sequence of deliveries. */
  function Fingerprints(ds: seq<Delivery>, hash: Payload -> Fingerprint): set<Fingerprint> {
    set p | p in Payloads(ds) :: hash(p)
  }

  /** How many replies announce a new image. */
  function NewCount(rs: seq<Reply>): (n: nat)
    ensures n <= |rs|
    decreases |rs|
  {
    if |rs| == 0 then 0
    else NewCount(rs[..|rs| - 1]) + (if rs[|rs| - 1].isNew then 1 else 0)
  }

  lemma FingerprintsSnoc(ds: seq<Delivery>, d: Delivery, hash: Payload -> Fingerprint)
    ensures Fingerprints(ds + [d], hash) == Fingerprints(ds, hash) + {hash(d.payload)}
  {
    assert Payloads(ds + [d]) == Payloads(ds) + [d.payload];
  }

  lemma {:induction false} NewCountMonotone(rs: seq<Reply>, a: nat, b: nat)
    requires a <= b <= |rs|
    ensures NewCount(rs[..a]) <= NewCount(rs[..b])
    decreases b
  {
    if a < b {
      assert rs[..b][..b - 1] == rs[..b - 1];
      NewCountMonotone(rs, a, b - 1);
    }
  }

  /** After any sequence of calls the store holds exactly the fingerprints it
      started with plus those of the payloads fed. */
  lemma {:induction false} FeedHashes(im: ImageManager, ds: seq<Delivery>, hash: Payload -> Fingerprint)
    ensures Feed(im, ds, hash).store.hashes == im.hashes + Fingerprints(ds, hash)
    decreases |ds|
  {
    if |ds| == 0 {
      assert Payloads(ds) == [];
    } else {
      var init := ds[..|ds| - 1];
      var d := ds[|ds| - 1];
      assert ds == init + [d];
      FeedHashes(im, init, hash);
      FingerprintsSnoc(init, d, hash);
    }
  }

  /** The thresholds never change, and the counter grows by one per new reply. */
  lemma {:induction false} FeedCounter(im: ImageManager, ds: seq<Delivery>, hash: Payload -> Fingerprint)
    ensures var r := Feed(im, ds, hash);
            && r.store.limit == im.limit && r.store.maxUnique == im.maxUnique
            && r.store.counter == im.counter + NewCount(r.replies)
    decreases |ds|
  {
    if |ds| > 0 {
      var init := ds[..|ds| - 1];
      FeedCounter(im, init, hash);
      var r := Feed(im, ds, hash);
      assert r.replies[..|ds| - 1] == Feed(im, init, hash).replies;
    }
  }

  /** Every sequence of calls keeps `counter == |hashes|`. */
  lemma {:induction false} FeedValid(im: ImageManager, ds: seq<Delivery>, hash: Payload -> Fingerprint)
    requires Valid(im)
    ensures Valid(Feed(im, ds, hash).store)
    decreases |ds|
  {
    if |ds| > 0 {
      FeedValid(im, ds[..|ds| - 1], hash);
    }
  }

  /** Each new reply adds one fingerprint and one unique image, so the gap
      between the counter and the number of fingerprints never changes. */
  lemma {:induction false} FeedKeepsGap(im: ImageManager, ds: seq<Delivery>, hash: Payload -> Fingerprint)
    ensures var s := Feed(im, ds, hash).store;
            s.counter - |s.hashes| == im.counter - |im.hashes|
    decreases |ds|
  {
    if |ds| > 0 {
      FeedKeepsGap(im, ds[..|ds| - 1], hash);
    }
  }

  /** The three facts above together. */
  lemma FeedStore(im: ImageManager, ds: seq<Delivery>, hash: Payload -> Fingerprint)
    ensures var r := Feed(im, ds, hash);
            && r.store.hashes == im.hashes + Fingerprints(ds, hash)
            && r.store.limit == im.limit && r.store.maxUnique == im.maxUnique
            && r.store.counter == im.counter + NewCount(r.replies)
            && (Valid(im) ==> Valid(r.store))
  {
    FeedHashes(im, ds, hash);
    FeedCounter(im, ds, hash);
    if Valid(im) {
      FeedValid(im, ds, hash);
    }
  }

  /** The unique counter only grows. */
  lemma CounterGrows(im: ImageManager, ds: seq<Delivery>, hash: Payload -> Fingerprint)
    ensures Feed(im, ds, hash).store.counter >= im.counter
  {
    FeedStore(im, ds, hash);
  }

  /**
   Started from a store with no fingerprints (such as a fresh one), the
   unique counter is the number of distinct fingerprints among the payloads
   fed.
   */
  lemma UniqueCountIsDistinctFingerprints(im: ImageManager, ds: seq<Delivery>, hash: Payload -> Fingerprint)
    requires im.hashes == {} && im.counter == 0
    ensures Feed(im, ds, hash).store.counter == |Fingerprints(ds, hash)|
  {
    FeedHashes(im, ds, hash);
    FeedValid(im, ds, hash);
  }

  /** `Valid` holds after every prefix of a run from a fresh store. */
  lemma ValidAlongRun(limit: int, maxUnique: int, ds: seq<Delivery>, hash: Payload -> Fingerprint)
    ensures forall k :: 0 <= k <= |ds| ==> Valid(Feed(NewImageManager(limit, maxUnique), ds[..k], hash).store)
  {
    forall k | 0 <= k <= |ds|
      ensures Valid(Feed(NewImageManager(limit, maxUnique), ds[..k], hash).store)
    {
      FeedStore(NewImageManager(limit, maxUnique), ds[..k], hash);
    }
  }

  /**
   The `i`-th reply is `true` exactly when the `i`-th payload's fingerprint was
   neither in the starting store nor among the earlier payloads.
   */
  lemma {:induction false} ReplyIsNewIffUnseen(im: ImageManager, ds: seq<Delivery>, hash: Payload -> Fingerprint)
    ensures forall i :: 0 <= i < |ds| ==>
              (Feed(im, ds, hash).replies[i].isNew <==>
               hash(ds[i].payload) !in im.hashes + Fingerprints(ds[..i], hash))
    decreases |ds|
  {
    if |ds| > 0 {
      var n := |ds| - 1;
      var init := ds[..n];
      ReplyIsNewIffUnseen(im, init, hash);
      FeedStore(im, init, hash);
      var r := Feed(im, ds, hash);
      forall i | 0 <= i < |ds|
        ensures r.replies[i].isNew <==> hash(ds[i].payload) !in im.hashes + Fingerprints(ds[..i], hash)
      {
        if i < n {
          assert init[..i] == ds[..i];
          assert r.replies[i] == Feed(im, init, hash).replies[i];
        } else {
          assert ds[..i] == init;
        }
      }
    }
  }

  /** The name the `i`-th reply must carry when the run started at counter `base`. */
  predicate NamedInOrder(rs: seq<Reply>, base: nat, i: nat)
    requires i < |rs|
  {
    if rs[i].isNew then rs[i].fileName == FileName(base + NewCount(rs[..i + 1]))
    else rs[i].fileName == ""
  }

  /**
   Every new reply names the file after the unique counter it produced: the
   `k`-th new reply of the run is the `(counter + k)`-th image. Duplicate
   replies carry the empty name.
   */
  lemma {:induction false} ReplyNames(im: ImageManager, ds: seq<Delivery>, hash: Payload -> Fingerprint)
    ensures forall i :: 0 <= i < |ds| ==> NamedInOrder(Feed(im, ds, hash).replies, im.counter, i)
    decreases |ds|
  {
    if |ds| > 0 {
      var n := |ds| - 1;
      var init := ds[..n];
      ReplyNames(im, init, hash);
      var prev := Feed(im, init, hash).replies;
      var rs := Feed(im, ds, hash).replies;
      assert rs[..n] == prev;
      forall i | 0 <= i < n
        ensures NamedInOrder(rs, im.counter, i)
      {
        NamedInOrderExtends(rs, prev, im.counter, i);
      }
      LastReplyNamed(im, ds, hash);
    }
  }

  /** Naming in order is a property of a prefix, kept when replies are appended. */
  lemma NamedInOrderExtends(rs: seq<Reply>, prev: seq<Reply>, base: nat, i: nat)
    requires |prev| <= |rs| && rs[..|prev|] == prev
    requires i < |prev| && NamedInOrder(prev, base, i)
    ensures NamedInOrder(rs, base, i)
  {
    assert rs[..i + 1] == prev[..i + 1];
  }

  /** The last reply of a run is named after the counter it produced. */
  lemma LastReplyNamed(im: ImageManager, ds: seq<Delivery>, hash: Payload -> Fingerprint)
    requires |ds| > 0
    ensures NamedInOrder(Feed(im, ds, hash).replies, im.counter, |ds| - 1)
  {
    var n := |ds| - 1;
    var init, d := ds[..n], ds[n];
    assert ds == init + [d];
    FeedStore(im, init, hash);
    FeedSnoc(im, init, d, hash);
    var prev := Feed(im, init, hash);
    var s := SaveIfUnique(prev.store, d.payload, hash, d.writeFails);
    var rs := prev.replies + [s.reply];
    assert rs[..n + 1] == rs;
    assert rs[..n] == prev.replies;
    assert NewCount(rs) == NewCount(prev.replies) + (if s.reply.isNew then 1 else 0);
  }

  /** From a fresh store the `k`-th new reply is `image_k.jpg`. */
  lemma SequentialNames(limit: int, maxUnique: int, ds: seq<Delivery>, hash: Payload -> Fingerprint)
    ensures forall i :: 0 <= i < |ds| ==> NamedInOrder(Feed(NewImageManager(limit, maxUnique), ds, hash).replies, 0, i)
  {
    ReplyNames(NewImageManager(limit, maxUnique), ds, hash);
  }

  /** Replies named in order name distinct files. */
  lemma NamedInOrderDistinct(rs: seq<Reply>, base: nat, i: nat, j: nat)
    requires i < j < |rs|
    requires rs[i].isNew && rs[j].isNew
    requires NamedInOrder(rs, base, i) && NamedInOrder(rs, base, j)
    ensures rs[i].fileName != rs[j].fileName
  {
    NewCountMonotone(rs, i + 1, j);
    assert rs[..j + 1][..j] == rs[..j];
    FileNameInjective(base + NewCount(rs[..i + 1]), base + NewCount(rs[..j + 1]));
  }

  /** No two new replies of a run carry the same file name. */
  lemma NamesNeverReused(im: ImageManager, ds: seq<Delivery>, hash: Payload -> Fingerprint)
    ensures var rs := Feed(im, ds, hash).replies;
            forall i, j :: 0 <= i < j < |ds| && rs[i].isNew && rs[j].isNew ==> rs[i].fileName != rs[j].fileName
  {
    var rs := Feed(im, ds, hash).replies;
    ReplyNames(im, ds, hash);
    forall i, j | 0 <= i < j < |ds| && rs[i].isNew && rs[j].isNew
      ensures rs[i].fileName != rs[j].fileName
    {
      NamedInOrderDistinct(rs, im.counter, i, j);
    }
  }

  /**
   Feeding only payloads whose fingerprints the store already holds answers
   `(false, "")` every time and changes nothing but the streak, which grows
   by one per call.
   */
  lemma {:induction false} SeenPayloadsOnlyGrowStreak(im: ImageManager, ds: seq<Delivery>, hash: Payload -> Fingerprint)
    requires forall i :: 0 <= i < |ds| ==> hash(ds[i].payload) in im.hashes
    ensures var r := Feed(im, ds, hash);
            && r.store == im.(repeated := im.repeated + |ds|)
            && forall i :: 0 <= i < |ds| ==> r.replies[i] == Reply(false, "")
    decreases |ds|
  {
    if |ds| > 0 {
      SeenPayloadsOnlyGrowStreak(im, ds[..|ds| - 1], hash);
    }
  }

  /**
   Idempotence: the same payload `N >= 1` times in a row, when its
   fingerprint is unseen, gives one new reply followed by `N - 1` duplicates,
   one more unique image, and a streak of `N - 1`.
   */
  lemma {:induction false} RepeatedPayload(im: ImageManager, p: Payload, ds: seq<Delivery>, hash: Payload -> Fingerprint)
    requires |ds| >= 1
    requires forall i :: 0 <= i < |ds| ==> ds[i].payload == p
    requires hash(p) !in im.hashes
    ensures var r := Feed(im, ds, hash);
            && r.replies[0] == Reply(true, FileName(im.counter + 1))
            && (forall i :: 1 <= i < |ds| ==> r.replies[i] == Reply(false, ""))
            && r.store.counter == im.counter + 1
            && r.store.repeated == |ds| - 1
            && r.store.hashes == im.hashes + {hash(p)}
    decreases |ds|
  {
    if |ds| > 1 {
      var init := ds[..|ds| - 1];
      RepeatedPayload(im, p, init, hash);
      var r := Feed(im, ds, hash);
      assert r.replies[..|ds| - 1] == Feed(im, init, hash).replies;
    }
  }

  /** Once the cap is reached, the store stays stopped whatever comes next. */
  lemma CapIsPermanent(im: ImageManager, ds: seq<Delivery>, hash: Payload -> Fingerprint)
    requires im.maxUnique > 0 && im.counter >= im.maxUnique
    ensures ShouldStop(Feed(im, ds, hash).store)
  {
    FeedStore(im, ds, hash);
  }

  /** A run of already-seen payloads at least as long as the remaining
      streak budget stops the store. */
  lemma {:induction false} DuplicateRunStops(im: ImageManager, ds: seq<Delivery>, hash: Payload -> Fingerprint)
    requires forall i :: 0 <= i < |ds| ==> hash(ds[i].payload) in im.hashes
    requires |ds| >= im.limit - im.repeated
    ensures ShouldStop(Feed(im, ds, hash).store)
  {
    SeenPayloadsOnlyGrowStreak(im, ds, hash);
  }

  /**
   The order in which downloads complete does not change which fingerprints
   are remembered, nor the unique count: any two orders of the same multiset
   of payloads agree on both.
   */
  lemma {:induction false} CompletionOrderIrrelevant(im: ImageManager, ds1: seq<Delivery>, ds2: seq<Delivery>, hash: Payload -> Fingerprint)
    requires multiset(Payloads(ds1)) == multiset(Payloads(ds2))
    ensures Feed(im, ds1, hash).store.hashes == Feed(im, ds2, hash).store.hashes
    ensures Feed(im, ds1, hash).store.counter == Feed(im, ds2, hash).store.counter
  {
    FeedHashes(im, ds1, hash);
    FeedHashes(im, ds2, hash);
    SamePayloadsSameFingerprints(ds1, ds2, hash);
    FeedKeepsGap(im, ds1, hash);
    FeedKeepsGap(im, ds2, hash);
  }

  /** Reordering the payloads does not change their set of fingerprints. */
  lemma SamePayloadsSameFingerprints(ds1: seq<Delivery>, ds2: seq<Delivery>, hash: Payload -> Fingerprint)
    requires multiset(Payloads(ds1)) == multiset(Payloads(ds2))
    ensures Fingerprints(ds1, hash) == Fingerprints(ds2, hash)
  {
    forall p
      ensures p in Payloads(ds1) <==> p in Payloads(ds2)
    {
      assert p in Payloads(ds1) <==> p in multiset(Payloads(ds1));
      assert p in Payloads(ds2) <==> p in multiset(Payloads(ds2));
    }
  }
}
