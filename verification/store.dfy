/**
 The deduplication store `ImageManager` of main.go.

 The store is an immutable record and its two operations are pure
 transitions: the mutex of the Go type serialises every `SaveIfUnique` and
 `ShouldStop`, so each is one atomic step here.

 The fingerprint (an MD5 digest printed as lower-case hex) is kept opaque:
 every operation takes the fingerprint function `hash` as a parameter and
 nothing about it is assumed, so the store deduplicates on `hash(payload)`
 and never on the payload itself.
 */
module Store {
  import opened Decimal

  newtype byte = b: int | 0 <= b < 256

  type Payload = seq<byte>

  type Fingerprint = string

  /** The fields of the Go struct, minus its mutex; `hashes` is the key set of
      the `map[string]bool`, whose values are only ever `true`. */
  datatype ImageManager = ImageManager(
    hashes: set<Fingerprint>,
    counter: nat,
    repeated: nat,
    limit: int,
    maxUnique: int)

  /** What `SaveIfUnique` returns to its caller: `(true, name)` or `(false, "")`. */
  datatype Reply = Reply(isNew: bool, fileName: string)

  /** One call of `SaveIfUnique`: the store after it, the reply, and whether
      the failed file write was logged. */
  datatype Step = Step(store: ImageManager, reply: Reply, writeErrorLogged: bool)

  /** The store's invariant: one unique image per remembered fingerprint. */
  predicate Valid(im: ImageManager) {
    im.counter == |im.hashes|
  }

  /** A fresh store: no fingerprints, both counters zero, the two thresholds
      taken from the caller. */
  function NewImageManager(repeatLimit: int, maxUnique: int): (im: ImageManager)
    ensures Valid(im)
    ensures im.hashes == {} && im.repeated == 0
    ensures im.limit == repeatLimit && im.maxUnique == maxUnique
  {
    ImageManager({}, 0, 0, repeatLimit, maxUnique)
  }

  /** The name under which the `n`-th unique image is written: the counter's
      decimal digits between the prefix `image_` and the suffix `.jpg`. */
  function FileName(n: nat): (name: string)
    ensures |name| == |NatToString(n)| + 10
    ensures name[..6] == "image_" && name[|name| - 4..] == ".jpg"
    ensures name[6..|name| - 4] == NatToString(n)
  {
    "image_" + NatToString(n) + ".jpg"
  }

  /** Different counters give different file names, so no file is overwritten. */
  lemma FileNameInjective(a: nat, b: nat)
    ensures FileName(a) == FileName(b) ==> a == b
  {
    if FileName(a) == FileName(b) {
      NatToStringInjective(a, b);
    }
  }

  /**
   Records `data` unless its fingerprint is already known.

   A known fingerprint bumps the duplicate streak and answers `(false, "")`;
   an unknown one is remembered, bumps the unique counter, clears the streak
   and answers `(true, FileName(counter))` with the new counter. `writeFails`
   is the outcome of writing the payload to disk: it is only logged, so the
   store and the reply do not depend on it.
   */
  function SaveIfUnique(im: ImageManager, data: Payload, hash: Payload -> Fingerprint, writeFails: bool): (r: Step)
    ensures r.reply.isNew <==> hash(data) !in im.hashes
    ensures r.store.hashes == im.hashes + {hash(data)}
    ensures r.store.limit == im.limit && r.store.maxUnique == im.maxUnique
    ensures !r.reply.isNew ==>
              && r.store == im.(repeated := im.repeated + 1)
              && r.reply.fileName == ""
              && !r.writeErrorLogged
    ensures r.reply.isNew ==>
              && r.store.counter == im.counter + 1
              && r.store.repeated == 0
              && r.reply.fileName == FileName(r.store.counter)
              && (r.writeErrorLogged <==> writeFails)
    ensures Valid(im) ==> Valid(r.store)
  {
    var fp := hash(data);
    if fp in im.hashes then
      Step(im.(repeated := im.repeated + 1), Reply(false, ""), false)
    else
      var counter := im.counter + 1;
      Step(im.(counter := counter, hashes := im.hashes + {fp}, repeated := 0),
           Reply(true, FileName(counter)),
           writeFails)
  }

  /** A failed disk write changes neither the store nor the reply. */
  lemma WriteFailureIgnored(im: ImageManager, data: Payload, hash: Payload -> Fingerprint)
    ensures SaveIfUnique(im, data, hash, true).store == SaveIfUnique(im, data, hash, false).store
    ensures SaveIfUnique(im, data, hash, true).reply == SaveIfUnique(im, data, hash, false).reply
  {
  }

  /** The stop condition: a long enough duplicate streak, or (when a cap is
      set, i.e. positive) enough unique images. Without a positive cap only
      the streak decides; below the streak threshold only a reached cap stops;
      a reached threshold stops whatever the cap. */
  function ShouldStop(im: ImageManager): (stop: bool)
    ensures im.maxUnique <= 0 ==> (stop <==> im.repeated >= im.limit)
    ensures im.repeated < im.limit ==> (stop <==> im.maxUnique > 0 && im.counter >= im.maxUnique)
    ensures im.repeated >= im.limit ==> stop
  {
    im.repeated >= im.limit || (im.maxUnique > 0 && im.counter >= im.maxUnique)
  }

  /** A duplicate never clears the stop condition. */
  lemma DuplicateKeepsStop(im: ImageManager, data: Payload, hash: Payload -> Fingerprint, writeFails: bool)
    requires ShouldStop(im)
    requires hash(data) in im.hashes
    ensures ShouldStop(SaveIfUnique(im, data, hash, writeFails).store)
  {
  }

  /** A unique payload clears the streak, so afterwards the store is stopped
      exactly when the threshold is not positive or the cap has been reached. */
  lemma UniqueResetsStreak(im: ImageManager, data: Payload, hash: Payload -> Fingerprint, writeFails: bool)
    requires hash(data) !in im.hashes
    ensures var s := SaveIfUnique(im, data, hash, writeFails).store;
            ShouldStop(s) <==> im.limit <= 0 || (im.maxUnique > 0 && im.counter + 1 >= im.maxUnique)
  {
  }
}
