/**
 One download task (`downloadWorker` in main.go), minus its concurrency.

 The task derives a cache-busting URL from its id, performs one GET and, only
 when that yields status 200 and a fully read body, hands the body to the
 store. The network is not modelled: what the endpoint did is an input
 (`Response`), and the request built from the URL is left abstract.
 */
module Worker {
  import opened Store

  datatype Option<T> = None | Some(value: T)

  /** `strings.Repeat(string(c), n)`. */
  function Repeat(c: char, n: nat): (s: string)
    ensures |s| == n
    ensures forall i :: 0 <= i < n ==> s[i] == c
    decreases n
  {
    if n == 0 then [] else Repeat(c, n - 1) + [c]
  }

  /**
   The URL task `id` requests: the base URL followed by `id` question marks,
   so that every task asks for a textually different URL.
   */
  function Variant(baseUrl: string, id: nat): (url: string)
    ensures |url| == |baseUrl| + id
    ensures url[..|baseUrl|] == baseUrl
    ensures forall i :: |baseUrl| <= i < |url| ==> url[i] == '?'
  {
    baseUrl + Repeat('?', id)
  }

  /** Recovers the task id from a URL, if the URL is a variant of `baseUrl`. */
  function VariantId(baseUrl: string, url: string): (id: Option<nat>)
  {
    if |baseUrl| <= |url| && url[..|baseUrl|] == baseUrl
       && forall i :: |baseUrl| <= i < |url| ==> url[i] == '?'
    then Some(|url| - |baseUrl|)
    else None
  }

  /** `VariantId` inverts `Variant`, and accepts nothing else. */
  lemma VariantRoundTrip(baseUrl: string, id: nat, url: string)
    ensures VariantId(baseUrl, Variant(baseUrl, id)) == Some(id)
    ensures VariantId(baseUrl, url) == Some(id) ==> url == Variant(baseUrl, id)
  {
    if VariantId(baseUrl, url) == Some(id) {
      var v := Variant(baseUrl, id);
      assert url == url[..|baseUrl|] + url[|baseUrl|..];
      assert v == v[..|baseUrl|] + v[|baseUrl|..];
      assert url[|baseUrl|..] == v[|baseUrl|..];
    }
  }

  /** Distinct tasks request distinct URLs. */
  lemma VariantInjective(baseUrl: string, i: nat, j: nat)
    ensures Variant(baseUrl, i) == Variant(baseUrl, j) <==> i == j
  {
  }

  const StatusOK: int := 200

  /** The outcome of reading a response body. */
  datatype BodyRead = ReadFailed | ReadAll(bytes: Payload)

  /**
   What happened to the request: it could not be built, the transport
   failed, or a response arrived with a status code and (read only when the
   status is 200) a body.
   */
  datatype Response =
    | RequestError
    | TransportError
    | Received(status: int, body: BodyRead)

  /** One task's view of the world: the endpoint's answer and whether the
      disk write of a unique payload fails. */
  datatype Task = Task(response: Response, writeFails: bool)

  /**
   The payload a response delivers to the store: present only for status 200
   with a fully read body; every other outcome returns before the store is
   touched.
   */
  function Downloaded(response: Response): (p: Option<Payload>)
    ensures p.Some? <==> response.Received? && response.status == StatusOK && response.body.ReadAll?
    ensures p.Some? ==> p.value == response.body.bytes
  {
    match response
    case RequestError => None
    case TransportError => None
    case Received(status, body) =>
      if status != StatusOK then None
      else match body
        case ReadFailed => None
        case ReadAll(bytes) => Some(bytes)
  }

  /** The log line a task ends with. */
  datatype Log =
    | RequestFailed
    | DownloadFailed
    | InvalidStatus(status: int)
    | BodyUnreadable
    | NewImage(fileName: string)
    | RepeatedImage

  datatype Outcome = Outcome(url: string, store: ImageManager, log: Log)

  /**
   Runs task `id` against the store. A failure of any kind is logged and
   leaves the store exactly as it was (neither a unique find nor a
   duplicate); a downloaded body goes through `SaveIfUnique`, and the log
   line reports its reply.
   */
  function Work(im: ImageManager, id: nat, baseUrl: string, task: Task, hash: Payload -> Fingerprint): (o: Outcome)
    ensures o.url == Variant(baseUrl, id)
    ensures Downloaded(task.response).None? ==> o.store == im && !o.log.NewImage? && !o.log.RepeatedImage?
    ensures Downloaded(task.response).Some? ==>
              var s := SaveIfUnique(im, Downloaded(task.response).value, hash, task.writeFails);
              && o.store == s.store
              && o.log == (if s.reply.isNew then NewImage(s.reply.fileName) else RepeatedImage)
  {
    var url := Variant(baseUrl, id);
    match task.response
    case RequestError => Outcome(url, im, RequestFailed)
    case TransportError => Outcome(url, im, DownloadFailed)
    case Received(status, body) =>
      if status != StatusOK then Outcome(url, im, InvalidStatus(status))
      else match body
        case ReadFailed => Outcome(url, im, BodyUnreadable)
        case ReadAll(bytes) =>
          var s := SaveIfUnique(im, bytes, hash, task.writeFails);
          Outcome(url, s.store, if s.reply.isNew then NewImage(s.reply.fileName) else RepeatedImage)
  }

  /** Each failure kind is reported by its own log line. */
  lemma FailuresAreLogged(im: ImageManager, id: nat, baseUrl: string, task: Task, hash: Payload -> Fingerprint)
    ensures task.response.RequestError? ==> Work(im, id, baseUrl, task, hash).log == RequestFailed
    ensures task.response.TransportError? ==> Work(im, id, baseUrl, task, hash).log == DownloadFailed
    ensures task.response.Received? && task.response.status != StatusOK ==>
              Work(im, id, baseUrl, task, hash).log == InvalidStatus(task.response.status)
    ensures task.response == Received(StatusOK, ReadFailed) ==> Work(im, id, baseUrl, task, hash).log == BodyUnreadable
  {
  }
}
