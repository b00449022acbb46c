/**
 * The request handler `imageprocess` of src/handler.js with its storage and
 * codec calls made explicit.
 *
 * `Decide` is the ordered chain of checks that picks a plan; `Execute` runs
 * a plan against a bucket (a map from key to object) and an opaque codec,
 * recording every external call in a trace. A request is answered in one of
 * four ways: a direct reply (the early 404/403 returns), a 308 redirect, an
 * upstream failure handed to `context.fail`, or an exception thrown while
 * decoding the path parameter.
 */
module Handler {
  import opened Wrappers
  import Keys
  import Sizes

  type Bytes = seq<bv8>

  /** `sharp(body).resize(width).toFormat('jpeg').toBuffer()`: fails on input it cannot decode. */
  type Codec = (Bytes, int) -> Option<Bytes>

  datatype StoredObject = StoredObject(body: Bytes, contentType: string, acl: string, cacheControl: string)

  /** The contents of the configured bucket. */
  type Store = map<string, StoredObject>

  /** Process environment: `BUCKET` ("" when unset or empty, both falsy) and the public base `URL`. */
  datatype Env = Env(bucket: string, url: string)

  /** The decoded path key (`None` when `decodeURIComponent` throws) and the parsed width and height. */
  datatype Request = Request(key: Option<string>, width: Keys.Param, height: Keys.Param)

  /** One external call and whether it succeeded. */
  datatype Event =
    | GetObject(key: string, found: bool)
    | Transform(width: int, ok: bool)
    | PutObject(key: string, obj: StoredObject, ok: bool)
  {
    predicate Succeeded() {
      match this
      case GetObject(_, found) => found
      case Transform(_, ok) => ok
      case PutObject(_, _, ok) => ok
    }
  }

  datatype Failure = NoSuchKey(key: string) | TransformFailed | PutRejected(key: string)

  datatype Response =
    | Reply(status: int, body: string)   // `return callback(null, {statusCode, body})`
    | Redirect(location: string)         // `context.succeed({statusCode: '308', headers: {location}})`
    | Failed(failure: Failure)           // `context.fail(err)`
    | Thrown                             // `decodeURIComponent` raised before any check

  datatype Plan =
    | Malformed
    | ConfigError
    | NotFound
    | InvalidSize
    | ServeOriginal(key: string)
    | Resize(src: string, variant: string, width: int)

  datatype Outcome = Outcome(response: Response, trace: seq<Event>, store: Store)

  const BucketMessage := "Error: Set environment variables BUCKET."
  const NotFoundMessage := "Error: Image not found."
  const InvalidSizeMessage := "Error: Invalid image size."
  const JpegType := "image/jpeg"
  const PublicRead := "public-read"
  const CacheForever := "public, max-age=31536000"

  /** The ordered checks of `imageprocess`, before any storage call. */
  function Decide(env: Env, req: Request): (p: Plan)
    ensures p == Malformed <==> req.key.None?
    ensures p.Resize? ==>
      && env.bucket != "" && req.key == Some(p.src) && p.src != ""
      && req.width == Some(p.width) && Keys.Truthy(req.width) && Sizes.Allowed(p.width)
      && p.variant == Keys.VariantKey(p.src, Keys.Size(req.width, req.height))
    ensures p.ServeOriginal? ==>
      env.bucket != "" && req.key == Some(p.key) && p.key != ""
      && !Keys.Truthy(req.width) && !Keys.Truthy(req.height)
  {
    if req.key.None? then Malformed
    else if env.bucket == "" then ConfigError
    else if req.key.value == "" then NotFound
    else if !Keys.Truthy(req.width) && !Keys.Truthy(req.height) then ServeOriginal(req.key.value)
    else if !Keys.Truthy(req.width) || !Sizes.Allowed(req.width.value) then InvalidSize
    else
      var size := Keys.Size(req.width, req.height);
      Resize(req.key.value, Keys.VariantKey(req.key.value, size), req.width.value)
  }

  /** The object a resize stores: a public, far-future-cached JPEG. */
  function Derivative(body: Bytes): StoredObject {
    StoredObject(body, JpegType, PublicRead, CacheForever)
  }

  /** Runs a plan: the storage reads and writes and the codec call, in order, stopping at the first failure. */
  function Execute(env: Env, p: Plan, store: Store, codec: Codec, putAccepted: bool): (o: Outcome)
    ensures !p.Resize? && !p.ServeOriginal? ==> o.trace == [] && o.store == store
    ensures p.ServeOriginal? ==> o.trace == [GetObject(p.key, p.key in store)] && o.store == store
    ensures o.response.Redirect? <==> (p.ServeOriginal? || p.Resize?) && o.trace != [] && Last(o.trace).Succeeded()
  {
    match p
    case Malformed => Outcome(Thrown, [], store)
    case ConfigError => Outcome(Reply(404, BucketMessage), [], store)
    case NotFound => Outcome(Reply(404, NotFoundMessage), [], store)
    case InvalidSize => Outcome(Reply(403, InvalidSizeMessage), [], store)
    case ServeOriginal(key) =>
      if key in store then Outcome(Redirect(env.url + "/" + key), [GetObject(key, true)], store)
      else Outcome(Failed(NoSuchKey(key)), [GetObject(key, false)], store)
    case Resize(src, variant, width) =>
      if src !in store then Outcome(Failed(NoSuchKey(src)), [GetObject(src, false)], store)
      else
        var read := GetObject(src, true);
        match codec(store[src].body, width)
        case None => Outcome(Failed(TransformFailed), [read, Transform(width, false)], store)
        case Some(jpeg) =>
          var obj := Derivative(jpeg);
          if putAccepted then
            Outcome(Redirect(env.url + "/" + variant), [read, Transform(width, true), PutObject(variant, obj, true)],
                    store[variant := obj])
          else
            Outcome(Failed(PutRejected(variant)), [read, Transform(width, true), PutObject(variant, obj, false)], store)
  }

  function Last(t: seq<Event>): Event
    requires t != []
  {
    t[|t| - 1]
  }

  /** `imageprocess(event, context, callback)`. */
  function Handle(env: Env, req: Request, store: Store, codec: Codec, putAccepted: bool): Outcome {
    Execute(env, Decide(env, req), store, codec, putAccepted)
  }

  // ---------------------------------------------------------------------------
  // Reference views of a trace

  /** The bucket after applying the successful writes of a trace, in order. */
  function Replay(store: Store, t: seq<Event>): Store
    decreases |t|
  {
    if t == [] then store
    else
      var next := match t[0]
        case PutObject(key, obj, true) => store[key := obj]
        case _ => store;
      Replay(next, t[1..])
  }

  /** Every write comes after a successful read and a successful transform. */
  predicate WritesAfterReadAndTransform(t: seq<Event>) {
    forall i :: 0 <= i < |t| && t[i].PutObject? ==>
      (exists j :: 0 <= j < i && t[j].GetObject? && t[j].found)
      && (exists k :: 0 <= k < i && t[k].Transform? && t[k].ok)
  }

  /** No call follows a failed one. */
  predicate StopsAtFirstFailure(t: seq<Event>) {
    forall i :: 0 <= i < |t| - 1 ==> t[i].Succeeded()
  }

  /** The number of write calls in a trace. */
  function Writes(t: seq<Event>): nat
    decreases |t|
  {
    if t == [] then 0 else (if t[0].PutObject? then 1 else 0) + Writes(t[1..])
  }
}
