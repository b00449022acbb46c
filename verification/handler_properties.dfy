/**
 * What `imageprocess` promises, stated over every input: the order of its
 * checks, that rejections touch no storage, that the one write happens only
 * after a successful read and transform, and that every redirect names an
 * object that is in the bucket afterwards.
 */
module HandlerProperties {
  import opened Wrappers
  import Keys
  import Sizes
  import opened Handler

  /** A key that cannot be decoded throws before the bucket is even looked at. */
  lemma MalformedKeyThrows(env: Env, req: Request, store: Store, codec: Codec, putAccepted: bool)
    requires req.key.None?
    ensures var o := Handle(env, req, store, codec, putAccepted);
      o.response == Thrown && o.trace == [] && o.store == store
  {
  }

  /** An unset BUCKET is reported before the key is checked and before any storage call. */
  lemma ConfigCheckFirst(env: Env, req: Request, store: Store, codec: Codec, putAccepted: bool)
    requires req.key.Some? && env.bucket == ""
    ensures var o := Handle(env, req, store, codec, putAccepted);
      o.response == Reply(404, BucketMessage) && o.trace == [] && o.store == store
  {
  }

  /** An empty key is not found, whatever the size, with no storage call. */
  lemma EmptyKeyNotFound(env: Env, req: Request, store: Store, codec: Codec, putAccepted: bool)
    requires env.bucket != "" && req.key == Some("")
    ensures var o := Handle(env, req, store, codec, putAccepted);
      o.response == Reply(404, NotFoundMessage) && o.trace == [] && o.store == store
  {
  }

  /** With neither a truthy width nor a truthy height, the handler only reads the key and redirects to it. */
  lemma ServeOriginalOnlyReads(env: Env, req: Request, store: Store, codec: Codec, putAccepted: bool)
    requires env.bucket != "" && req.key.Some? && req.key.value != ""
    requires !Keys.Truthy(req.width) && !Keys.Truthy(req.height)
    ensures var k := req.key.value;
      var o := Handle(env, req, store, codec, putAccepted);
      && o.trace == [GetObject(k, k in store)]
      && o.store == store
      && o.response == (if k in store then Redirect(env.url + "/" + k) else Failed(NoSuchKey(k)))
  {
  }

  /** Once some size is requested, the request is refused with 403 and no storage call exactly when
      the width is falsy or not one of the accepted widths. */
  lemma InvalidSizeRejected(env: Env, req: Request, store: Store, codec: Codec, putAccepted: bool)
    requires env.bucket != "" && req.key.Some? && req.key.value != ""
    requires Keys.Truthy(req.width) || Keys.Truthy(req.height)
    ensures var o := Handle(env, req, store, codec, putAccepted);
      (o.response == Reply(403, InvalidSizeMessage))
        <==> !Keys.Truthy(req.width) || req.width.value !in Sizes.AcceptedWidths
    ensures var o := Handle(env, req, store, codec, putAccepted);
      o.response.Reply? ==> o.trace == [] && o.store == store
  {
    DecideSizeCheck(env, req);
    ExecuteReplies(env, Decide(env, req), store, codec, putAccepted);
  }

  lemma DecideSizeCheck(env: Env, req: Request)
    requires env.bucket != "" && req.key.Some? && req.key.value != ""
    requires Keys.Truthy(req.width) || Keys.Truthy(req.height)
    ensures Decide(env, req).InvalidSize? || Decide(env, req).Resize?
    ensures Decide(env, req).InvalidSize? <==> !Keys.Truthy(req.width) || req.width.value !in Sizes.AcceptedWidths
  {
    if Keys.Truthy(req.width) {
      Sizes.AllowedExactly(req.width.value);
    }
  }

  /** Only the rejection plans reply directly, each with its own status and message, and without a call. */
  lemma ExecuteReplies(env: Env, p: Plan, store: Store, codec: Codec, putAccepted: bool)
    ensures var o := Execute(env, p, store, codec, putAccepted);
      (o.response == Reply(403, InvalidSizeMessage) <==> p.InvalidSize?)
      && (o.response.Reply? ==> o.trace == [] && o.store == store)
  {
  }

  /** A height without a width is always refused: height alone never selects a variant. */
  lemma HeightOnlyRejected(env: Env, req: Request, store: Store, codec: Codec, putAccepted: bool)
    requires env.bucket != "" && req.key.Some? && req.key.value != ""
    requires Keys.Truthy(req.height) && !Keys.Truthy(req.width)
    ensures var o := Handle(env, req, store, codec, putAccepted);
      o.response == Reply(403, InvalidSizeMessage) && o.trace == []
  {
  }

  /** Running a resize plan: read, transform, write, redirect, stopping at the first failure. */
  lemma ExecuteResize(env: Env, src: string, variant: string, width: int, store: Store, codec: Codec, putAccepted: bool)
    ensures var o := Execute(env, Resize(src, variant, width), store, codec, putAccepted);
      && (src !in store ==>
            o.trace == [GetObject(src, false)] && o.response == Failed(NoSuchKey(src)) && o.store == store)
      && (src in store && codec(store[src].body, width).None? ==>
            o.trace == [GetObject(src, true), Transform(width, false)]
            && o.response == Failed(TransformFailed) && o.store == store)
      && (src in store && codec(store[src].body, width).Some? ==>
            var obj := StoredObject(codec(store[src].body, width).value, "image/jpeg", "public-read", "public, max-age=31536000");
            o.trace == [GetObject(src, true), Transform(width, true), PutObject(variant, obj, putAccepted)]
            && o.response == (if putAccepted then Redirect(env.url + "/" + variant) else Failed(PutRejected(variant)))
            && o.store == (if putAccepted then store[variant := obj] else store))
  {
  }

  /** A request with an accepted width is planned as a resize of its key into its variant key. */
  lemma DecideResize(env: Env, req: Request)
    requires env.bucket != "" && req.key.Some? && req.key.value != ""
    requires Keys.Truthy(req.width) && req.width.value in Sizes.AcceptedWidths
    ensures Decide(env, req)
         == Resize(req.key.value, Keys.VariantKey(req.key.value, Keys.Size(req.width, req.height)), req.width.value)
  {
    Sizes.AllowedExactly(req.width.value);
  }

  /** The resize path: read the original, transform it, write one public JPEG at the variant key,
      and redirect to that same key; each step runs only if the previous one succeeded. */
  lemma ResizePath(env: Env, req: Request, store: Store, codec: Codec, putAccepted: bool)
    requires env.bucket != "" && req.key.Some? && req.key.value != ""
    requires Keys.Truthy(req.width) && req.width.value in Sizes.AcceptedWidths
    ensures var k := req.key.value;
      var w := req.width.value;
      var v := Keys.VariantKey(k, Keys.Size(req.width, req.height));
      var o := Handle(env, req, store, codec, putAccepted);
      && (k !in store ==>
            o.trace == [GetObject(k, false)] && o.response == Failed(NoSuchKey(k)) && o.store == store)
      && (k in store && codec(store[k].body, w).None? ==>
            o.trace == [GetObject(k, true), Transform(w, false)]
            && o.response == Failed(TransformFailed) && o.store == store)
      && (k in store && codec(store[k].body, w).Some? ==>
            var obj := StoredObject(codec(store[k].body, w).value, "image/jpeg", "public-read", "public, max-age=31536000");
            o.trace == [GetObject(k, true), Transform(w, true), PutObject(v, obj, putAccepted)]
            && o.response == (if putAccepted then Redirect(env.url + "/" + v) else Failed(PutRejected(v)))
            && o.store == (if putAccepted then store[v := obj] else store))
  {
    var k := req.key.value;
    var v := Keys.VariantKey(k, Keys.Size(req.width, req.height));
    DecideResize(env, req);
    ExecuteResize(env, k, v, req.width.value, store, codec, putAccepted);
  }

  /** The four traces the handler can leave: nothing, one read, a read and a failed transform, or a
      read, a successful transform and a write. */
  predicate Shaped(t: seq<Event>) {
    || t == []
    || (|t| == 1 && t[0].GetObject?)
    || (|t| == 2 && t[0].GetObject? && t[0].found && t[1].Transform? && !t[1].ok)
    || (|t| == 3 && t[0].GetObject? && t[0].found && t[1].Transform? && t[1].ok && t[2].PutObject?)
  }

  lemma ShapedDiscipline(t: seq<Event>)
    requires Shaped(t)
    ensures |t| <= 3 && Writes(t) <= 1
    ensures WritesAfterReadAndTransform(t) && StopsAtFirstFailure(t)
  {
    if |t| == 3 {
      assert t[1..][1..] == [t[2]] && t[1..][1..][1..] == [];
    } else if |t| == 2 {
      assert t[1..][1..] == [];
    } else if |t| == 1 {
      assert t[1..] == [];
    }
  }

  lemma ReplayShaped(store: Store, t: seq<Event>)
    requires Shaped(t)
    ensures Replay(store, t) == (if |t| == 3 && t[2].ok then store[t[2].key := t[2].obj] else store)
  {
    if |t| == 3 {
      var last := t[1..][1..];
      assert last == [t[2]] && last[1..] == [];
      var after := if t[2].ok then store[t[2].key := t[2].obj] else store;
      assert Replay(store, last) == Replay(after, []);
      assert Replay(store, t[1..]) == Replay(store, last);
    } else if |t| == 2 {
      assert t[1..][1..] == [];
      assert Replay(store, t[1..]) == Replay(store, []);
    } else if |t| == 1 {
      assert t[1..] == [];
    }
  }

  lemma ExecuteShaped(env: Env, p: Plan, store: Store, codec: Codec, putAccepted: bool)
    ensures var o := Execute(env, p, store, codec, putAccepted);
      Shaped(o.trace)
      && o.store == (if |o.trace| == 3 && o.trace[2].ok then store[o.trace[2].key := o.trace[2].obj] else store)
  {
  }

  /** Every trace the handler produces is well ordered, holds at most one write, and explains the
      final bucket: replaying its successful writes on the initial bucket gives the final one. */
  lemma TraceDiscipline(env: Env, req: Request, store: Store, codec: Codec, putAccepted: bool)
    ensures var o := Handle(env, req, store, codec, putAccepted);
      && |o.trace| <= 3
      && Writes(o.trace) <= 1
      && WritesAfterReadAndTransform(o.trace)
      && StopsAtFirstFailure(o.trace)
      && o.store == Replay(store, o.trace)
  {
    var o := Handle(env, req, store, codec, putAccepted);
    ExecuteShaped(env, Decide(env, req), store, codec, putAccepted);
    ShapedDiscipline(o.trace);
    ReplayShaped(store, o.trace);
  }

  /** A refusal or failure writes nothing. */
  lemma NoWriteWithoutRedirect(env: Env, req: Request, store: Store, codec: Codec, putAccepted: bool)
    ensures var o := Handle(env, req, store, codec, putAccepted);
      !o.response.Redirect? ==> o.store == store
    ensures var o := Handle(env, req, store, codec, putAccepted);
      o.response.Reply? || o.response.Thrown? ==> o.trace == []
  {
    ExecuteNoWriteWithoutRedirect(env, Decide(env, req), store, codec, putAccepted);
  }

  lemma ExecuteNoWriteWithoutRedirect(env: Env, p: Plan, store: Store, codec: Codec, putAccepted: bool)
    ensures var o := Execute(env, p, store, codec, putAccepted);
      (!o.response.Redirect? ==> o.store == store)
      && (o.response.Reply? || o.response.Thrown? ==> o.trace == [])
  {
  }

  /** Every redirect names `URL/` followed by the variant key of the request (the key itself when no
      width is given), and that object is in the bucket when the redirect is sent. */
  lemma RedirectTargetStored(env: Env, req: Request, store: Store, codec: Codec, putAccepted: bool)
    ensures var o := Handle(env, req, store, codec, putAccepted);
      o.response.Redirect? ==>
        req.key.Some?
        && var target := Keys.VariantKey(req.key.value, Keys.Size(req.width, req.height));
        o.response.location == env.url + "/" + target && target in o.store
  {
    var p := Decide(env, req);
    ExecuteRedirectTarget(env, p, store, codec, putAccepted);
    if p.ServeOriginal? {
      Keys.VariantKeyUnchanged(req.key.value, Keys.Size(req.width, req.height));
    }
  }

  lemma ExecuteRedirectTarget(env: Env, p: Plan, store: Store, codec: Codec, putAccepted: bool)
    ensures var o := Execute(env, p, store, codec, putAccepted);
      o.response.Redirect? ==>
        || (p.ServeOriginal? && o.response.location == env.url + "/" + p.key && p.key in o.store)
        || (p.Resize? && o.response.location == env.url + "/" + p.variant && p.variant in o.store)
  {
  }

  /** An original whose key contains '/' is never modified by a request for it. */
  lemma OriginalPreserved(env: Env, req: Request, store: Store, codec: Codec, putAccepted: bool)
    requires req.key.Some? && '/' in req.key.value && req.key.value in store
    ensures var o := Handle(env, req, store, codec, putAccepted);
      req.key.value in o.store && o.store[req.key.value] == store[req.key.value]
  {
    var k := req.key.value;
    var p := Decide(env, req);
    if p.Resize? {
      Keys.VariantNeverOriginal(k, Keys.Size(req.width, req.height));
    }
    ExecuteKeepsOtherKeys(env, p, store, codec, putAccepted, k);
  }

  /** Only the variant key of a resize plan can change. */
  lemma ExecuteKeepsOtherKeys(env: Env, p: Plan, store: Store, codec: Codec, putAccepted: bool, k: string)
    requires k in store && !(p.Resize? && p.variant == k)
    ensures var o := Execute(env, p, store, codec, putAccepted);
      k in o.store && o.store[k] == store[k]
  {
  }

  /** A key without '/' has no variant address, so a successful resize writes the derivative over
      the original itself. */
  lemma RootKeyResizeOverwritesOriginal(env: Env, req: Request, store: Store, codec: Codec)
    requires env.bucket != "" && req.key.Some? && req.key.value != "" && '/' !in req.key.value
    requires Keys.Truthy(req.width) && req.width.value in Sizes.AcceptedWidths
    requires req.key.value in store && codec(store[req.key.value].body, req.width.value).Some?
    ensures var k := req.key.value;
      var o := Handle(env, req, store, codec, true);
      o.response == Redirect(env.url + "/" + k)
      && k in o.store && o.store[k] == Derivative(codec(store[k].body, req.width.value).value)
  {
    var k := req.key.value;
    Keys.VariantKeyUnchanged(k, Keys.Size(req.width, req.height));
    DecideResize(env, req);
    ExecuteResize(env, k, k, req.width.value, store, codec, true);
  }
}
