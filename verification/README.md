# lambda-resize-image: verified model of key derivation and request handling

This project models the core of an on-demand image resizing proxy. A request names a stored
image key and may give a width and a height. The handler checks its configuration, the key and
the size. It then either redirects to the original or fetches it, resizes it, stores the JPEG
derivative under a size-qualified key and redirects there.

The model has five modules:

- `Wrappers` (`wrappers.dfy`): `Option`.
- `Decimal` (`decimal.dfy`): how a template literal prints a whole number, plus a parser
  that inverts it. The round trip shows that distinct sizes never print alike.
- `Keys` (`keys.dfy`): `generateS3Key`. A key is split at its last `/`, as the greedy pattern
  `(.*)/(.*)` does. A truthy width inserts a `{width}x{height|AUTO}` directory between the
  prefix and the filename.
- `Sizes` (`sizes.dfy`): the `IMAGE_SIZES` allow-list and `includes` on it.
- `Handler` (`handler.dfy`) and `HandlerProperties` (`handler_properties.dfy`): `imageprocess`.
  - `Decide` is the ordered chain of checks, and it picks a plan.
  - `Execute` runs that plan against a bucket (a map from key to stored object) and an opaque
    codec. It records every external call in a trace of `GetObject`, `Transform` and
    `PutObject` events, each marked as succeeded or failed.
  - `Handle` is `Execute` after `Decide`.

Query parameters arrive already parsed, as `Option<int>`. `None` stands for both a missing
parameter and `NaN`. JavaScript truthiness is modelled by `Keys.Truthy`: `None` and `0` are
falsy, and every other integer, negative ones included, is truthy. `BUCKET` is a string, and
`""` covers both "unset" and "empty", since both are falsy. A path key whose percent-decoding
throws is `Request.key == None`. The model answers `Thrown` before any other check, because
the decode happens first in the handler.

A consequence of the code as written, proved as `HandlerProperties.RootKeyResizeOverwritesOriginal`:
`generateS3Key` returns a key without `/` unchanged. A successful resize of such a key
therefore writes the JPEG derivative over the original object. Keys that contain `/` are never
overwritten (`HandlerProperties.OriginalPreserved`).

Two details of the source worth stating:
- `IMAGE_SIZES` (src/handler.js:14) ends with the string `'AUTO'`. The handler compares a parsed number
  against the list, so the `'AUTO'` entry never matches (`Sizes.AllowedExactly`).
- Only `BUCKET` is checked (src/handler.js:27). `URL` is never checked.

## Model

| member | source | states |
|---|---|---|
| Keys.LastSlashIsLast | src/lib/utils.js:7 | the greedy first group stops at a `/` exactly when the key has one, and no `/` follows the one it stops at |
| Keys.SplitReassembles | src/lib/utils.js:58-65 | the pattern matches exactly the keys containing `/`; prefix + `/` + filename gives the key back, and the filename has no `/` |
| Keys.SplitLastSlash | src/lib/utils.js:58-65 | the split is at the last `/`: (prefix, filename) is the split of a key if and only if key = prefix + `/` + filename with no `/` in filename |
| Keys.SplitExamples | src/lib/utils.js:7 | `photos/beach.jpg` splits into `photos` and `beach.jpg`; `a/b/c.jpg` keeps `a/b` whole as its prefix |
| Keys.VariantKeyUnchanged | src/lib/utils.js:58-74 | a key with no `/` is returned unchanged for every size; with a falsy width (absent, 0 or NaN) the key is unchanged too, so a height alone never changes it |
| Keys.VariantLayout | src/lib/utils.js:64-71 | with a truthy width the result is prefix + `/` + `{width}x{height or AUTO}` + `/` + filename |
| Keys.VariantKeepsPrefixAndFilename | src/lib/utils.js:71-74 | every result begins with the original prefix and `/`, and ends with `/` and the original filename |
| Keys.VariantSplitsToFilename | src/lib/utils.js:71 | splitting a variant key again yields the original filename, under the directory prefix + `/` + size segment |
| Keys.VariantNeverOriginal | src/lib/utils.js:69-71 | with a truthy width and a `/` in the key, the variant key is strictly longer than the original and differs from it |
| Keys.SizeSegmentInjective | src/lib/utils.js:66-71 | the `{width}x{height}` segment determines the width and the height part, in both directions |
| Keys.HeightSegmentInjective | src/lib/utils.js:67 | two heights print alike if and only if both are falsy (AUTO) or both are the same truthy number |
| Keys.VariantInjective | src/lib/utils.js:71 | for one original key and truthy widths, two sizes give the same variant key if and only if they have the same width and the same height segment |
| Keys.PhotosExample | src/lib/utils.js:66-71 | `photos/beach.jpg` at width 640 maps to `photos/640xAUTO/beach.jpg`, and with height 480 to `photos/640x480/beach.jpg` |
| Decimal.ParseIntToString | src/lib/utils.js:71 | parsing the printed form of any integer gives that integer back |
| Decimal.DigitsParseNat | src/lib/utils.js:71 | printing the value of a canonical numeral gives the numeral back (the other direction of the round trip) |
| Decimal.IntToStringInjective | src/lib/utils.js:71 | two integers print alike if and only if they are equal |
| Sizes.Includes | src/handler.js:78 | the scan reports a width as included if and only if some entry of the list is that pixel width |
| Sizes.AllowedExactly | src/handler.js:14 | a width passes the allow-list if and only if it is one of the twelve pixel widths; the `'AUTO'` entry matches no number |
| Handler.Decide | src/handler.js:20-87 | only an undecodable key gives the throw plan; a resize plan needs a bucket, a non-empty key and an accepted truthy width, and names the key's variant; a serve-original plan needs both sizes falsy |
| Handler.Execute | src/handler.js:58-116 | rejections make no call and leave the bucket as it was; serving the original makes exactly one read; a redirect is sent if and only if the last call in the trace succeeded |
| HandlerProperties.MalformedKeyThrows | src/handler.js:20-23 | a key whose decoding throws ends the request before the bucket check, with no call |
| HandlerProperties.ConfigCheckFirst | src/handler.js:27-34 | an unset BUCKET gives 404 `Error: Set environment variables BUCKET.`, whatever the key and size, with no call |
| HandlerProperties.EmptyKeyNotFound | src/handler.js:36-47 | an empty key gives 404 `Error: Image not found.` with no call |
| HandlerProperties.ServeOriginalOnlyReads | src/handler.js:58-75 | with width and height both falsy, the only call is one read of the key; if it is found the answer redirects to `URL/key`, otherwise the failure is passed on; nothing is written |
| HandlerProperties.InvalidSizeRejected | src/handler.js:76-87 | once some size is given, the answer is 403 `Error: Invalid image size.` if and only if the width is falsy or not accepted; such a reply makes no call |
| HandlerProperties.HeightOnlyRejected | src/handler.js:58-87 | a truthy height with a falsy width is always refused with 403 |
| HandlerProperties.ResizePath | src/handler.js:89-116 | an accepted width reads the key, then transforms it, then makes one write of a `image/jpeg`, `public-read`, `public, max-age=31536000` object at the variant key, then redirects to `URL/` + that same key; each step runs only after the previous one succeeded, and a failure is passed on |
| HandlerProperties.TraceDiscipline | src/handler.js:89-116 | every trace has at most three calls and at most one write; a write comes only after a successful read and a successful transform; no call follows a failed one; replaying the trace's successful writes on the initial bucket gives the final bucket |
| HandlerProperties.NoWriteWithoutRedirect | src/handler.js:27-116 | any answer other than a redirect leaves the bucket unchanged; direct replies and throws make no call at all |
| HandlerProperties.RedirectTargetStored | src/handler.js:63-108 | every redirect names `URL/` + the request's variant key (the key itself when no width is given), and that object is in the bucket afterwards |
| HandlerProperties.OriginalPreserved | src/handler.js:96-103 | an original whose key contains `/` is never modified by any request for it |
| HandlerProperties.RootKeyResizeOverwritesOriginal | src/handler.js:96-103 | for a key without `/`, a successful resize redirects to the key itself and replaces the original object with the JPEG derivative |

## Left out

- `src/lib/image.js` is not part of this model. `imageprocess` does not use it (src/handler.js:6 imports only `generateS3Key`). That file's crop/resize/head-check branches each derive their key with `generateS3Key`.
- `resizeCallback` (src/lib/utils.js:13-51) is left out. It is temp-file reading, an S3 `putObject` and an `unlink`, all I/O.
- The S3 client, network behaviour and error objects are abstracted. A read fails exactly when the key is missing from the bucket. A write fails when the `putAccepted` flag is false. Failures become the `Failure` datatype, not the SDK's error objects.
- The sharp resize and JPEG encoding are an opaque parameter `codec` that may fail. Image dimensions and pixel content are not modelled.
- The `expires` header is left out because it is computed from the wall clock. The constant CORS headers, logging and the identity `holdBuffer` are left out too.
- The status code of redirects is the string `'308'` in the source and appears in the model only as the `Redirect` response.
- `decodeURIComponent` and `parseInt` are not modelled; the request carries their results. A missing `pathParameters` (a `TypeError` in the source) is folded into the same `Thrown` outcome as a malformed escape.
- An unset `URL` environment variable prints as `undefined` in the location; the model takes the URL as a string.
- Keys containing line terminators are left out. In the source, `.` does not match them and the pattern may split elsewhere; the model always splits at the last `/`.
- Decimal.IntToString: prints plain digits for every integer. JavaScript switches to exponent notation from 1e21 up, and `parseInt` loses precision above 2^53. Such heights are not modelled faithfully.
- `imageprocess` has no existence check before resizing. Every accepted request reads, resizes and writes again, so no cache-hit path is modelled.
