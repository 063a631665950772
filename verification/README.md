# Shared-canvas pixel placement server, modelled in Dafny

The server keeps one PNG image (the canvas) that signed-in users change one
pixel at a time. A Google ID token proves who the caller is, and each account
(keyed by its e-mail) may place one pixel every five minutes. The canvas lives
in `./static/image.png` and is mirrored, base64-encoded with a data-URI
header, in Redis under the key `image`. Redis also holds one cooldown record
per e-mail: its value is the expiry time in Unix seconds, and its TTL is 300 s.

This project models the pipeline as pure functions over immutable values:

- `Raster`: the canvas as a `width × height` grid of RGBA colours, with
  `generateBlankImage`'s all-white canvas and `drawPixelToImage`'s
  bounds-checked single-cell rewrite. Each is written twice: once as a
  reference function, and once as a method whose loops copy the Go code's
  pixel loops. The two are proved equal.
- `Cooldown`: the rate-limit block as a `map<string, int>` of expiry times,
  with the current time passed in. A record counts as absent once
  `now >= expiresAt`, which stands in for Redis deleting it at its TTL.
- `Auth`: the bearer-header parsing (`strings.HasPrefix`,
  `strings.TrimSpace`), the verifier as an opaque function from token to
  outcome, and the e-mail claim lookup.
- `DataUri`: the `data:image/png;base64,` and `data:image/jpeg;base64,`
  headers that `imageToBase64String` adds and `base64ToPng` removes.
- `Decimal`: `strconv.FormatInt(n, 10)`, which renders the stored expiry
  that a rate-limited caller gets back, plus its inverse.
- `Server`: start-up's choice of canvas, and the `/set_pixel` handler as one
  step from (Authorization values, verifier, now, bound body, state) to
  (reply, state). The state is the cooldown map, the canvas, and the canvas
  whose encoding the cache holds.

The model follows the code, including these behaviours, which a cleaner design would change:

- Start-up looks only at Redis. If Redis holds no image, a blank canvas is
  written over the image file even if the file already exists, and Redis is
  not written until the first placement.
- The cooldown is a separate `Get` followed by a `Set`, not one atomic
  get-or-set. The model is a single sequential step, so the race does not
  show in it.
- An off-canvas coordinate is answered with HTTP 200 and status `error`. A
  body that does not bind is answered with HTTP 400.
- Cache faults during a request end the process (`log.Fatal`). They are not
  modelled as typed errors.

## Model

| member | source | states |
|---|---|---|
| Decimal.Digits | server.go:460 | the decimal digits of a natural number: at least one, all `0`–`9`, and a leading `0` only when the whole string is "0", for the number 0 |
| Decimal.FormatInt | server.go:460 | the rendering of the expiry that is stored in the cache: a leading `-` exactly for negative values, then digits with no leading zero (a leading `0` only in the string "0") |
| Decimal.ParseDigitsOfDigits | server.go:460 | reading the digits of `n` back gives `n` |
| Decimal.FormatIntRoundTrip | server.go:460 | the stored expiry string parses back to the expiry, so nothing is lost by storing it as text |
| Decimal.FormatIntInjective | server.go:473-477 | two different expiry times never give the same `ratelimit` message |
| Text.LeadingSpaces | server.go:409 | the length of the longest white-space prefix: every character before it is Go white space and the next one is not |
| Text.TrailingSpaces | server.go:409 | the same for the longest white-space suffix |
| Text.TrimSpace | server.go:409 | `strings.TrimSpace`: the result is a slice of the input that neither starts nor ends with white space, and only white space was cut on either side |
| Text.TrimSpaceOfTrimmed | server.go:409 | a string with no white space at its ends is left as it is |
| Text.TrimSpaceIdempotent | server.go:409 | trimming twice gives the same result as trimming once |
| Text.TrimSpaceUndoesPadding | server.go:409 | white space added around a trimmed string is exactly what trimming removes |
| DataUri.AddPrefix | server.go:90-98 | `imageToBase64String`'s result: `image/png` text gets the PNG header, `image/jpeg` text the JPEG header, and text of any other MIME type is returned without a header |
| DataUri.StripPrefix | server.go:43-49 | if the data starts with the PNG header or the JPEG header, the result is the rest after that header; otherwise the data is returned unchanged |
| DataUri.HeadersExclusive | server.go:43-49 | no string starts with both headers, so the order of the two tests does not matter |
| DataUri.Base64HasNoHeader | server.go:98 | base64 text never starts with either header, because `:` is not in the base64 alphabet |
| DataUri.StripUndoesAdd | server.go:90-98 | for every MIME type and every base64 payload, removing the header gives back exactly the payload the header was added to |
| Raster.Blank | server.go:244-256 | the canvas built on a cache miss has the requested width and height, and every cell in `[0,width) × [0,height)` is white |
| Raster.GenerateBlank | server.go:252-256 | `generateBlankImage`'s nested loop over columns and rows builds that all-white canvas |
| Raster.Draw | server.go:302-328 | an x outside `[0,width)` gives ("Invalid x coordinate for pixel.", error) with the canvas unchanged. Otherwise a y outside `[0,height)` gives the y message with the canvas unchanged. Otherwise the result is success, the size is kept, the target cell holds the new colour and every other cell keeps its old colour |
| Raster.DrawPixelToImage | server.go:313-328 | `drawPixelToImage`'s copy loop, taking the new colour at the target cell and the old colour elsewhere, gives exactly the result of `Draw` |
| Raster.DrawIdempotent | server.go:319-328 | placing the same colour twice at a cell gives the same result as placing it once |
| Raster.DrawDistinctCellsCommute | server.go:319-328 | placements at two different cells give the same canvas in either order, so both survive |
| Raster.DrawSameCellLastWins | server.go:322-323 | of two placements at the same cell, the later colour stays |
| Cooldown.Reserve | server.go:446-479 | the request is denied exactly when a live record exists. A denial reports the stored expiry verbatim and writes nothing. An allowance writes expiry `now + 300` for that identity and leaves every other record as it was |
| Cooldown.ExpiredRecordActsAbsent | server.go:454-460 | an expired record behaves exactly as if the cache had already deleted it at its TTL |
| Cooldown.DeniedWithinWindow | server.go:470-478 | after an allowance at `now`, any attempt before `now + 300` is denied with expiry `now + 300` and changes nothing |
| Cooldown.AllowedAfterWindow | server.go:452-460 | after an allowance at `now`, an attempt at or after `now + 300` is allowed with a fresh expiry |
| Cooldown.ReplayRespectsExistingRecord | server.go:446-479 | while a record is in force, none of a sequence of attempts is allowed before that record expires |
| Cooldown.ReplayAllowedAreSpaced | server.go:445-479 | over any sequence of attempts by one identity, in any time order, any two allowed attempts are at least 300 s apart |
| Auth.ParseBearer | server.go:401-409 | a token exists exactly when there is at least one Authorization value and the first starts with "Bearer ". The token is the rest after that prefix, with white space trimmed from both ends |
| Auth.BearerRoundTrip | server.go:401-409 | a first header "Bearer " + padding + token + padding gives back that token, whatever other values follow |
| Auth.BearerHeaderAuthenticates | server.go:399-443 | a first header "Bearer " + padding + token + padding, with any values after it, authenticates exactly as the verifier's verdict on that token decides: its rejection reason, the unmarshal error, the missing-e-mail error, or the e-mail claim |
| Auth.Authenticate | server.go:411-443 | the stages run in order: bearer check, verifier, claims parse, e-mail claim. The first one to fail picks the refusal message (the verifier's reason is passed through as it is). Success gives the e-mail claim as the identity |
| Auth.AuthenticateDependsOnlyOnToken | server.go:412 | the verifier sees only the parsed token, so two headers with the same token authenticate the same way |
| Server.InitialCanvas | server.go:239-271 | on a cache miss the canvas is all white at the configured size, and sizes PNG cannot hold end the process. A cache fault ends the process. A cached image is decoded from its text after the header is removed, whatever size is configured, and an image that will not decode ends the process. On a hit the cached image is kept and equals the new canvas; on a miss nothing is cached |
| Server.StartupDecodesSavedPayload | server.go:266-270 | a cached image that the server wrote itself reaches the decoder as exactly its base64 text |
| Server.PlacedColor | server.go:493-494 | the colour a request places takes R, G and B from the body as given, with alpha always 0xFF |
| Server.BindAndDraw | server.go:481-499 | after the reservation: a body that does not bind answers 400 with the input-error message. Otherwise the reply is 200 with `Draw`'s status and message, and the canvas is `Draw`'s canvas. The reservation is never undone. The canvas and the cached image change only on success, and then the cache gets the new canvas |
| Server.RateLimitAndPlace | server.go:445-499 | `ratelimit` is answered exactly when the identity has a live record, with its stored expiry and no state change. Otherwise the identity's `now + 300` record is written first, and then the body is bound and drawn |
| Server.HandleSetPixel | server.go:391-500 | a refused authentication answers 400 with its reason and changes nothing. An authenticated request goes on to the cooldown stage under the e-mail identity |
| Server.HandlerEffects | server.go:391-500 | a request changes the cooldown map only by adding its caller's fresh record. The canvas and the cached image change only when a pixel is placed: the canvas becomes `Draw`'s result, and the cache then holds that canvas |
| Server.ReservationPrecedesBodyCheck | server.go:452-490 | for an authenticated identity with no live record, a body that does not bind is refused with 400, and the reservation stays. The canvas is not touched |
| Server.OffCanvasRequestStillReserves | server.go:492-499 | a first request in the window with an off-canvas x or y gets the x or y error (x is checked first) with HTTP 200. The canvas is kept and the window is still used up |
| Server.AcceptedPlacement | server.go:492-499 | an accepted placement sets its cell to the requested R, G, B with alpha 0xFF and keeps every other cell and the size. It also refreshes the cached image and records `now + 300` |
| Server.RetryWithinWindowIsRateLimited | server.go:446-479 | whatever happened to an authenticated identity's first request of a window, a later request by that identity inside the window gets `ratelimit` with the first request's expiry and changes nothing |
| Server.RetryAfterWindowIsAdmitted | server.go:446-466 | after the window, the same identity passes the rate limit again and gets a fresh expiry |
| Server.HandlerKeepsCoherent | server.go:330-338 | every request keeps the cached image either absent or equal to the canvas in the image file |
| Server.BlankCanvasScenario | server.go:391-500 | on a blank 32 × 32 canvas, "a" places opaque red at (0,0). A retry a minute later is rate limited with the first expiry. After the window, a placement at (32,0) fails on x and the canvas stays the same |

## Left out

- Cooldown.AllowedAfterWindow: an attempt it allows at or after `now + 300` may still be rate limited by the server for up to about a second, because of the sub-second TTL gap described under the Redis client below.
- Server.RetryAfterWindowIsAdmitted: a retry it admits at or after `now + 300` may still be rate limited by the server for up to about a second, because of the sub-second TTL gap described under the Redis client below.
- Server.BlankCanvasScenario: its request at exactly `now + 300` is the earliest moment the server can allow, not a guarantee, because of the sub-second TTL gap described under the Redis client below.
- PNG and JPEG encoding and decoding, base64 encoding, and MIME sniffing (`image.Decode`, `png.Encode`, `base64.StdEncoding`, `http.DetectContentType`). These are library calls. The canvas stands for the decoded image. At start-up, decoding is an opaque function parameter, and the MIME type and base64 text are opaque inputs.
- Colour precision of decoded images. The model takes the image file to hold `Draw`'s canvas exactly. That is exact for opaque cells, which covers everything the server writes itself: the white canvas and placements with alpha 0xFF. A cell of a cached image that is not opaque is different. Every placement writes it as premultiplied 8-bit RGBA, the PNG encoder stores it with straight alpha, and the next placement reads it back and premultiplies it again. So it can lose precision on every placement, not only the first: (128,128,128,2) becomes (127,127,127,2) in the file, then (0,0,0,2). Raster.Draw, Server.AcceptedPlacement and Server.BindAndDraw keep such cells unchanged, where the Go server does not. Only the PNG decoder is registered, so a cached JPEG fails to decode and is the `decode` → `None` case.
- The Redis client (`setupRedisClient`, its test key, `saveCurrentImageToRedis`'s network write). `setupRedisClient` also reads the key `key` and ends the process if it is missing, so start-up gets as far as `InitialCanvas` only when Redis already holds `key`. The cooldown records are a map, and the cached image is the canvas it encodes. TTL deletion is the `now >= expiresAt` test, and the model assumes the server clock and Redis's clock agree. The stored expiry is truncated to whole seconds, while Redis starts the 300 s TTL at the moment of the `Set`. So Redis can keep a record up to about a second past the stored expiry: a request at 1000.7 s stores "1300", and a retry at 1300.2 s still gets `ratelimit` from the server.
- Identities that collide with the cache's other keys (`image`, `testKey`, `key`). The Go server uses the e-mail itself as a Redis key in the same keyspace, so an identity equal to `image` would be rate limited forever with the cached image as the message. The model keeps cooldown records in a map of their own. Real Google e-mails contain `@`, so such identities do not occur in practice.
- `verifyGoogleToken`: an HTTPS call and JSON parsing of Google's reply. It is an opaque function from token to `Rejected(reason)` or `Verified(claims)`, and claims that do not parse as a string map are `None`.
- Reading the configuration (`readEnvironmentVariables`). Width and height are parameters, and the cooldown records found in Redis at start-up are the initial state.
- The image file I/O, gin routing, CORS and no-cache headers, static file serving, and logging.
- `log.Fatal` on a cache or file fault during a request. Start-up faults are modelled as `Abort`. Faults during a request are not modelled, because the model's cache and file cannot fail.
- Concurrency. The Go server takes no locks, and its `Get` then `Set` on the cooldown is not atomic. The model is one sequential request at a time.
- Wall-clock time. `now` is a parameter in Unix seconds. 64-bit overflow of `now + 300` is not modelled.
- Header canonicalisation and trimming by `net/http`. Authorization values are taken as the handler receives them. Strings are sequences of Unicode scalar values, so invalid UTF-8 in a header is not modelled.
- JSON body binding. The body is already bound (`Some`) or failed to bind (`None`). Go's limits on `int` and `uint8` binding show up only as a `None` body.
- Server.InitialCanvas: the out-of-memory failure of `image.NewRGBA` for very large encodable sizes is not modelled. Only sizes PNG cannot encode (zero, negative, or at least 2^32) end the process.
