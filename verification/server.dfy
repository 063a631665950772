/**
  The server's pixel-placement pipeline with the cache, the image file and
  the HTTP layer replaced by values: start-up picks the canvas, and one
  `/set_pixel` request maps the server state to a reply and a new state.
 */
module Server {
  import opened Common
  import opened Decimal
  import opened DataUri
  import opened Raster
  import opened Cooldown
  import opened Auth

  /** The request body once bound: coordinates and three 8-bit channels. */
  datatype PixelRequest = PixelRequest(x: int, y: int, red: byte, green: byte, blue: byte)

  /**
    What the server holds between requests: the cooldown records, the canvas
    in the image file, and the canvas whose encoding the cache holds under its
    image key (`None` until something has been written there).
   */
  datatype State = State(cooldowns: Records, canvas: Canvas, mirror: Option<Canvas>)

  datatype Step = Step(reply: Reply, next: State)

  const InvalidBodyMessage := "Invalid request. Please verify your inputs are valid and within the canvas."

  /** The cached image, if any, is an encoding of the canvas in the image file. */
  predicate Coherent(st: State)
  {
    st.mirror.None? || st.mirror.value == st.canvas
  }

  /** The colour a request places: its three channels, fully opaque. */
  function PlacedColor(p: PixelRequest): (c: Color)
    ensures c.r == p.red && c.g == p.green && c.b == p.blue
    ensures c.a == 0xFF
  {
    Color(p.red, p.green, p.blue, Opaque)
  }

  /** What reading the cached image at start-up returned. */
  datatype CacheRead = Miss | Hit(data: string) | Unreachable

  /** The canvas (and cached image) the server starts with, or the process ends. */
  datatype Boot = Ready(canvas: Canvas, mirror: Option<Canvas>) | Abort

  /** Image dimensions a PNG file can hold. */
  predicate EncodableSize(width: int, height: int)
  {
    0 < width < 0x1_0000_0000 && 0 < height < 0x1_0000_0000
  }

  /**
    `generateBlankImage`: with no cached image, a white canvas of the
    configured size (negative or unencodable sizes end the process); with a
    cached image, the image decoded from its base64 text after the data-URI
    header is removed, whatever the configured size; a cache fault or an
    undecodable image ends the process. `decode` stands for base64 and image
    decoding.
   */
  function InitialCanvas(width: int, height: int, cached: CacheRead, decode: string -> Option<Canvas>): (b: Boot)
    ensures cached.Miss? && EncodableSize(width, height) ==>
      b.Ready? && b.mirror.None? && b.canvas.width == width && b.canvas.height == height &&
      forall x, y :: InBounds(b.canvas, x, y) ==> At(b.canvas, x, y) == White
    ensures cached.Miss? && !EncodableSize(width, height) ==> b.Abort?
    ensures cached.Unreachable? ==> b.Abort?
    ensures cached.Hit? ==> (b.Ready? <==> decode(StripPrefix(cached.data)).Some?)
    ensures cached.Hit? && b.Ready? ==> b.canvas == decode(StripPrefix(cached.data)).value
    ensures cached.Hit? && b.Ready? ==> b.mirror == Some(b.canvas)
    ensures b.Ready? ==> Coherent(State(map[], b.canvas, b.mirror))
  {
    match cached
    case Miss =>
      if EncodableSize(width, height) then Ready(Blank(width, height), None) else Abort
    case Unreachable => Abort
    case Hit(data) =>
      match decode(StripPrefix(data))
      case Some(c) => Ready(c, Some(c))
      case None => Abort
  }

  /** A cached image written by the server itself reaches the decoder as exactly its base64 text. */
  lemma StartupDecodesSavedPayload(width: int, height: int, mime: string, b: string, decode: string -> Option<Canvas>)
    requires IsBase64Text(b)
    ensures InitialCanvas(width, height, Hit(AddPrefix(mime, b)), decode)
         == (match decode(b) case Some(c) => Ready(c, Some(c)) case None => Abort)
  {
    StripUndoesAdd(mime, b);
  }

  /**
    The stages after a successful reservation: bind the body, then draw. The
    reservation in `reserved` stays whatever happens; the canvas and the
    cached image change only when the pixel is placed.
   */
  function BindAndDraw(body: Option<PixelRequest>, reserved: State): (r: Step)
    ensures r.next.cooldowns == reserved.cooldowns
    ensures body.None? ==> r == Step(Reply(400, Error, InvalidBodyMessage), reserved)
    ensures r.reply.status != RateLimit
    ensures r.reply.status != Success ==> r.next.canvas == reserved.canvas && r.next.mirror == reserved.mirror
    ensures r.reply.status == Success ==>
      body.Some? && InBounds(reserved.canvas, body.value.x, body.value.y) &&
      r.reply == Reply(200, Success, PlacedMessage) &&
      r.next.canvas == Draw(reserved.canvas, body.value.x, body.value.y, PlacedColor(body.value)).canvas &&
      r.next.mirror == Some(r.next.canvas)
    ensures body.Some? ==>
      var d := Draw(reserved.canvas, body.value.x, body.value.y, PlacedColor(body.value));
      r.reply == Reply(200, d.status, d.message) && r.next.canvas == d.canvas
  {
    match body
    case None => Step(Reply(400, Error, InvalidBodyMessage), reserved)
    case Some(p) =>
      var d := Draw(reserved.canvas, p.x, p.y, PlacedColor(p));
      var mirror := if d.status == Success then Some(d.canvas) else reserved.mirror;
      Step(Reply(200, d.status, d.message), reserved.(canvas := d.canvas, mirror := mirror))
  }

  /**
    The stages after authentication: the cooldown check-and-reserve, then,
    if the identity was not rate limited, the body and the drawing.
   */
  function RateLimitAndPlace(email: string, now: int, body: Option<PixelRequest>, st: State): (r: Step)
    ensures r.reply.status == RateLimit <==> Live(st.cooldowns, email, now)
    ensures Live(st.cooldowns, email, now) ==>
      r == Step(Reply(200, RateLimit, FormatInt(st.cooldowns[email])), st)
    ensures !Live(st.cooldowns, email, now) ==>
      r == BindAndDraw(body, st.(cooldowns := st.cooldowns[email := now + WindowSeconds]))
  {
    var res := Reserve(st.cooldowns, email, now);
    match res.decision
    case Denied(expiresAt) => Step(Reply(200, RateLimit, FormatInt(expiresAt)), st)
    case Allowed(_) => BindAndDraw(body, st.(cooldowns := res.records))
  }

  /**
    The `/set_pixel` handler. The stages run in the Go handler's order and the first
    failure answers: authentication, cooldown check-and-reserve, body
    binding, drawing. The cooldown is reserved before the body is looked at.
   */
  function HandleSetPixel(authorization: seq<string>, verify: string -> Verification, now: int,
                          body: Option<PixelRequest>, st: State): (r: Step)
    ensures Authenticate(authorization, verify).Refused? ==>
      r == Step(Reply(400, Error, Authenticate(authorization, verify).reason), st)
    ensures Authenticate(authorization, verify).Identified? ==>
      r == RateLimitAndPlace(Authenticate(authorization, verify).email, now, body, st)
  {
    match Authenticate(authorization, verify)
    case Refused(reason) => Step(Reply(400, Error, reason), st)
    case Identified(email) => RateLimitAndPlace(email, now, body, st)
  }

  /**
    What any request can do to the state: the cooldown map only gains the
    caller's fresh record, and the canvas and the cached image change only
    when a pixel is placed, and then together.
   */
  lemma HandlerEffects(authorization: seq<string>, verify: string -> Verification, now: int,
                       body: Option<PixelRequest>, st: State)
    ensures var r := HandleSetPixel(authorization, verify, now, body, st);
      && (r.next.cooldowns == st.cooldowns ||
          (Authenticate(authorization, verify).Identified? &&
           r.next.cooldowns == st.cooldowns[Authenticate(authorization, verify).email := now + WindowSeconds]))
      && (r.reply.status != Success ==> r.next.canvas == st.canvas && r.next.mirror == st.mirror)
      && (r.reply.status == Success ==>
            && r.next.mirror == Some(r.next.canvas) && body.Some?
            && r.next.canvas == Draw(st.canvas, body.value.x, body.value.y, PlacedColor(body.value)).canvas)
  {
  }

  /**
    A first request of the window whose body does not bind is refused, yet
    the reservation it made stays and the canvas is untouched. (Through
    `HandleSetPixel`'s contract this is what an authenticated request gets.)
   */
  lemma ReservationPrecedesBodyCheck(email: string, now: int, st: State)
    requires !Live(st.cooldowns, email, now)
    ensures RateLimitAndPlace(email, now, None, st)
         == Step(Reply(400, Error, InvalidBodyMessage), st.(cooldowns := st.cooldowns[email := now + WindowSeconds]))
  {
  }

  /**
    A first request of the window with an off-canvas coordinate is answered
    with the x or y error, keeps the canvas, and still consumes the window.
   */
  lemma OffCanvasRequestStillReserves(authorization: seq<string>, verify: string -> Verification, now: int,
                                      p: PixelRequest, st: State, email: string)
    requires Authenticate(authorization, verify) == Identified(email)
    requires !Live(st.cooldowns, email, now)
    requires !InBounds(st.canvas, p.x, p.y)
    ensures var r := HandleSetPixel(authorization, verify, now, Some(p), st);
      && r.reply.code == 200 && r.reply.status == Error
      && r.reply.message == (if 0 <= p.x < st.canvas.width then InvalidYMessage else InvalidXMessage)
      && r.next == st.(cooldowns := st.cooldowns[email := now + WindowSeconds])
  {
    var reserved := st.(cooldowns := st.cooldowns[email := now + WindowSeconds]);
    assert HandleSetPixel(authorization, verify, now, Some(p), st) == BindAndDraw(Some(p), reserved);
    var d := Draw(st.canvas, p.x, p.y, PlacedColor(p));
    assert d.canvas == st.canvas && d.status == Error;
  }

  /**
    An accepted placement sets its cell to the requested channels with full
    alpha, keeps every other cell and the canvas size, and refreshes the
    cached image.
   */
  lemma AcceptedPlacement(authorization: seq<string>, verify: string -> Verification, now: int,
                          p: PixelRequest, st: State, email: string)
    requires Authenticate(authorization, verify) == Identified(email)
    requires !Live(st.cooldowns, email, now)
    requires InBounds(st.canvas, p.x, p.y)
    ensures var r := HandleSetPixel(authorization, verify, now, Some(p), st);
      && r.reply == Reply(200, Success, PlacedMessage)
      && r.next.canvas.width == st.canvas.width && r.next.canvas.height == st.canvas.height
      && At(r.next.canvas, p.x, p.y) == Color(p.red, p.green, p.blue, 0xFF)
      && (forall i, j :: InBounds(st.canvas, i, j) && (i != p.x || j != p.y) ==>
            At(r.next.canvas, i, j) == At(st.canvas, i, j))
      && r.next.mirror == Some(r.next.canvas)
      && r.next.cooldowns == st.cooldowns[email := now + WindowSeconds]
  {
  }

  /**
    Whatever became of the first request of a window (placed, refused for its
    body, off the canvas), a later request by the same identity inside the
    window is answered "ratelimit" with the expiry the first one reserved, and
    changes nothing.
   */
  lemma RetryWithinWindowIsRateLimited(email: string, now: int, body1: Option<PixelRequest>,
                                       later: int, body2: Option<PixelRequest>, st: State)
    requires !Live(st.cooldowns, email, now)
    requires later < now + WindowSeconds
    ensures var s1 := RateLimitAndPlace(email, now, body1, st).next;
      RateLimitAndPlace(email, later, body2, s1) == Step(Reply(200, RateLimit, FormatInt(now + WindowSeconds)), s1)
  {
  }

  /** Once the window has passed, the same identity gets through the rate limit with a fresh window. */
  lemma RetryAfterWindowIsAdmitted(email: string, now: int, body1: Option<PixelRequest>,
                                   later: int, body2: Option<PixelRequest>, st: State)
    requires !Live(st.cooldowns, email, now)
    requires later >= now + WindowSeconds
    ensures var s1 := RateLimitAndPlace(email, now, body1, st).next;
      var r := RateLimitAndPlace(email, later, body2, s1);
      r.reply.status != RateLimit && r.next.cooldowns == s1.cooldowns[email := later + WindowSeconds]
  {
  }

  /** The cached image never disagrees with the image file: requests keep `Coherent`. */
  lemma HandlerKeepsCoherent(authorization: seq<string>, verify: string -> Verification, now: int,
                             body: Option<PixelRequest>, st: State)
    requires Coherent(st)
    ensures Coherent(HandleSetPixel(authorization, verify, now, body, st).next)
  {
  }

  /** The identity "a", authenticated with token "t", as a verifier would report it. */
  function VerifierForA(token: string): Verification
  {
    if token == "t" then Verified(Some(map["email" := "a"])) else Rejected("invalid token")
  }

  /**
    On a blank 32 × 32 canvas, "a" places opaque red at (0, 0); a retry a
    minute later at (32, 0) is rate limited with the first expiry, and the
    same request after the window fails on x without touching the canvas.
   */
  lemma BlankCanvasScenario(now: int)
    ensures var st := State(map[], Blank(32, 32), None);
      var red := PixelRequest(0, 0, 255, 0, 0);
      var off := PixelRequest(32, 0, 255, 0, 0);
      var s1 := HandleSetPixel(["Bearer t"], VerifierForA, now, Some(red), st);
      var s2 := HandleSetPixel(["Bearer t"], VerifierForA, now + 60, Some(off), s1.next);
      var s3 := HandleSetPixel(["Bearer t"], VerifierForA, now + 300, Some(off), s1.next);
      && s1.reply == Reply(200, Success, PlacedMessage)
      && At(s1.next.canvas, 0, 0) == Color(255, 0, 0, 255)
      && s2 == Step(Reply(200, RateLimit, FormatInt(now + 300)), s1.next)
      && s3.reply == Reply(200, Error, InvalidXMessage)
      && s3.next.canvas == s1.next.canvas
  {
    BearerRoundTrip("", "t", "", []);
    assert BearerPrefix + "" + "t" + "" == "Bearer t";
    assert ParseBearer(["Bearer t"]) == Some("t");
  }
}
