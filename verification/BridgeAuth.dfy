/**
How the page authenticates its requests (web/js/bridge.js): the mode is chosen from the daemon's
ping, and every request goes out signed, with the old Bearer token, or not at all.
*/
module BridgeAuth {
  import opened Basics
  import opened WebSession
  import opened WebSessionLaws

  datatype Mode = LegacyBearer | SigV1 | UnsupportedMode

  /** The `web_auth` field of a ping. */
  datatype Advertised = NoField | Schemes(names: seq<string>) | SomethingElse

  /** `chooseAuthMode`. */
  function ChooseMode(ad: Advertised): Mode {
    match ad
    case NoField => LegacyBearer
    case Schemes(names) => if "sig-v1" in names then SigV1 else UnsupportedMode
    case SomethingElse => UnsupportedMode
  }

  datatype AuthState = Unknown | Accepted | AuthMissing | AuthRejected | AuthExpired | AuthUnsupported

  predicate IsSessionGone(code: string) { code == "session_unknown" || code == "session_expired" }

  /** `authStateForCode`. */
  function StateForCode(code: string): AuthState {
    if IsSessionGone(code) || "boot_" <= code then AuthExpired
    else if code == "session_required" then AuthMissing
    else AuthRejected
  }

  function StateForNoSession(n: NoSession): AuthState {
    match n case Missing => AuthMissing case Expired => AuthExpired case Unsupported => AuthUnsupported
  }

  datatype Page = Page(client: State, mode: Mode, auth: AuthState, token: string)

  const FIRST_PAGE: Page := Page(INITIAL, LegacyBearer, Unknown, "")

  /** What leaves the page; an empty token stands for a request with no `Authorization` header. */
  datatype Wire = PingSent(url: string) | BearerSent(url: string, token: string) | Signed(s: Sent)

  /** A request of the page: the signed form of it, and the status of the answer to the unsigned form. */
  datatype PageRequest = PageRequest(isPing: bool, fetch: Fetch, plainStatus: nat, idb: bool, eraseWorks: bool)

  function Wires(sent: seq<Sent>): (w: seq<Wire>)
    ensures |w| == |sent|
    ensures forall i :: 0 <= i < |w| ==> w[i] == Signed(sent[i])
  {
    seq(|sent|, i requires 0 <= i < |sent| => Signed(sent[i]))
  }

  predicate IsOk(status: nat) { 200 <= status < 300 }

  /** `signedBridgeFetch`. */
  function SignedBridgeFetch(p: Page, r: PageRequest, host: string -> string): (Page, seq<Wire>) {
    if p.client.session.None? then (p.(auth := StateForNoSession(p.client.noSession)), [])
    else
      var (st, res, sent) := SignedFetch(p.client, r.fetch, host);
      if res.Threw? then (p.(client := st), Wires(sent))
      else if res.status == 401 then
        var auth := StateForCode(res.code);
        var st' := if IsSessionGone(res.code) then Forget(st, auth == AuthExpired, r) else st;
        (p.(client := st', auth := auth), Wires(sent))
      else (p.(client := st, auth := if IsOk(res.status) then Accepted else p.auth), Wires(sent))
  }

  function Forget(st: State, expired: bool, r: PageRequest): State {
    st.(session := None, noSession := if expired then Expired else Missing, store := if r.idb && r.eraseWorks then None else st.store)
  }

  /** `bridgeFetch`. */
  function BridgeFetch(p: Page, r: PageRequest, host: string -> string): (Page, seq<Wire>) {
    if r.isPing then (p, [PingSent(r.fetch.url)])
    else match p.mode
      case SigV1 => SignedBridgeFetch(p, r, host)
      case UnsupportedMode => (p.(auth := AuthUnsupported), [])
      case LegacyBearer =>
        var auth := if r.plainStatus == 401 then (if p.token != "" then AuthRejected else AuthMissing)
                    else if IsOk(r.plainStatus) then Accepted else p.auth;
        (p.(auth := auth), [BearerSent(r.fetch.url, p.token)])
  }

  /** `init`, once a bridge has answered its ping. */
  function Init(p: Page, ad: Advertised, origin: string, bridge: string, b: Browser): (Page, seq<Wire>) {
    var mode := ChooseMode(ad);
    if mode.SigV1? then
      var (st, a, sent) := Establish(p.client, origin, bridge, b);
      (Page(st, mode, if a.Ready? then p.auth else StateForNoSession(a.why), p.token), Wires(sent))
    else (p.(mode := mode, auth := if mode.UnsupportedMode? then AuthUnsupported else p.auth), [])
  }

  datatype PageCall =
    | DoInit(ad: Advertised, bridge: string, browser: Browser)
    | DoRequest(request: PageRequest)
    | DoSetToken(token: string)
    | DoForgetControl
    | OnClient(call: Call)

  function PageStep(p: Page, c: PageCall, origin: string, host: string -> string): (Page, seq<Wire>) {
    match c
    case DoInit(ad, bridge, b) => Init(p, ad, origin, bridge, b)
    case DoRequest(r) => BridgeFetch(p, r, host)
    case DoSetToken(t) => (p.(token := t), [])
    case DoForgetControl => (p.(client := DropMemory(p.client), token := "", auth := Unknown), [])
    case OnClient(call) =>
      var (st, e) := Step(p.client, call, origin, host);
      (p.(client := st), Wires(e.sent))
  }

  function PageAfter(p: Page, calls: seq<PageCall>, origin: string, host: string -> string): Page {
    if calls == [] then p
    else PageStep(PageAfter(p, calls[..|calls| - 1], origin, host), calls[|calls| - 1], origin, host).0
  }

  // ----- what every run keeps --------------------------------------------------------------------

  /** What the ping of the last `init` advertised, if there was an `init`. */
  ghost function LastPing(calls: seq<PageCall>): Option<Advertised> {
    if calls == [] then None
    else if calls[|calls| - 1].DoInit? then Some(calls[|calls| - 1].ad)
    else LastPing(calls[..|calls| - 1])
  }

  /** Bearer tokens only for a daemon that advertises nothing, signatures only for one that names them. */
  ghost predicate Suits(mode: Mode, ad: Advertised) {
    (mode.LegacyBearer? <==> ad.NoField?) && (mode.SigV1? <==> ad.Schemes? && "sig-v1" in ad.names)
  }

  lemma PageStepMode(p: Page, c: PageCall, origin: string, host: string -> string)
    ensures var mode := PageStep(p, c, origin, host).0.mode; if c.DoInit? then Suits(mode, c.ad) else mode == p.mode
  {}

  lemma {:induction false} ModeFollowsPing(p: Page, calls: seq<PageCall>, origin: string, host: string -> string)
    ensures var mode := PageAfter(p, calls, origin, host).mode;
            match LastPing(calls) case None => mode == p.mode case Some(ad) => Suits(mode, ad)
  {
    if calls != [] {
      var init := calls[..|calls| - 1];
      ModeFollowsPing(p, init, origin, host);
      PageStepMode(PageAfter(p, init, origin, host), calls[|calls| - 1], origin, host);
    }
  }

  ghost predicate NoBearer(w: seq<Wire>) { forall m :: m in w ==> !m.BearerSent? }

  lemma BearerOnlyInLegacyMode(p: Page, c: PageCall, origin: string, host: string -> string)
    requires !p.mode.LegacyBearer?
    ensures NoBearer(PageStep(p, c, origin, host).1)
  {}

  /** If the last ping advertised anything about how to authenticate, no Bearer token leaves the page. */
  lemma AdvertisedMeansNoBearer(p: Page, calls: seq<PageCall>, next: PageCall, origin: string, host: string -> string)
    requires match LastPing(calls) case None => !p.mode.LegacyBearer? case Some(ad) => !ad.NoField?
    ensures NoBearer(PageStep(PageAfter(p, calls, origin, host), next, origin, host).1)
  {
    ModeFollowsPing(p, calls, origin, host);
    BearerOnlyInLegacyMode(PageAfter(p, calls, origin, host), next, origin, host);
  }

  /** If it named the signed scheme, requests are signed for the session and its host; if it named others only, none is sent. */
  lemma AdvertisedMeansSigned(p: Page, calls: seq<PageCall>, r: PageRequest, origin: string, host: string -> string)
    requires LastPing(calls).Some? && !LastPing(calls).value.NoField? && !r.isPing
    ensures var page := PageAfter(p, calls, origin, host);
            var ad := LastPing(calls).value;
            var sent := BridgeFetch(page, r, host).1;
            if ad.Schemes? && "sig-v1" in ad.names then
              forall m :: m in sent ==>
                && m.Signed? && page.client.session.Some? && host(r.fetch.url) == host(page.client.session.value.bridge)
                && SignedFor(m.s, page.client.session.value.sid, page.client.session.value.origin, r.fetch)
            else sent == []
  {
    ModeFollowsPing(p, calls, origin, host);
    var page := PageAfter(p, calls, origin, host);
    if page.mode.SigV1? { SigModeSigns(page, r, host); }
  }

  /** What the page shows after a refusal. */
  ghost predicate ShowsRefusal(auth: AuthState, code: string) {
    && (auth == AuthExpired <==> code == "session_unknown" || code == "session_expired" || "boot_" <= code)
    && (auth == AuthMissing <==> code == "session_required")
    && (auth == AuthExpired || auth == AuthMissing || auth == AuthRejected)
  }

  lemma RefusalShown(code: string)
    ensures ShowsRefusal(StateForCode(code), code)
  {
    assert "session_required"[0] != "boot_"[0];
  }

  /**
  After a signed request the page shows what its answer says: accepted, refused and why, or what it
  showed before. The session is given up exactly for a 401 that says it is over.
  */
  lemma SignedRequestShows(p: Page, r: PageRequest, host: string -> string)
    requires p.mode.SigV1? && !r.isPing && p.client.session.Some?
    ensures var (p', sent) := BridgeFetch(p, r, host);
            var (st, res, out) := SignedFetch(p.client, r.fetch, host);
            && p'.mode == p.mode && p'.token == p.token && sent == Wires(out)
            && (res.Threw? ==> p'.auth == p.auth)
            && (res.Got? && res.status == 401 ==> ShowsRefusal(p'.auth, res.code))
            && (res.Got? && res.status != 401 ==> p'.auth == if 200 <= res.status <= 299 then Accepted else p.auth)
            && var gone := res.Got? && res.status == 401 && (res.code == "session_unknown" || res.code == "session_expired");
               if gone then p'.client == st.(session := None, noSession := Expired, store := if r.idb && r.eraseWorks then None else st.store)
               else p'.client == st
  {
    var res := SignedFetch(p.client, r.fetch, host).1;
    if res.Got? { RefusalShown(res.code); }
  }

  /** Without a session nothing is sent, and the page shows why there is none. */
  lemma NoSessionShows(p: Page, r: PageRequest, host: string -> string)
    requires p.mode.SigV1? && !r.isPing && p.client.session.None?
    ensures var (p', sent) := BridgeFetch(p, r, host);
            && sent == [] && p' == p.(auth := p'.auth)
            && (p'.auth == AuthMissing <==> p.client.noSession == Missing)
            && (p'.auth == AuthExpired <==> p.client.noSession == Expired)
            && (p'.auth == AuthUnsupported <==> p.client.noSession == Unsupported)
  {
  }

  /** If the daemon named only schemes this page does not speak, nothing is sent, and the page shows that. */
  lemma UnsupportedShows(p: Page, r: PageRequest, host: string -> string)
    requires p.mode.UnsupportedMode? && !r.isPing
    ensures BridgeFetch(p, r, host) == (p.(auth := AuthUnsupported), [])
  {
  }

  /** A daemon that advertises nothing gets the token as it is, in every request but a ping. */
  lemma LegacyRequestShows(p: Page, r: PageRequest, host: string -> string)
    requires p.mode.LegacyBearer? && !r.isPing
    ensures var (p', sent) := BridgeFetch(p, r, host);
            && sent == [BearerSent(r.fetch.url, p.token)] && p' == p.(auth := p'.auth)
            && (r.plainStatus == 401 ==> p'.auth == if p.token == "" then AuthMissing else AuthRejected)
            && (r.plainStatus != 401 ==> p'.auth == if 200 <= r.plainStatus <= 299 then Accepted else p.auth)
  {
  }

  /** Forgetting control drops token and session; a call on the client sends what the client sends. */
  lemma OtherPageCalls(p: Page, token: string, call: Call, origin: string, host: string -> string)
    ensures PageStep(p, DoSetToken(token), origin, host) == (p.(token := token), [])
    ensures var (p', sent) := PageStep(p, DoForgetControl, origin, host);
            && sent == [] && p'.token == "" && p'.auth == Unknown && p'.mode == p.mode && p'.client.session == None
            && p'.client.pendingBoot == "" && p'.client.store == p.client.store && p'.client.locked == p.client.locked
    ensures var (p', sent) := PageStep(p, OnClient(call), origin, host);
            var (st, e) := Step(p.client, call, origin, host);
            p' == p.(client := st) && sent == Wires(e.sent)
  {
  }

  /** A ping carries no credential and changes nothing. */
  lemma PingIsPlain(p: Page, r: PageRequest, host: string -> string)
    requires r.isPing
    ensures BridgeFetch(p, r, host) == (p, [PingSent(r.fetch.url)])
  {
  }

  /** `init` establishes a session exactly for the signed scheme, and shows why there is none. */
  lemma InitShows(p: Page, ad: Advertised, origin: string, bridge: string, b: Browser)
    ensures var (p', sent) := Init(p, ad, origin, bridge, b);
            && Suits(p'.mode, ad) && p'.token == p.token
            && if p'.mode.SigV1? then
                 var (st, a, out) := Establish(p.client, origin, bridge, b);
                 && p'.client == st && sent == Wires(out)
                 && (a == Ready ==> p'.auth == p.auth)
                 && (a.NotReady? ==>
                       && (p'.auth == AuthMissing <==> a.why == Missing) && (p'.auth == AuthExpired <==> a.why == Expired)
                       && (p'.auth == AuthUnsupported <==> a.why == Unsupported))
               else p'.client == p.client && sent == [] && p'.auth == if ad.NoField? then p.auth else AuthUnsupported
  {
  }

  /**
  The daemon saying that the session is over (a 401 with such a code) ends it here: the session
  and, if erasing works, the stored key are gone, the page shows it as expired, and the next
  request is not sent.
  */
  lemma GoneSessionIsForgotten(p: Page, r: PageRequest, next: PageRequest, host: string -> string)
    requires p.mode.SigV1? && p.client.session.Some? && !r.isPing && !next.isPing
    requires SignedFetch(p.client, r.fetch, host).1.Got?
    requires SignedFetch(p.client, r.fetch, host).1.status == 401 && IsSessionGone(SignedFetch(p.client, r.fetch, host).1.code)
    ensures var p' := BridgeFetch(p, r, host).0;
            && p'.client.session.None? && p'.client.noSession == Expired && p'.auth == AuthExpired
            && (r.idb && r.eraseWorks ==> p'.client.store.None?)
            && BridgeFetch(p', next, host) == (p', [])
  {}

  /** In the signing mode whatever is sent is a ping, or signed for the session and its host. */
  lemma SigModeSigns(p: Page, r: PageRequest, host: string -> string)
    requires p.mode.SigV1? && !r.isPing
    ensures forall m :: m in BridgeFetch(p, r, host).1 ==>
              && m.Signed? && p.client.session.Some? && host(r.fetch.url) == host(p.client.session.value.bridge)
              && SignedFor(m.s, p.client.session.value.sid, p.client.session.value.origin, r.fetch)
  {
    if p.client.session.Some? {
      var sent := SignedFetch(p.client, r.fetch, host).2;
      SignedFetchLaws(p.client, r.fetch, host);
      forall m | m in BridgeFetch(p, r, host).1
        ensures m.Signed? && SignedFor(m.s, p.client.session.value.sid, p.client.session.value.origin, r.fetch)
      {
        var i :| 0 <= i < |Wires(sent)| && Wires(sent)[i] == m;
        assert sent[i] in sent;
      }
    }
  }
}
