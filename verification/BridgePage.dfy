/** The module variables of web/js/bridge.js as an object around a session client. */
module BridgePage {
  import opened WebSession
  import opened SessionClient
  import opened BridgeAuth

  class Bridge {
    const client: Client
    var mode: Mode
    var auth: AuthState
    var token: string

    function View(): Page
      reads this, client
    {
      Page(client.View(), mode, auth, token)
    }

    constructor (client: Client)
      ensures this.client == client && View() == FIRST_PAGE.(client := client.View())
    {
      this.client := client;
      mode, auth, token := LegacyBearer, Unknown, "";
    }

    /** `bridgeFetch` and `signedBridgeFetch`. */
    method Request(r: PageRequest, host: string -> string) returns (out: seq<Wire>)
      requires client.Ok()
      modifies this, client
      ensures client.Ok() && (View(), out) == BridgeFetch(old(View()), r, host)
    {
      if r.isPing {
        return [PingSent(r.fetch.url)];
      }
      if mode.SigV1? {
        if client.session.None? {
          auth := StateForNoSession(client.noSession);
          return [];
        }
        var res, sent := client.FetchSigned(r.fetch, host);
        if res.Got? {
          if res.status == 401 {
            var state := StateForCode(res.code);
            if IsSessionGone(res.code) {
              client.Invalidate(state == AuthExpired, r.idb, r.eraseWorks);
            }
            auth := state;
          } else if IsOk(res.status) {
            auth := Accepted;
          }
        }
        return Wires(sent);
      }
      if mode.UnsupportedMode? {
        auth := AuthUnsupported;
        return [];
      }
      if r.plainStatus == 401 {
        auth := if token != "" then AuthRejected else AuthMissing;
      } else if IsOk(r.plainStatus) {
        auth := Accepted;
      }
      return [BearerSent(r.fetch.url, token)];
    }

    /** The part of `init` after a bridge has answered its ping. */
    method Start(ad: Advertised, bridge: string, b: Browser) returns (out: seq<Wire>)
      requires client.Ok()
      modifies this, client
      ensures client.Ok() && (View(), out) == Init(old(View()), ad, client.origin, bridge, b)
    {
      out := [];
      mode := ChooseMode(ad);
      if mode.SigV1? {
        var a, sent := client.EstablishAt(bridge, b);
        if a.NotReady? {
          auth := StateForNoSession(a.why);
        }
        out := Wires(sent);
      } else if mode.UnsupportedMode? {
        auth := AuthUnsupported;
      }
    }
  }
}
