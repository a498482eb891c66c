/**
The session client of web/js/websession.js as a state machine: each call of the client is one
step, and what the daemon, the browser's key store and the clock answer are inputs of the step.
*/
module WebSession {
  import opened Basics
  import opened Base64
  import opened Base64Url
  import opened WebSig
  import opened WebSigHeader

  // ----- what the outside world answers -------------------------------------------------------

  /** A number field of a JSON answer. */
  datatype Clock = Absent | NotFinite | At(ms: real)

  /** The body of a successful registration, as far as it is looked at. */
  datatype Info = Info(versionOk: bool, algOk: bool, sid: Option<string>, serverTime: Clock)

  datatype RegisterReply =
    | Unreachable
    | Refused(status: nat, code: string, serverTime: Clock)
    | Answered(info: Option<Info>)

  /** One turn of the registration loop: the clock before, the daemon's answer, the clock after. */
  datatype RegisterTry = RegisterTry(now: real, reply: RegisterReply, later: real)

  /** The browser during `establish`. `keyWorks` is false when making the key fails. */
  datatype Browser = Browser(supported: bool, keyWorks: bool, pub: string, first: RegisterTry, second: RegisterTry,
                             idb: bool, writeWorks: bool, readWorks: bool, eraseWorks: bool)

  datatype FetchReply = NoResponse | Response(status: nat, code: string, serverTime: Clock)

  /** `sig` is `None` when the signature has the wrong size. */
  datatype FetchTry = FetchTry(now: real, nonce: string, sig: Option<string>, reply: FetchReply, later: real)

  /** A call of `signedFetch`; `bodyHash` is `None` for a body it does not support. */
  datatype Fetch = Fetch(supported: bool, url: string, meth: string, target: string, bodyHash: Option<string>,
                         first: FetchTry, second: FetchTry)

  // ----- the state of the client ----------------------------------------------------------------

  datatype NoSession = Missing | Expired | Unsupported

  /** `offset` is `None` when it is not a finite number. */
  datatype Session = Session(sid: string, pub: string, origin: string, bridge: string, offset: Option<real>, persisted: bool)

  /** A stored record; it may come from an earlier load or have been tampered with. */
  datatype Record = Record(versionOk: bool, privateKey: bool, extractable: bool, stringsOk: bool,
                           sid: string, pub: string, origin: string, bridge: string, offset: Option<real>)

  datatype State = State(session: Option<Session>, noSession: NoSession, pendingBoot: string, locked: bool, store: Option<Record>)

  const INITIAL: State := State(None, Missing, "", false, None)

  /** What leaves the page. */
  datatype Sent =
    | RegisterSent(bridge: string, boot: string, proof: string)
    | SignedSent(url: string, canonical: string, header: string)

  datatype Answer = Ready | NotReady(why: NoSession)

  // ----- numbers --------------------------------------------------------------------------------

  /** A millisecond count as `timestamp` sees it. */
  function TsOf(ms: Option<real>): Ts {
    if ms.Some? && ms.value.Floor as real == ms.value then Number(ms.value.Floor) else NotAnInteger
  }

  function Plus(now: real, offset: Option<real>): Option<real> {
    if offset.Some? then Some(now + offset.value) else None
  }

  /** `serverTime - now` for a clock that is a number. */
  function Minus(c: Clock, now: real): Option<real> {
    if c.At? then Some(c.ms - now) else None
  }

  // ----- register -------------------------------------------------------------------------------

  datatype RegisterResult = Made(session: Session) | Failed(definitive: bool)

  predicate IsStale(code: string, serverTime: Clock) { code == "stale_timestamp" && serverTime.At? }

  /** The session that an answer makes, if it makes one. */
  function SessionFrom(info: Option<Info>, origin: string, bridge: string, pub: string, offset: Option<real>, now: real): RegisterResult {
    if info.None? || !info.value.versionOk || !info.value.algOk || info.value.sid.None? || |info.value.sid.value| != TextLength(SID_BYTES)
    then Failed(true)
    else if UrlDecode(info.value.sid.value).None? then Failed(false)
    else
      var off := if info.value.serverTime.Absent? then offset else Minus(info.value.serverTime, now);
      Made(Session(info.value.sid.value, pub, origin, bridge, off, false))
  }

  /** The loop of `register` from attempt `k` on: the result and what was sent. */
  function RegisterLoop(origin: string, bridge: string, boot: string, b: Browser, k: nat, offset: Option<real>): (RegisterResult, seq<Sent>)
    requires k < 2
    decreases 2 - k, |boot|
  {
    var t := if k == 0 then b.first else b.second;
    var proof := RegistrationProof(Registration(origin, boot, b.pub, TsOf(Plus(t.now, offset))));
    if proof.None? then (Failed(false), [])
    else
      var sent := RegisterSent(bridge, boot, proof.value);
      match t.reply
      case Unreachable => (Failed(false), [sent])
      case Refused(status, code, serverTime) =>
        if k == 0 && IsStale(code, serverTime) then
          var (r, more) := RegisterLoop(origin, bridge, boot, b, 1, Minus(serverTime, t.later));
          (r, [sent] + more)
        else (Failed(400 <= status < 500 && status != 429), [sent])
      case Answered(info) => (SessionFrom(info, origin, bridge, b.pub, offset, t.later), [sent])
  }

  function Register(st: State, origin: string, bridge: string, b: Browser): (RegisterResult, seq<Sent>) {
    if !b.supported || st.locked || origin == "" || !b.keyWorks then (Failed(false), [])
    else RegisterLoop(origin, bridge, st.pendingBoot, b, 0, Some(0.0))
  }

  function RecordOf(s: Session): Record {
    Record(true, true, false, true, s.sid, s.pub, s.origin, s.bridge, s.offset)
  }

  // ----- establish ----------------------------------------------------------------------------------

  function Restore(st: State, origin: string, bridge: string, b: Browser): State {
    if !b.idb || st.locked || !b.readWorks || st.store.None? then st
    else
      var r := st.store.value;
      if !r.versionOk || !r.privateKey || !r.stringsOk || r.extractable then
        if b.eraseWorks then st.(store := None) else st
      else if r.origin != origin || r.bridge != bridge then st
      else st.(session := Some(Session(r.sid, r.pub, r.origin, r.bridge, if r.offset.Some? then r.offset else Some(0.0), true)))
  }

  /** Whether a restore took the stored record. */
  predicate Restored(st: State, origin: string, bridge: string, b: Browser) {
    && b.idb && !st.locked && b.readWorks && st.store.Some?
    && st.store.value.versionOk && st.store.value.privateKey && st.store.value.stringsOk && !st.store.value.extractable
    && st.store.value.origin == origin && st.store.value.bridge == bridge
  }

  /** What a registration changes: the session and its record, or why there is none. */
  function Concluded(st: State, r: RegisterResult, b: Browser): State {
    match r
    case Made(s) =>
      var kept := b.idb && b.writeWorks;
      State(Some(s.(persisted := kept)), Missing, "", st.locked, if kept then Some(RecordOf(s)) else st.store)
    case Failed(definitive) => if definitive then st.(pendingBoot := "", noSession := Expired) else st.(noSession := Missing)
  }

  function AnswerTo(r: RegisterResult): Answer {
    match r case Made(_) => Ready case Failed(definitive) => NotReady(if definitive then Expired else Missing)
  }

  function Establish(st: State, origin: string, bridge: string, b: Browser): (State, Answer, seq<Sent>) {
    if !b.supported then (st.(noSession := Unsupported), NotReady(Unsupported), [])
    else if st.session.Some? && st.session.value.bridge == bridge then (st, Ready, [])
    else if st.pendingBoot != "" then
      var (r, sent) := Register(st, origin, bridge, b);
      (Concluded(st, r, b), AnswerTo(r), sent)
    else if Restored(st, origin, bridge, b) then (Restore(st, origin, bridge, b), Ready, [])
    else (Restore(st, origin, bridge, b).(noSession := Missing), NotReady(Missing), [])
  }

  // ----- signedFetch -----------------------------------------------------------------------------------

  datatype FetchResult = Threw | Got(status: nat, code: string)

  /** What a turn of the loop sends; `None` when building or signing the string throws. */
  function SentBy(s: Session, f: Fetch, t: FetchTry): Option<Sent>
    requires f.bodyHash.Some?
  {
    var ts := TsOf(Plus(t.now, s.offset));
    var canonical := CanonicalRequest(Request(f.meth, f.target, s.origin, s.sid, ts, t.nonce, f.bodyHash.value));
    if canonical.None? || t.sig.None? then None
    else
      var header := PrintHeader(s.sid, ts, t.nonce, t.sig.value);
      if header.None? then None else Some(SignedSent(f.url, canonical.value, header.value))
  }

  function FetchLoop(st: State, f: Fetch, k: nat): (State, FetchResult, seq<Sent>)
    requires st.session.Some? && f.bodyHash.Some? && k < 2
    decreases 2 - k, |f.url|
  {
    var s := st.session.value;
    var t := if k == 0 then f.first else f.second;
    var sent := SentBy(s, f, t);
    if sent.None? then (st, Threw, [])
    else
      match t.reply
      case NoResponse => (st, Threw, [sent.value])
      case Response(status, code, serverTime) =>
        if status == 401 && k == 0 && IsStale(code, serverTime) then
          var (st', r, more) := FetchLoop(st.(session := Some(s.(offset := Minus(serverTime, t.later)))), f, 1);
          (st', r, [sent.value] + more)
        else (st, Got(status, code), [sent.value])
  }

  /** `host` gives the origin of a URL; a request for another host than the bridge's is not signed. */
  function SignedFetch(st: State, f: Fetch, host: string -> string): (State, FetchResult, seq<Sent>) {
    if st.session.None? || !f.supported || host(f.url) != host(st.session.value.bridge) || f.bodyHash.None? then (st, Threw, [])
    else FetchLoop(st, f, 0)
  }

  // ----- the calls of the client ---------------------------------------------------------------------

  predicate IsBootToken(s: string) { FixedB64(s, BOOT_BYTES) }

  function DropMemory(st: State): State { st.(session := None, pendingBoot := "", noSession := Missing) }

  function Clear(st: State, lock: bool, idb: bool, eraseWorks: bool): State {
    var dropped := DropMemory(st);
    dropped.(locked := dropped.locked || lock, store := if idb && eraseWorks then None else dropped.store)
  }

  datatype Call =
    | DoSetBoot(boot: string)
    | DoEstablish(bridge: string, browser: Browser)
    | DoFetch(fetch: Fetch)
    | DoInvalidate(expired: bool, idb: bool, eraseWorks: bool)
    | DoEnd(fetch: Fetch, idb: bool, eraseWorks: bool)
    | DoDropMemory
    | DoClear(lock: bool, idb: bool, eraseWorks: bool)
    | StoreChanged(record: Option<Record>)   // another tab or an earlier load wrote the store

  /** What a call did besides changing the state. */
  datatype Event = Event(call: Call, answer: Option<Answer>, sent: seq<Sent>)

  function Step(st: State, call: Call, origin: string, host: string -> string): (State, Event) {
    match call
    case DoSetBoot(boot) => (st.(pendingBoot := if IsBootToken(boot) then boot else ""), Event(call, None, []))
    case DoEstablish(bridge, b) =>
      var (st', a, sent) := Establish(st, origin, bridge, b);
      (st', Event(call, Some(a), sent))
    case DoFetch(f) =>
      var (st', r, sent) := SignedFetch(st, f, host);
      (st', Event(call, None, sent))
    case DoInvalidate(expired, idb, eraseWorks) =>
      (st.(session := None, noSession := if expired then Expired else Missing, store := if idb && eraseWorks then None else st.store),
       Event(call, None, []))
    case DoEnd(f, idb, eraseWorks) =>
      var (st', r, sent) := SignedFetch(st, f, host);
      (Clear(st', false, idb, eraseWorks), Event(call, None, sent))
    case DoDropMemory => (DropMemory(st), Event(call, None, []))
    case DoClear(lock, idb, eraseWorks) => (Clear(st, lock, idb, eraseWorks), Event(call, None, []))
    case StoreChanged(record) => (st.(store := record), Event(call, None, []))
  }

  /** The states after each call, and the events, of a whole run. */
  function StateAfter(st: State, calls: seq<Call>, origin: string, host: string -> string): State {
    if calls == [] then st
    else Step(StateAfter(st, calls[..|calls| - 1], origin, host), calls[|calls| - 1], origin, host).0
  }

  function EventAt(st: State, calls: seq<Call>, k: nat, origin: string, host: string -> string): Event
    requires k < |calls|
  {
    Step(StateAfter(st, calls[..k], origin, host), calls[k], origin, host).1
  }
}
