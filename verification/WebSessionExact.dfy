/**
What the session client sends, with which times, and what it is left with: the clock it signs with
follows the daemon's, and each way `establish` and `signedFetch` can go is told apart.
*/
module WebSessionExact {
  import opened Basics
  import opened Base64
  import opened Base64Url
  import opened WebSig
  import opened WebSigHeader
  import opened WebSession
  import opened WebSessionLaws

  // ----- times ------------------------------------------------------------------------------------

  ghost predicate Spells(n: nat, ms: real, s: string) {
    n <= MAX_SAFE_INTEGER && n as real == ms && s == ToText(Decimal.PrintNat(n))
  }

  /** The text of a time is the decimal of a whole number of milliseconds. */
  ghost predicate IsTimeText(ms: real, s: string) { exists n: nat :: Spells(n, ms, s) }

  lemma TimeTextIs(ms: real, s: string)
    ensures TsText(TsOf(Some(ms))) == Some(s) <==> IsTimeText(ms, s)
  {
    if IsTimeText(ms, s) {
      var n: nat :| Spells(n, ms, s);
      assert ms.Floor == n;
    }
    if TsText(TsOf(Some(ms))) == Some(s) {
      var n: nat := ms.Floor;
      assert Spells(n, ms, s);
    }
  }

  // ----- signed requests ------------------------------------------------------------------------------

  /** The request was signed for that time, with the nonce and the signature of that try. */
  ghost predicate SignedAt(m: Sent, s: Session, f: Fetch, t: FetchTry, ms: real) {
    && m.SignedSent? && m.url == f.url && f.bodyHash.Some? && t.sig.Some?
    && exists ts :: IsTimeText(ms, ts) && CarriesText(m.header, m.canonical, s, f, t, ts)
  }

  /** Header and signed string for a session, a request and the text of a time. */
  ghost predicate CarriesText(header: string, canonical: string, s: Session, f: Fetch, t: FetchTry, ts: string)
    requires f.bodyHash.Some? && t.sig.Some?
  {
    && PrintHeader(s.sid, Text(ts), t.nonce, t.sig.value) == Some(header)
    && CanonicalRequest(Request(f.meth, f.target, s.origin, s.sid, Text(ts), t.nonce, f.bodyHash.value)) == Some(canonical)
  }

  /** What a try sends, taken apart. */
  lemma SentIs(s: Session, f: Fetch, t: FetchTry, ts: Ts)
    requires f.bodyHash.Some? && ts == TsOf(Plus(t.now, s.offset))
    ensures SentBy(s, f, t).Some? ==>
              && t.sig.Some?
              && var m := SentBy(s, f, t).value;
                 && m.SignedSent? && m.url == f.url
                 && PrintHeader(s.sid, ts, t.nonce, t.sig.value) == Some(m.header)
                 && CanonicalRequest(Request(f.meth, f.target, s.origin, s.sid, ts, t.nonce, f.bodyHash.value)) == Some(m.canonical)
    ensures SentBy(s, f, t).None? ==>
              || t.sig.None? || PrintHeader(s.sid, ts, t.nonce, t.sig.value).None?
              || CanonicalRequest(Request(f.meth, f.target, s.origin, s.sid, ts, t.nonce, f.bodyHash.value)).None?
  {
  }

  /** Only the text of a time matters. */
  lemma TextWillDo(s: Session, f: Fetch, t: FetchTry, ts: Ts, text: string)
    requires f.bodyHash.Some? && t.sig.Some? && TsText(ts) == Some(text)
    ensures PrintHeader(s.sid, ts, t.nonce, t.sig.value) == PrintHeader(s.sid, Text(text), t.nonce, t.sig.value)
    ensures CanonicalRequest(Request(f.meth, f.target, s.origin, s.sid, ts, t.nonce, f.bodyHash.value)) ==
            CanonicalRequest(Request(f.meth, f.target, s.origin, s.sid, Text(text), t.nonce, f.bodyHash.value))
  {
  }

  lemma NoTextNoHeader(sid: string, ts: Ts, nonce: string, sig: string)
    requires PrintHeader(sid, ts, nonce, sig).Some?
    ensures TsText(ts).Some?
  {
  }

  /** The text of the page's time, if there is one. */
  lemma TextOfTime(now: real, offset: Option<real>)
    requires TsText(TsOf(Plus(now, offset))).Some?
    ensures offset.Some? && IsTimeText(now + offset.value, TsText(TsOf(Plus(now, offset))).value)
  {
    TimeTextIs(now + offset.value, TsText(TsOf(Plus(now, offset))).value);
  }

  lemma SentAtTime(s: Session, f: Fetch, t: FetchTry)
    requires f.bodyHash.Some? && SentBy(s, f, t).Some?
    ensures s.offset.Some? && SignedAt(SentBy(s, f, t).value, s, f, t, t.now + s.offset.value)
  {
    var ts := TsOf(Plus(t.now, s.offset));
    SentIs(s, f, t, ts);
    NoTextNoHeader(s.sid, ts, t.nonce, t.sig.value);
    TextOfTime(t.now, s.offset);
    TextWillDo(s, f, t, ts, TsText(ts).value);
    var m := SentBy(s, f, t).value;
    assert CarriesText(m.header, m.canonical, s, f, t, TsText(ts).value);
  }

  /** The daemon refused the time and told its own. */
  ghost predicate RefusedForTime(r: FetchReply) {
    r.Response? && r.status == 401 && r.code == "stale_timestamp" && r.serverTime.At?
  }

  ghost function ResultOf(r: FetchReply): FetchResult { if r.Response? then Got(r.status, r.code) else Threw }

  /** Whatever the tries send has the property, at the time they have. */
  ghost predicate Tells(at: (Sent, FetchTry, real) -> bool, send: (Session, FetchTry) -> Option<Sent>, s: Session) {
    forall off, t :: send(s.(offset := off), t).Some? ==> off.Some? && at(send(s.(offset := off), t).value, t, t.now + off.value)
  }

  ghost function Sending(f: Fetch): (Session, FetchTry) -> Option<Sent> {
    (s, t) => if f.bodyHash.Some? then SentBy(s, f, t) else None
  }

  /** How a fetch goes, told by what is known of the requests it sends. */
  ghost predicate Goes(st: State, f: Fetch, at: (Sent, FetchTry, real) -> bool, st': State, r: FetchResult, sent: seq<Sent>) {
    && |sent| <= 2
    && (sent == [] ==> st' == st && r == Threw)
    && (sent != [] ==>
          && st.session.Some? && st.session.value.offset.Some?
          && at(sent[0], f.first, f.first.now + st.session.value.offset.value)
          && if !RefusedForTime(f.first.reply) then |sent| == 1 && st' == st && r == ResultOf(f.first.reply)
             else GoesOn(st, f, f.first.reply.serverTime.ms, at, st', r, sent))
  }

  /** After a refusal for its time: the new offset meets the daemon's time, and so does the second request. */
  ghost predicate GoesOn(st: State, f: Fetch, there: real, at: (Sent, FetchTry, real) -> bool, st': State, r: FetchResult, sent: seq<Sent>)
    requires st.session.Some? && sent != []
  {
    && st'.session.Some? && st'.session.value.offset.Some? && f.first.later + st'.session.value.offset.value == there
    && st' == st.(session := Some(st.session.value.(offset := st'.session.value.offset)))
    && (|sent| == 1 ==> r == Threw)
    && (|sent| == 2 ==> at(sent[1], f.second, there + (f.second.now - f.first.later)) && r == ResultOf(f.second.reply))
  }

  /** A first turn that sent `out`, if it sent anything, before a second turn that came to `second`. */
  ghost function FirstTurn(st: State, f: Fetch, out: Option<Sent>, second: (State, FetchResult, seq<Sent>)): (State, FetchResult, seq<Sent>) {
    if out.None? then (st, Threw, [])
    else if RefusedForTime(f.first.reply) then (second.0, second.1, [out.value] + second.2)
    else (st, ResultOf(f.first.reply), [out.value])
  }

  ghost function SecondTurn(st: State, f: Fetch, out: Option<Sent>): (State, FetchResult, seq<Sent>) {
    if out.None? then (st, Threw, []) else (st, ResultOf(f.second.reply), [out.value])
  }

  /** The session with the offset that meets the daemon's time. */
  ghost function Corrected(s: Session, f: Fetch): Session
    requires RefusedForTime(f.first.reply)
  {
    s.(offset := Some(f.first.reply.serverTime.ms - f.first.later))
  }

  lemma LoopIsTurns(st: State, f: Fetch)
    requires st.session.Some? && f.bodyHash.Some?
    ensures FetchLoop(st, f, 0) == Turns(st, f, Sending(f))
  {
    if RefusedForTime(f.first.reply) {
      var s' := Corrected(st.session.value, f);
      SecondIsTurn(st.(session := Some(s')), f);
    }
  }

  lemma SecondIsTurn(st: State, f: Fetch)
    requires st.session.Some? && f.bodyHash.Some?
    ensures FetchLoop(st, f, 1) == SecondTurn(st, f, SentBy(st.session.value, f, f.second))
  {
  }

  lemma TurnsGo(st: State, f: Fetch, at: (Sent, FetchTry, real) -> bool, out: Option<Sent>, out': Option<Sent>)
    requires st.session.Some?
    requires out.Some? ==> st.session.value.offset.Some? && at(out.value, f.first, f.first.now + st.session.value.offset.value)
    requires out'.Some? && RefusedForTime(f.first.reply) ==>
               at(out'.value, f.second, f.first.reply.serverTime.ms + (f.second.now - f.first.later))
    ensures var second := if RefusedForTime(f.first.reply) then SecondTurn(st.(session := Some(Corrected(st.session.value, f))), f, out')
                          else (st, Threw, []);
            var whole := FirstTurn(st, f, out, second);
            Goes(st, f, at, whole.0, whole.1, whole.2)
  {
  }

  ghost function Turns(st: State, f: Fetch, send: (Session, FetchTry) -> Option<Sent>): (State, FetchResult, seq<Sent>)
    requires st.session.Some?
  {
    var s := st.session.value;
    if RefusedForTime(f.first.reply) then
      FirstTurn(st, f, send(s, f.first), SecondTurn(st.(session := Some(Corrected(s, f))), f, send(Corrected(s, f), f.second)))
    else FirstTurn(st, f, send(s, f.first), (st, Threw, []))
  }

  lemma LoopGoes(st: State, f: Fetch, at: (Sent, FetchTry, real) -> bool, send: (Session, FetchTry) -> Option<Sent>)
    requires st.session.Some? && Tells(at, send, st.session.value)
    ensures var (st', r, sent) := Turns(st, f, send); Goes(st, f, at, st', r, sent)
  {
    var s := st.session.value;
    assert s == s.(offset := s.offset);
    if RefusedForTime(f.first.reply) {
      var s' := Corrected(s, f);
      assert f.second.now + s'.offset.value == f.first.reply.serverTime.ms + (f.second.now - f.first.later);
      TurnsGo(st, f, at, send(s, f.first), send(s', f.second));
    } else {
      TurnsGo(st, f, at, send(s, f.first), None);
    }
  }

  /**
  The first request carries the page's clock and the offset. If it is refused for its time, the
  offset is set so that the daemon's time is met, whatever comes next; the second request, if it can
  be signed, carries the daemon's time plus what has passed since the refusal. There is no third.
  */
  lemma FetchTimes(st: State, f: Fetch, host: string -> string)
    ensures var (st', r, sent) := SignedFetch(st, f, host);
            if st.session.None? then st' == st && r == Threw && sent == []
            else Goes(st, f, (m, t, ms) => SignedAt(m, st.session.value, f, t, ms), st', r, sent)
  {
    if st.session.Some? && f.bodyHash.Some? {
      var s := st.session.value;
      var at := (m, t, ms) => SignedAt(m, s, f, t, ms);
      forall off, t | Sending(f)(s.(offset := off), t).Some?
        ensures off.Some? && at(Sending(f)(s.(offset := off), t).value, t, t.now + off.value)
      {
        SentAtTime(s.(offset := off), f, t);
        OffsetIsNotSigned(SentBy(s.(offset := off), f, t).value, s, off, f, t, t.now + off.value);
      }
      LoopGoes(st, f, at, Sending(f));
      LoopIsTurns(st, f);
    }
  }

  lemma OffsetIsNotSigned(m: Sent, s: Session, off: Option<real>, f: Fetch, t: FetchTry, ms: real)
    requires SignedAt(m, s.(offset := off), f, t, ms)
    ensures SignedAt(m, s, f, t, ms)
  {
    var ts :| IsTimeText(ms, ts) && CarriesText(m.header, m.canonical, s.(offset := off), f, t, ts);
    assert CarriesText(m.header, m.canonical, s, f, t, ts);
  }

  /** Nothing is sent exactly when there is no session, no crypto, another host, a body of the wrong kind, or nothing that can be signed. */
  lemma FetchSendsExactlyWhen(st: State, f: Fetch, host: string -> string)
    ensures SignedFetch(st, f, host).2 != [] <==>
            && st.session.Some? && f.supported && f.bodyHash.Some?
            && host(f.url) == host(st.session.value.bridge) && Signable(st.session.value, f, f.first)
  {
    if st.session.Some? && f.bodyHash.Some? { SignableIs(st.session.value, f, f.first); }
  }

  /** Time and fields have their form, and the signature its size. */
  ghost predicate Signable(s: Session, f: Fetch, t: FetchTry) {
    && s.offset.Some? && f.bodyHash.Some? && t.sig.Some?
    && exists ts, header, canonical :: IsTimeText(t.now + s.offset.value, ts) && CarriesText(header, canonical, s, f, t, ts)
  }

  lemma SignableIs(s: Session, f: Fetch, t: FetchTry)
    requires f.bodyHash.Some?
    ensures SentBy(s, f, t).Some? <==> Signable(s, f, t)
  {
    if SentBy(s, f, t).Some? {
      SentAtTime(s, f, t);
    }
    if Signable(s, f, t) { SignableIsSent(s, f, t); }
  }

  lemma SignableIsSent(s: Session, f: Fetch, t: FetchTry)
    requires Signable(s, f, t)
    ensures SentBy(s, f, t).Some?
  {
    var text, header, canonical :| IsTimeText(t.now + s.offset.value, text) && CarriesText(header, canonical, s, f, t, text);
    var ts := TsOf(Plus(t.now, s.offset));
    TimeTextIs(t.now + s.offset.value, text);
    TextWillDo(s, f, t, ts, text);
    SentIs(s, f, t, ts);
  }

  // ----- registration --------------------------------------------------------------------------------------

  ghost predicate RegisterRefusedForTime(r: RegisterReply) {
    r.Refused? && r.code == "stale_timestamp" && r.serverTime.At?
  }

  /** The proof sent is over this page, the boot value, the key and that time. */
  ghost predicate ProvenAt(m: Sent, origin: string, bridge: string, boot: string, pub: string, ms: real) {
    && m.RegisterSent? && m.bridge == bridge && m.boot == boot
    && exists ts :: IsTimeText(ms, ts) && RegistrationProof(Registration(origin, boot, pub, Text(ts))) == Some(m.proof)
  }

  lemma ProofAtTime(origin: string, boot: string, pub: string, bridge: string, ms: real)
    requires RegistrationProof(Registration(origin, boot, pub, TsOf(Some(ms)))).Some?
    ensures var proof := RegistrationProof(Registration(origin, boot, pub, TsOf(Some(ms)))).value;
            ProvenAt(RegisterSent(bridge, boot, proof), origin, bridge, boot, pub, ms)
  {
    var ts := TsText(TsOf(Some(ms))).value;
    TimeTextIs(ms, ts);
    assert RegistrationProof(Registration(origin, boot, pub, Text(ts))) == RegistrationProof(Registration(origin, boot, pub, TsOf(Some(ms))));
  }

  /** An answer that makes a session: both versions right, and an identifier of the right size in strict base64url. */
  ghost predicate GoodInfo(info: Option<Info>) {
    && info.Some? && info.value.versionOk && info.value.algOk && info.value.sid.Some?
    && |info.value.sid.value| == TextLength(SID_BYTES) && UrlDecode(info.value.sid.value).Some?
  }

  /** Its session: bound to page and bridge, and in step with the daemon's clock if the answer tells it. */
  ghost predicate SessionOf(s: Session, info: Info, origin: string, bridge: string, pub: string, offset: real, now: real) {
    && info.sid == Some(s.sid) && s.pub == pub && s.origin == origin && s.bridge == bridge && !s.persisted
    && match info.serverTime
       case At(ms) => s.offset.Some? && now + s.offset.value == ms
       case Absent => s.offset == Some(offset)
       case NotFinite => s.offset == None
  }

  /** What the reply to the last try comes to. */
  ghost predicate ResultIs(r: RegisterResult, t: RegisterTry, origin: string, bridge: string, pub: string, offset: real) {
    match t.reply
    case Unreachable => r == Failed(false)
    case Refused(status, _, _) => r == Failed(400 <= status <= 499 && status != 429)
    case Answered(info) =>
      if GoodInfo(info) then r.Made? && SessionOf(r.session, info.value, origin, bridge, pub, offset, t.later)
      else r == Failed(info.None? || !info.value.versionOk || !info.value.algOk || info.value.sid.None? || |info.value.sid.value| != TextLength(SID_BYTES))
  }

  lemma ReplyIs(t: RegisterTry, origin: string, bridge: string, pub: string, offset: real)
    requires t.reply.Answered?
    ensures ResultIs(SessionFrom(t.reply.info, origin, bridge, pub, Some(offset), t.later), t, origin, bridge, pub, offset)
  {
  }

  /**
  The first proof carries the page's clock. If the daemon refuses it for its time, a second one
  carries the daemon's time plus what has passed since; there is no third, and the last answer decides.
  */
  lemma RegisterTimes(st: State, origin: string, bridge: string, b: Browser)
    ensures var (r, sent) := Register(st, origin, bridge, b);
            && |sent| <= 2
            && (sent == [] ==> r == Failed(false))
            && (sent != [] ==>
                  && b.supported && !st.locked && origin != "" && b.keyWorks
                  && ProvenAt(sent[0], origin, bridge, st.pendingBoot, b.pub, b.first.now)
                  && if !RegisterRefusedForTime(b.first.reply) then |sent| == 1 && ResultIs(r, b.first, origin, bridge, b.pub, 0.0)
                     else
                       var offset := b.first.reply.serverTime.ms - b.first.later;
                       && (|sent| == 1 ==> r == Failed(false))
                       && (|sent| == 2 ==>
                             && ProvenAt(sent[1], origin, bridge, st.pendingBoot, b.pub, b.first.reply.serverTime.ms + (b.second.now - b.first.later))
                             && ResultIs(r, b.second, origin, bridge, b.pub, offset)))
  {
    var boot := st.pendingBoot;
    if b.supported && !st.locked && origin != "" && b.keyWorks {
      assert Plus(b.first.now, Some(0.0)) == Some(b.first.now);
      if RegistrationProof(Registration(origin, boot, b.pub, TsOf(Some(b.first.now)))).Some? {
        ProofAtTime(origin, boot, b.pub, bridge, b.first.now);
        if b.first.reply.Answered? { ReplyIs(b.first, origin, bridge, b.pub, 0.0); }
        if RegisterRefusedForTime(b.first.reply) {
          SecondProof(origin, bridge, boot, b);
        }
      }
    }
  }

  lemma SecondProof(origin: string, bridge: string, boot: string, b: Browser)
    requires RegisterRefusedForTime(b.first.reply)
    ensures var offset := b.first.reply.serverTime.ms - b.first.later;
            var (r, sent) := RegisterLoop(origin, bridge, boot, b, 1, Some(offset));
            && |sent| <= 1
            && (sent == [] ==> r == Failed(false))
            && (sent != [] ==>
                  && ProvenAt(sent[0], origin, bridge, boot, b.pub, b.first.reply.serverTime.ms + (b.second.now - b.first.later))
                  && ResultIs(r, b.second, origin, bridge, b.pub, offset))
  {
    var offset := b.first.reply.serverTime.ms - b.first.later;
    var ms := b.second.now + offset;
    assert ms == b.first.reply.serverTime.ms + (b.second.now - b.first.later);
    LastTry(origin, bridge, boot, b, offset, ms);
  }

  lemma LastTry(origin: string, bridge: string, boot: string, b: Browser, offset: real, ms: real)
    requires ms == b.second.now + offset
    ensures var (r, sent) := RegisterLoop(origin, bridge, boot, b, 1, Some(offset));
            && |sent| <= 1
            && (sent == [] ==> r == Failed(false))
            && (sent != [] ==> ProvenAt(sent[0], origin, bridge, boot, b.pub, ms) && ResultIs(r, b.second, origin, bridge, b.pub, offset))
  {
    if RegistrationProof(Registration(origin, boot, b.pub, TsOf(Some(ms)))).Some? {
      ProofAtTime(origin, boot, b.pub, bridge, ms);
      if b.second.reply.Answered? { ReplyIs(b.second, origin, bridge, b.pub, offset); }
    }
  }

  /** A registration is sent exactly when the page may make one and its fields have their form. */
  lemma RegisterSendsExactlyWhen(st: State, origin: string, bridge: string, b: Browser)
    ensures Register(st, origin, bridge, b).1 != [] <==>
            && b.supported && !st.locked && origin != "" && b.keyWorks
            && exists ts :: IsTimeText(b.first.now, ts) && RegistrationProof(Registration(origin, st.pendingBoot, b.pub, Text(ts))).Some?
  {
    RegisterTimes(st, origin, bridge, b);
    assert Plus(b.first.now, Some(0.0)) == Some(b.first.now);
    if ts :| IsTimeText(b.first.now, ts) && RegistrationProof(Registration(origin, st.pendingBoot, b.pub, Text(ts))).Some? {
      TimeTextIs(b.first.now, ts);
      assert RegistrationProof(Registration(origin, st.pendingBoot, b.pub, TsOf(Some(b.first.now)))).Some?;
    }
  }

  // ----- establish --------------------------------------------------------------------------------------------

  ghost predicate HasSessionFor(st: State, bridge: string) { st.session.Some? && st.session.value.bridge == bridge }

  /** A stored record may be used: intact, not to be read out, and of this page and this bridge. */
  ghost predicate Usable(r: Record, origin: string, bridge: string) {
    r.versionOk && r.privateKey && !r.extractable && r.stringsOk && r.origin == origin && r.bridge == bridge
  }

  /** When `establish` answers what. */
  lemma EstablishAnswers(st: State, origin: string, bridge: string, b: Browser)
    ensures var (st', a, sent) := Establish(st, origin, bridge, b);
            var made := Register(st, origin, bridge, b).0;
            && (a == NotReady(Unsupported) <==> !b.supported)
            && (a == Ready <==>
                  b.supported && (HasSessionFor(st, bridge)
                                  || if st.pendingBoot != "" then made.Made?
                                     else b.idb && !st.locked && b.readWorks && st.store.Some? && Usable(st.store.value, origin, bridge)))
            && (a == NotReady(Expired) <==> b.supported && !HasSessionFor(st, bridge) && st.pendingBoot != "" && made == Failed(true))
            && (sent != [] ==> b.supported && !HasSessionFor(st, bridge) && st.pendingBoot != "" && sent == Register(st, origin, bridge, b).1)
            && (b.supported && !HasSessionFor(st, bridge) && st.pendingBoot != "" ==> sent == Register(st, origin, bridge, b).1)
            && (a.NotReady? ==> st'.noSession == a.why && st'.session == st.session)
            && (a == NotReady(Missing) || a == NotReady(Unsupported) ==> st'.pendingBoot == st.pendingBoot)
            && (a == NotReady(Expired) ==> st'.pendingBoot == "")
            && (a == Ready && HasSessionFor(st, bridge) ==> st' == st)
  {
  }

  /** A session that was made is the client's, the boot value is used up, and a record of it is kept if that works. */
  lemma MadeIsTaken(st: State, origin: string, bridge: string, b: Browser)
    requires b.supported && !HasSessionFor(st, bridge) && st.pendingBoot != "" && Register(st, origin, bridge, b).0.Made?
    ensures var (st', a, sent) := Establish(st, origin, bridge, b);
            var s := Register(st, origin, bridge, b).0.session;
            && a == Ready && st'.pendingBoot == "" && st'.noSession == Missing && st'.locked == st.locked
            && st'.session == Some(s.(persisted := b.idb && b.writeWorks))
            && (!(b.idb && b.writeWorks) ==> st'.store == st.store)
  {
  }

  /** What is kept of a session is restored by a later load of the same page for the same bridge. */
  lemma KeptIsRestored(st: State, origin: string, bridge: string, b: Browser, later: State, b': Browser)
    requires b.supported && !HasSessionFor(st, bridge) && st.pendingBoot != "" && Register(st, origin, bridge, b).0.Made?
    requires b.idb && b.writeWorks && b'.supported && b'.idb && b'.readWorks
    requires later == INITIAL.(store := Establish(st, origin, bridge, b).0.store)
    ensures var s := Register(st, origin, bridge, b).0.session;
            Establish(later, origin, bridge, b') ==
            (later.(session := Some(s.(persisted := true, offset := if s.offset.Some? then s.offset else Some(0.0)))), Ready, [])
  {
    RegisterTimes(st, origin, bridge, b);
  }

  /** A record that is not intact, or whose key could be read out, is erased if that works; any other that is not for here stays. */
  lemma UnusableIsLeft(st: State, origin: string, bridge: string, b: Browser)
    requires b.supported && !HasSessionFor(st, bridge) && st.pendingBoot == ""
    requires st.store.Some? && !Usable(st.store.value, origin, bridge)
    ensures var (st', a, sent) := Establish(st, origin, bridge, b);
            var r := st.store.value;
            var broken := !r.versionOk || !r.privateKey || r.extractable || !r.stringsOk;
            && a == NotReady(Missing) && sent == [] && st'.session == st.session
            && st'.store == if broken && b.idb && !st.locked && b.readWorks && b.eraseWorks then None else st.store
  {
  }

  // ----- the other calls -----------------------------------------------------------------------------------------

  /** A boot value is 43 characters of base64url; anything else clears the pending one. */
  lemma BootValues(st: State, boot: string, origin: string, host: string -> string)
    ensures var (st', e) := Step(st, DoSetBoot(boot), origin, host);
            && st' == st.(pendingBoot := st'.pendingBoot) && e.sent == [] && e.answer == None
            && st'.pendingBoot == (if |boot| == 43 && forall c :: c in boot ==> IsUrlChar(c) then boot else "")
  {
    AllIs(boot, IsUrlChar);
  }

  /** What the calls that end a session leave: none of them keeps it, and each leaves the rest as it says. */
  lemma EndsAre(st: State, expired: bool, lock: bool, idb: bool, erases: bool, origin: string, host: string -> string)
    ensures var (st', e) := Step(st, DoInvalidate(expired, idb, erases), origin, host);
            && e.sent == [] && st'.session == None && st'.noSession == (if expired then Expired else Missing)
            && st'.pendingBoot == st.pendingBoot && st'.locked == st.locked && st'.store == (if idb && erases then None else st.store)
    ensures var (st', e) := Step(st, DoDropMemory, origin, host);
            && e.sent == [] && st'.session == None && st'.noSession == Missing
            && st'.pendingBoot == "" && st'.locked == st.locked && st'.store == st.store
    ensures var (st', e) := Step(st, DoClear(lock, idb, erases), origin, host);
            && e.sent == [] && st'.session == None && st'.noSession == Missing
            && st'.pendingBoot == "" && st'.locked == (st.locked || lock) && st'.store == (if idb && erases then None else st.store)
  {
  }

  /** `end` sends what a signed fetch sends, and then leaves what a clear leaves. */
  lemma EndIs(st: State, f: Fetch, idb: bool, erases: bool, origin: string, host: string -> string)
    ensures var (st', e) := Step(st, DoEnd(f, idb, erases), origin, host);
            && e.sent == SignedFetch(st, f, host).2 && st'.session == None && st'.noSession == Missing
            && st'.pendingBoot == "" && st'.locked == st.locked && st'.store == (if idb && erases then None else st.store)
  {
    SignedFetchLaws(st, f, host);
  }
}
