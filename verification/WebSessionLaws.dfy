/** What holds over every sequence of calls of the session client. */
module WebSessionLaws {
  import opened Basics
  import opened WebSig
  import opened WebSigHeader
  import opened WebSession

  /** A session belongs to this page, a locked client has none, and a pending boot value is a boot value. */
  ghost predicate Valid(st: State, origin: string) {
    && (st.session.Some? ==> st.session.value.origin == origin && !st.locked)
    && (st.pendingBoot == "" || IsBootToken(st.pendingBoot))
  }

  // ----- registration ----------------------------------------------------------------------------

  /** Everything sent goes to the bridge with the boot value and a proof over them for this page. */
  ghost predicate RegistersOnly(sent: seq<Sent>, origin: string, bridge: string, boot: string, pub: string) {
    forall s :: s in sent ==>
      && s.RegisterSent? && s.bridge == bridge && s.boot == boot
      && exists ts :: RegistrationProof(Registration(origin, boot, pub, ts)) == Some(s.proof)
  }

  lemma {:induction false} RegisterLoopLaws(origin: string, bridge: string, boot: string, b: Browser, k: nat, offset: Option<real>)
    requires k < 2
    ensures var (r, sent) := RegisterLoop(origin, bridge, boot, b, k, offset);
            && RegistersOnly(sent, origin, bridge, boot, b.pub)
            && |sent| <= 2 - k
            && (r.Made? ==> r.session.origin == origin && r.session.bridge == bridge && sent != [])
            && (r == Failed(true) ==> sent != [])
            && (|sent| == 2 ==> b.first.reply.Refused? && IsStale(b.first.reply.code, b.first.reply.serverTime))
    decreases 2 - k
  {
    var t := if k == 0 then b.first else b.second;
    var reg := Registration(origin, boot, b.pub, TsOf(Plus(t.now, offset)));
    if RegistrationProof(reg).Some? && t.reply.Refused? && k == 0 && IsStale(t.reply.code, t.reply.serverTime) {
      RegisterLoopLaws(origin, bridge, boot, b, 1, Minus(t.reply.serverTime, t.later));
    }
  }

  lemma EstablishLaws(st: State, origin: string, bridge: string, b: Browser)
    requires Valid(st, origin)
    ensures var (st', a, sent) := Establish(st, origin, bridge, b);
            && Valid(st', origin)
            && st'.locked == st.locked
            && RegistersOnly(sent, origin, bridge, st.pendingBoot, b.pub)
            && |sent| <= 2
            && (sent != [] ==> st.pendingBoot != "" && !st.locked)
            && (|sent| == 2 ==> b.first.reply.Refused? && IsStale(b.first.reply.code, b.first.reply.serverTime))
            && (a == Ready ==> st'.session.Some? && st'.session.value.bridge == bridge && st'.session.value.origin == origin)
            && (st'.pendingBoot == st.pendingBoot || st'.pendingBoot == "")
            && (sent != [] && (a == Ready || a == NotReady(Expired)) ==> st'.pendingBoot == "")
  {
    if b.supported && !st.locked && origin != "" && b.keyWorks {
      RegisterLoopLaws(origin, bridge, st.pendingBoot, b, 0, Some(0.0));
    }
  }

  // ----- signed requests -------------------------------------------------------------------------

  /**
  A signed request: its header parses, and from the parsed header, the page's origin and the
  request itself the signed string can be rebuilt.
  */
  ghost predicate SignedFor(s: Sent, sid: string, origin: string, f: Fetch) {
    && s.SignedSent? && s.url == f.url && f.bodyHash.Some?
    && ParseHeader(s.header).Some?
    && var h := ParseHeader(s.header).value;
       && h.sid == sid
       && CanonicalRequest(Request(f.meth, f.target, origin, sid, Text(h.ts), h.nonce, f.bodyHash.value)) == Some(s.canonical)
  }

  /** Only the text of a time matters. */
  lemma TimeAsText(r: Request)
    requires TsText(r.ts).Some?
    ensures CanonicalRequest(r.(ts := Text(TsText(r.ts).value))) == CanonicalRequest(r)
  {}

  lemma SentIsSignedFor(s: Session, f: Fetch, t: FetchTry)
    requires f.bodyHash.Some? && SentBy(s, f, t).Some?
    ensures SignedFor(SentBy(s, f, t).value, s.sid, s.origin, f)
  {
    var ts := TsOf(Plus(t.now, s.offset));
    ParsePrinted(s.sid, ts, t.nonce, t.sig.value);
    TimeAsText(Request(f.meth, f.target, s.origin, s.sid, ts, t.nonce, f.bodyHash.value));
  }

  /** The state a fetch may leave: the same but for the clock offset of the session. */
  ghost predicate OnlyOffset(st: State, st': State) {
    st.session.Some? && st'.session.Some? && st' == st.(session := Some(st.session.value.(offset := st'.session.value.offset)))
  }

  lemma {:induction false} FetchLoopCounts(st: State, f: Fetch, k: nat)
    requires st.session.Some? && f.bodyHash.Some? && k < 2
    ensures var (st', r, sent) := FetchLoop(st, f, k);
            && OnlyOffset(st, st')
            && |sent| <= 2 - k
            && (|sent| == 2 ==>
                  && f.first.reply.Response? && f.first.reply.status == 401
                  && IsStale(f.first.reply.code, f.first.reply.serverTime))
            && (r.Got? ==> sent != [])
    decreases 2 - k
  {
    var t := if k == 0 then f.first else f.second;
    if k == 0 && t.reply.Response? {
      FetchLoopCounts(st.(session := Some(st.session.value.(offset := Minus(t.reply.serverTime, t.later)))), f, 1);
    }
  }

  /** `m` is what some turn sends for the session, whatever its clock offset then. */
  ghost predicate SentInTurn(m: Sent, s: Session, f: Fetch)
    requires f.bodyHash.Some?
  {
    exists off, t :: SentBy(s.(offset := off), f, t) == Some(m)
  }

  lemma {:induction false} FetchLoopSends(st: State, f: Fetch, k: nat)
    requires st.session.Some? && f.bodyHash.Some? && k < 2
    ensures forall m :: m in FetchLoop(st, f, k).2 ==> SentInTurn(m, st.session.value, f)
    decreases 2 - k
  {
    var s := st.session.value;
    var t := if k == 0 then f.first else f.second;
    assert s == s.(offset := s.offset);
    if SentBy(s, f, t).Some? {
      assert SentInTurn(SentBy(s, f, t).value, s, f);
      if k == 0 && t.reply.Response? {
        var s' := s.(offset := Minus(t.reply.serverTime, t.later));
        FetchLoopSends(st.(session := Some(s')), f, 1);
        assert forall off :: s'.(offset := off) == s.(offset := off);
      }
    }
  }

  lemma FetchLoopSigns(st: State, f: Fetch)
    requires st.session.Some? && f.bodyHash.Some?
    ensures forall m :: m in FetchLoop(st, f, 0).2 ==> SignedFor(m, st.session.value.sid, st.session.value.origin, f)
  {
    FetchLoopSends(st, f, 0);
    forall m | m in FetchLoop(st, f, 0).2 ensures SignedFor(m, st.session.value.sid, st.session.value.origin, f) {
      TurnIsSigned(m, st.session.value, f);
    }
  }

  lemma TurnIsSigned(m: Sent, s: Session, f: Fetch)
    requires f.bodyHash.Some? && SentInTurn(m, s, f)
    ensures SignedFor(m, s.sid, s.origin, f)
  {
    var off, t :| SentBy(s.(offset := off), f, t) == Some(m);
    SentIsSignedFor(s.(offset := off), f, t);
  }

  /**
  A signed fetch sends one request, or two only after a refusal for a stale time that names the
  server's; everything it sends is signed for the session and goes to the host of its bridge.
  */
  lemma SignedFetchLaws(st: State, f: Fetch, host: string -> string)
    ensures var (st', r, sent) := SignedFetch(st, f, host);
            && (st' == st || OnlyOffset(st, st'))
            && |sent| <= 2
            && (sent != [] ==> st.session.Some? && host(f.url) == host(st.session.value.bridge))
            && (forall s :: s in sent ==> SignedFor(s, st.session.value.sid, st.session.value.origin, f))
            && (|sent| == 2 ==>
                  && f.first.reply.Response? && f.first.reply.status == 401
                  && IsStale(f.first.reply.code, f.first.reply.serverTime))
            && (r.Got? ==> sent != [])
  {
    if st.session.Some? && f.bodyHash.Some? { FetchLoopCounts(st, f, 0); FetchLoopSigns(st, f); }
  }

  lemma FetchKeepsValid(st: State, f: Fetch, origin: string, host: string -> string)
    requires Valid(st, origin)
    ensures Valid(SignedFetch(st, f, host).0, origin)
  {
    SignedFetchLaws(st, f, host);
  }

  // ----- whole runs -------------------------------------------------------------------------------

  lemma StepKeepsValid(st: State, call: Call, origin: string, host: string -> string)
    requires Valid(st, origin)
    ensures Valid(Step(st, call, origin, host).0, origin)
    ensures st.locked ==> Step(st, call, origin, host).0.locked && Step(st, call, origin, host).1.sent == []
  {
    match call {
      case DoEstablish(bridge, b) => EstablishLaws(st, origin, bridge, b);
      case DoFetch(f) => SignedFetchLaws(st, f, host);
      case DoEnd(f, idb, eraseWorks) => SignedFetchLaws(st, f, host);
      case _ =>
    }
  }

  lemma {:induction false} RunKeepsValid(st: State, calls: seq<Call>, origin: string, host: string -> string)
    requires Valid(st, origin)
    ensures Valid(StateAfter(st, calls, origin, host), origin)
  {
    if calls != [] {
      var init := calls[..|calls| - 1];
      RunKeepsValid(st, init, origin, host);
      StepKeepsValid(StateAfter(st, init, origin, host), calls[|calls| - 1], origin, host);
    }
  }

  lemma NextState(st: State, calls: seq<Call>, k: nat, origin: string, host: string -> string)
    requires k < |calls|
    ensures StateAfter(st, calls[..k + 1], origin, host) == Step(StateAfter(st, calls[..k], origin, host), calls[k], origin, host).0
  {
    assert calls[..k + 1][..k] == calls[..k];
  }

  /** `establish` answers ready only with a session bound to that bridge and to this page. */
  lemma ReadyIsBound(st: State, calls: seq<Call>, k: nat, origin: string, host: string -> string)
    requires Valid(st, origin) && k < |calls| && calls[k].DoEstablish?
    requires EventAt(st, calls, k, origin, host).answer == Some(Ready)
    ensures var after := StateAfter(st, calls[..k + 1], origin, host);
            && after.session.Some? && !after.locked
            && after.session.value.bridge == calls[k].bridge && after.session.value.origin == origin
  {
    var before := StateAfter(st, calls[..k], origin, host);
    RunKeepsValid(st, calls[..k], origin, host);
    EstablishLaws(before, origin, calls[k].bridge, calls[k].browser);
    NextState(st, calls, k, origin, host);
  }

  lemma {:induction false} StaysLocked(st: State, calls: seq<Call>, k: nat, j: nat, origin: string, host: string -> string)
    requires Valid(st, origin) && k < j <= |calls| && calls[k].DoClear? && calls[k].lock
    ensures StateAfter(st, calls[..j], origin, host).locked
    decreases j
  {
    NextState(st, calls, j - 1, origin, host);
    if j - 1 > k {
      StaysLocked(st, calls, k, j - 1, origin, host);
      RunKeepsValid(st, calls[..j - 1], origin, host);
      StepKeepsValid(StateAfter(st, calls[..j - 1], origin, host), calls[j - 1], origin, host);
    }
  }

  lemma LockedAnswersNothing(st: State, call: Call, origin: string, host: string -> string)
    requires Valid(st, origin) && st.locked
    ensures Step(st, call, origin, host).1.sent == []
    ensures Step(st, call, origin, host).1.answer != Some(Ready)
  {
    StepKeepsValid(st, call, origin, host);
    if call.DoEstablish? { EstablishLaws(st, origin, call.bridge, call.browser); }
  }

  /** After a locking clear there is never a session again, nothing is ready, and nothing is sent. */
  lemma LockedForever(st: State, calls: seq<Call>, k: nat, j: nat, origin: string, host: string -> string)
    requires Valid(st, origin) && k < j <= |calls| && calls[k].DoClear? && calls[k].lock
    ensures StateAfter(st, calls[..j], origin, host).session.None?
    ensures j < |calls| ==>
              EventAt(st, calls, j, origin, host).sent == [] && EventAt(st, calls, j, origin, host).answer != Some(Ready)
  {
    StaysLocked(st, calls, k, j, origin, host);
    RunKeepsValid(st, calls[..j], origin, host);
    if j < |calls| { LockedAnswersNothing(StateAfter(st, calls[..j], origin, host), calls[j], origin, host); }
  }

  /** The call sent the boot value and was answered for good: a session was made, or the value was refused. */
  ghost predicate Settles(e: Event, boot: string) {
    && e.call.DoEstablish? && (e.answer == Some(Ready) || e.answer == Some(NotReady(Expired)))
    && exists s :: s in e.sent && s.RegisterSent? && s.boot == boot
  }

  /** Only boot values that are pending are sent, and settling one clears it. */
  lemma SendsPending(st: State, call: Call, boot: string, origin: string, host: string -> string)
    requires Valid(st, origin)
    ensures var (st', e) := Step(st, call, origin, host);
            && (forall s :: s in e.sent && s.RegisterSent? ==> s.boot == st.pendingBoot && s.boot != "")
            && (Settles(e, boot) ==> boot != "" && st'.pendingBoot == "")
  {
    match call {
      case DoEstablish(bridge, b) => EstablishLaws(st, origin, bridge, b);
      case DoFetch(f) => SignedFetchLaws(st, f, host);
      case DoEnd(f, idb, eraseWorks) => SignedFetchLaws(st, f, host);
      case _ =>
    }
  }

  /** Only `setBoot` makes a value pending. */
  lemma PendingStep(st: State, call: Call, origin: string, host: string -> string)
    requires Valid(st, origin)
    ensures var p := Step(st, call, origin, host).0.pendingBoot;
            p == st.pendingBoot || p == "" || call == DoSetBoot(p)
  {
    match call {
      case DoEstablish(bridge, b) => EstablishLaws(st, origin, bridge, b);
      case DoFetch(f) => SignedFetchLaws(st, f, host);
      case DoEnd(f, idb, eraseWorks) => SignedFetchLaws(st, f, host);
      case _ =>
    }
  }

  /** A value that is not pending stays so until it is set. */
  lemma {:induction false} PendingComesFrom(st: State, calls: seq<Call>, i: nat, j: nat, boot: string, origin: string, host: string -> string)
    requires Valid(st, origin) && i <= j <= |calls|
    requires StateAfter(st, calls[..i], origin, host).pendingBoot != boot && boot != ""
    requires forall m :: i <= m < j ==> calls[m] != DoSetBoot(boot)
    ensures StateAfter(st, calls[..j], origin, host).pendingBoot != boot
    decreases j
  {
    if i < j {
      PendingComesFrom(st, calls, i, j - 1, boot, origin, host);
      NextState(st, calls, j - 1, origin, host);
      RunKeepsValid(st, calls[..j - 1], origin, host);
      PendingStep(StateAfter(st, calls[..j - 1], origin, host), calls[j - 1], origin, host);
    }
  }

  /** A boot value that made a session, or was definitively refused, is not sent again unless it is set again. */
  lemma BootIsUsedOnce(st: State, calls: seq<Call>, i: nat, j: nat, boot: string, origin: string, host: string -> string)
    requires Valid(st, origin) && i < j < |calls|
    requires Settles(EventAt(st, calls, i, origin, host), boot)
    requires forall m :: i < m < j ==> calls[m] != DoSetBoot(boot)
    ensures forall s :: s in EventAt(st, calls, j, origin, host).sent && s.RegisterSent? ==> s.boot != boot
  {
    RunKeepsValid(st, calls[..i], origin, host);
    SendsPending(StateAfter(st, calls[..i], origin, host), calls[i], boot, origin, host);
    NextState(st, calls, i, origin, host);
    PendingComesFrom(st, calls, i + 1, j, boot, origin, host);
    RunKeepsValid(st, calls[..j], origin, host);
    SendsPending(StateAfter(st, calls[..j], origin, host), calls[j], boot, origin, host);
  }
}
