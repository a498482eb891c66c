/**
The session client as an object: `createSessionClient` with its closure variables as fields. Every
method makes the step of `WebSession` of the same name and keeps the invariant of `WebSessionLaws`.
*/
module SessionClient {
  import opened Basics
  import opened WebSig
  import opened WebSession
  import opened WebSessionLaws

  class Client {
    const origin: string
    var session: Option<Session>
    var noSession: NoSession
    var pendingBoot: string
    var locked: bool
    var store: Option<Record>

    function View(): State
      reads this
    {
      State(session, noSession, pendingBoot, locked, store)
    }

    ghost predicate Ok()
      reads this
    {
      Valid(View(), origin)
    }

    constructor (origin: string, stored: Option<Record>)
      ensures View() == INITIAL.(store := stored) && this.origin == origin && Ok()
    {
      this.origin := origin;
      session, noSession, pendingBoot, locked, store := None, Missing, "", false, stored;
    }

    method SetBoot(boot: string)
      requires Ok()
      modifies this
      ensures Ok() && View() == old(View()).(pendingBoot := if IsBootToken(boot) then boot else "")
    {
      pendingBoot := if IsBootToken(boot) then boot else "";
    }

    /** `register`, without the store: the loop with its one retry. */
    method RegisterWith(bridge: string, boot: string, b: Browser) returns (r: RegisterResult, sent: seq<Sent>)
      ensures (r, sent) == Register(State(session, noSession, boot, locked, store), origin, bridge, b)
    {
      sent := [];
      if !b.supported || locked || origin == "" || !b.keyWorks {
        return Failed(false), sent;
      }
      var offset: Option<real> := Some(0.0);
      var attempt := 0;
      ghost var whole := RegisterLoop(origin, bridge, boot, b, 0, offset);
      while attempt < 2
        invariant 0 <= attempt < 2
        invariant whole.0 == RegisterLoop(origin, bridge, boot, b, attempt, offset).0
        invariant whole.1 == sent + RegisterLoop(origin, bridge, boot, b, attempt, offset).1
        decreases 2 - attempt
      {
        var t := if attempt == 0 then b.first else b.second;
        var proof := RegistrationProof(Registration(origin, boot, b.pub, TsOf(Plus(t.now, offset))));
        if proof.None? {
          assert sent + [] == sent;
          return Failed(false), sent;
        }
        sent := sent + [RegisterSent(bridge, boot, proof.value)];
        if t.reply.Unreachable? {
          return Failed(false), sent;
        }
        if t.reply.Refused? {
          if attempt == 0 && IsStale(t.reply.code, t.reply.serverTime) {
            offset := Minus(t.reply.serverTime, t.later);
            attempt := 1;
            continue;
          }
          return Failed(400 <= t.reply.status < 500 && t.reply.status != 429), sent;
        }
        return SessionFrom(t.reply.info, origin, bridge, b.pub, offset, t.later), sent;
      }
    }

    /** What follows a registration: the session is taken and stored, or the boot token is dropped for good. */
    method Conclude(r: RegisterResult, b: Browser) returns (a: Answer)
      modifies this
      ensures View() == Concluded(old(View()), r, b) && a == AnswerTo(r)
    {
      if r.Made? {
        session := Some(r.session);
        var kept := b.idb && b.writeWorks;
        if kept {
          store := Some(RecordOf(r.session));
        }
        session := Some(r.session.(persisted := kept));
        noSession := Missing;
        pendingBoot := "";
        return Ready;
      }
      if r.definitive {
        pendingBoot := "";
        noSession := Expired;
        return NotReady(Expired);
      }
      noSession := Missing;
      return NotReady(Missing);
    }

    /** `establish`. */
    method EstablishAt(bridge: string, b: Browser) returns (a: Answer, sent: seq<Sent>)
      requires Ok()
      modifies this
      ensures Ok() && (View(), a, sent) == Establish(old(View()), origin, bridge, b)
    {
      EstablishLaws(View(), origin, bridge, b);
      sent := [];
      if !b.supported {
        noSession := Unsupported;
        return NotReady(Unsupported), sent;
      }
      if session.Some? && session.value.bridge == bridge {
        return Ready, sent;
      }
      if pendingBoot != "" {
        var r;
        r, sent := RegisterWith(bridge, pendingBoot, b);
        a := Conclude(r, b);
        return a, sent;
      }
      var found := RestoreFrom(bridge, b);
      if found {
        return Ready, sent;
      }
      noSession := Missing;
      return NotReady(Missing), sent;
    }

    /** `restore`. */
    method RestoreFrom(bridge: string, b: Browser) returns (found: bool)
      modifies this
      ensures View() == Restore(old(View()), origin, bridge, b)
      ensures found == Restored(old(View()), origin, bridge, b)
    {
      if !b.idb || locked || !b.readWorks || store.None? {
        return false;
      }
      var r := store.value;
      if !r.versionOk || !r.privateKey || !r.stringsOk || r.extractable {
        if b.eraseWorks {
          store := None;
        }
        return false;
      }
      if r.origin != origin || r.bridge != bridge {
        return false;
      }
      session := Some(Session(r.sid, r.pub, r.origin, r.bridge, if r.offset.Some? then r.offset else Some(0.0), true));
      return true;
    }

    /** `signedFetch`. */
    method FetchSigned(f: Fetch, host: string -> string) returns (r: FetchResult, sent: seq<Sent>)
      requires Ok()
      modifies this
      ensures Ok() && (View(), r, sent) == SignedFetch(old(View()), f, host)
    {
      FetchKeepsValid(View(), f, origin, host);
      sent := [];
      if session.None? || !f.supported || host(f.url) != host(session.value.bridge) || f.bodyHash.None? {
        return Threw, sent;
      }
      ghost var whole := FetchLoop(View(), f, 0);
      r := Threw;
      var attempt := 0;
      while attempt < 2
        invariant 0 <= attempt < 2 && session.Some?
        invariant whole.0 == FetchLoop(View(), f, attempt).0 && whole.1 == FetchLoop(View(), f, attempt).1
        invariant whole.2 == sent + FetchLoop(View(), f, attempt).2
        decreases 2 - attempt
      {
        var t := if attempt == 0 then f.first else f.second;
        var out := SentBy(session.value, f, t);
        if out.None? {
          assert sent + [] == sent;
          return Threw, sent;
        }
        sent := sent + [out.value];
        if t.reply.NoResponse? {
          return Threw, sent;
        }
        if t.reply.status == 401 && attempt == 0 && IsStale(t.reply.code, t.reply.serverTime) {
          session := Some(session.value.(offset := Minus(t.reply.serverTime, t.later)));
          assert whole.2 == sent + FetchLoop(View(), f, 1).2;
          attempt := 1;
          continue;
        }
        return Got(t.reply.status, t.reply.code), sent;
      }
    }

    method Invalidate(expired: bool, idb: bool, eraseWorks: bool)
      requires Ok()
      modifies this
      ensures Ok() && session.None? && pendingBoot == old(pendingBoot) && locked == old(locked)
      ensures noSession == if expired then Expired else Missing
      ensures store == if idb && eraseWorks then None else old(store)
    {
      session := None;
      noSession := if expired then Expired else Missing;
      if idb && eraseWorks {
        store := None;
      }
    }

    method DropAll()
      requires Ok()
      modifies this
      ensures Ok() && View() == DropMemory(old(View()))
    {
      session := None;
      pendingBoot := "";
      noSession := Missing;
    }

    /** `clear`: the memory is dropped and the lock set before the store is erased, which may fail. */
    method ClearAll(lock: bool, idb: bool, eraseWorks: bool)
      requires Ok()
      modifies this
      ensures Ok() && View() == Clear(old(View()), lock, idb, eraseWorks)
    {
      DropAll();
      if lock {
        locked := true;
      }
      if idb && eraseWorks {
        store := None;
      }
    }

    /** `end`: tell the daemon, then forget the session whatever came of it. */
    method End(f: Fetch, host: string -> string, idb: bool, eraseWorks: bool) returns (sent: seq<Sent>)
      requires Ok()
      modifies this
      ensures Ok() && View() == Clear(SignedFetch(old(View()), f, host).0, false, idb, eraseWorks)
      ensures sent == SignedFetch(old(View()), f, host).2
    {
      sent := [];
      if session.Some? {
        var r;
        r, sent := FetchSigned(f, host);
      }
      ClearAll(false, idb, eraseWorks);
    }
  }
}
