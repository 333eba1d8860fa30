/** Human sessions: a token is good while its entry in the store is, is replaced when little
    of its life is left, and stays usable for a short grace after that. Times in seconds. */
module Sessions {
  import opened Prelude

  const TTL: int := 3600
  const RENEW_THRESHOLD: int := 900
  const GRACE: int := 60

  /** Token identifier to the time after which the entry is dead. */
  type Store = map<string, int>

  /** The claims of a genuine token. A service token is good without an entry in the store. */
  datatype Token = Token(jti: string, exp: int, service: bool)

  /** How far the minting of a replacement gets: to the cookie, not as far as registering it,
      or registered but not signed. */
  datatype Minting = Delivered | Unregistered | Unsigned

  /** What can happen to the store. A request carries the clock readings of the check, of the
      new token's issue and of the pruning that goes with registering it; `leeway` is the
      tolerance of the signature library's own expiry check. */
  datatype Event =
    | Login(jti: string, now: int, last: int)
    | Request(token: Token, fromCookie: bool, leeway: nat, now: int, issued: int, last: int,
              newJti: string, minting: Minting)
    | Logout(jti: string, now: int, last: int)

  function Pruned(s: Store, now: int): Store {
    map j | j in s && s[j] > now :: s[j]
  }

  function Register(s: Store, jti: string, exp: int, now: int): Store {
    Pruned(s, now)[jti := exp]
  }

  predicate NeedsRenewal(exp: int, now: int) {
    (if exp > now then exp - now else 0) < RENEW_THRESHOLD
  }

  predicate Accepts(s: Store, token: Token, leeway: nat, now: int) {
    now <= token.exp + leeway && (token.service || (token.jti in s && s[token.jti] > now))
  }

  predicate Renews(s: Store, e: Event)
    requires e.Request?
  {
    && Accepts(s, e.token, e.leeway, e.now) && !e.token.service
    && e.fromCookie && NeedsRenewal(e.token.exp, e.now)
  }

  /** The request's token is replaced by a new one. */
  predicate Replaces(s: Store, e: Event)
    requires e.Request?
  {
    Renews(s, e) && e.minting == Delivered
  }

  /** A replaced token's entry is shortened to the grace window, never lengthened. */
  function Shorten(s: Store, jti: string, until: int): Store {
    if jti in s && s[jti] > until then s[jti := until] else s
  }

  function Step(s: Store, e: Event): Store {
    match e
    case Login(jti, now, last) => Register(s, jti, now + TTL, last)
    case Request(token, _, _, now, issued, last, newJti, minting) =>
      if !Renews(s, e) || minting == Unregistered then s
      else
        var registered := Register(s, newJti, issued + TTL, last);
        if minting == Unsigned then registered else Shorten(registered, token.jti, now + GRACE)
    case Logout(jti, _, _) => s - {jti}
  }

  function After(s: Store, es: seq<Event>): Store
    decreases |es|
  {
    if es == [] then s else After(Step(s, es[0]), es[1..])
  }

  ghost predicate ReadingsInOrder(e: Event) {
    e.now <= e.last && (e.Request? ==> e.now <= e.issued <= e.last)
  }

  /** Within an event and from one event to the next the clock does not go back. */
  ghost predicate ClockForward(clock: int, es: seq<Event>)
    decreases |es|
  {
    es == [] || (clock <= es[0].now && ReadingsInOrder(es[0]) && ClockForward(es[0].last, es[1..]))
  }

  /** The event registers this identifier. */
  predicate Registers(e: Event, jti: string) {
    (e.Login? && e.jti == jti) || (e.Request? && e.newJti == jti)
  }

  // ---- The user who keeps coming back ----

  function LoggedIn(s: Store, jti: string, now: int, last: int): Store {
    Step(s, Login(jti, now, last))
  }

  function NewToken(jti: string, issued: int): Token {
    Token(jti, issued + TTL, false)
  }

  /** A user's visits, always with the newest cookie, among everything else. Minting works. */
  datatype Visit = Mine(leeway: nat, now: int, issued: int, last: int, newJti: string) | Elsewhere(e: Event)

  function AsEvent(mine: Token, v: Visit): Event {
    match v
    case Mine(leeway, now, issued, last, newJti) =>
      Request(mine, true, leeway, now, issued, last, newJti, Delivered)
    case Elsewhere(e) => e
  }

  /** The cookie the user holds after the visit. */
  function NewestCookie(s: Store, mine: Token, v: Visit): Token {
    if v.Mine? && Replaces(s, AsEvent(mine, v)) then NewToken(v.newJti, v.issued) else mine
  }

  /** Every visit of the user is accepted. */
  predicate NeverRejected(s: Store, mine: Token, vs: seq<Visit>)
    decreases |vs|
  {
    vs == [] ||
    ((vs[0].Mine? ==> Accepts(s, mine, vs[0].leeway, vs[0].now))
     && NeverRejected(Step(s, AsEvent(mine, vs[0])), NewestCookie(s, mine, vs[0]), vs[1..]))
  }

  /** At most `gap` seconds pass between the user's visits; nobody else presents, registers or
      logs out the user's newest token; identifiers are fresh. */
  ghost predicate Attentive(gap: int, s: Store, mine: Token, seen: int, clock: int, vs: seq<Visit>)
    decreases |vs|
  {
    vs == [] ||
    (var v, e := vs[0], AsEvent(mine, vs[0]);
     && clock <= e.now && ReadingsInOrder(e)
     && (v.Mine? ==> v.now - seen <= gap && v.newJti != mine.jti)
     && (v.Elsewhere? ==> !Registers(e, mine.jti) && (e.Request? ==> e.token.jti != mine.jti)
                          && (e.Logout? ==> e.jti != mine.jti))
     && Attentive(gap, Step(s, e), NewestCookie(s, mine, v), if v.Mine? then v.now else seen, e.last, vs[1..]))
  }

  /** The newest token has at least a threshold's worth of life left as of the last visit, and
      its entry stands unshortened unless the clock has passed it. */
  ghost predicate Secure(s: Store, mine: Token, seen: int, clock: int) {
    && !mine.service && mine.exp >= seen + RENEW_THRESHOLD
    && ((mine.jti in s && s[mine.jti] == mine.exp) || mine.exp <= clock)
  }

  lemma {:induction false} AttentiveUserStays(
      gap: int, s: Store, mine: Token, seen: int, clock: int, vs: seq<Visit>)
    requires gap < RENEW_THRESHOLD
    requires Secure(s, mine, seen, clock) && Attentive(gap, s, mine, seen, clock, vs)
    ensures NeverRejected(s, mine, vs)
    decreases |vs|
  {
    if vs != [] {
      var v, e := vs[0], AsEvent(mine, vs[0]);
      var mine' := NewestCookie(s, mine, v);
      assert Secure(Step(s, e), mine', if v.Mine? then v.now else seen, e.last);
      AttentiveUserStays(gap, Step(s, e), mine', if v.Mine? then v.now else seen, e.last, vs[1..]);
    }
  }

  /** Whoever logs in and then always presents the newest cookie, leaving at most `gap` seconds
      between requests, is never rejected, over runs of any length and whatever other sessions
      do. */
  ghost predicate GapIsSafe(gap: int) {
    forall s, jti, now, last, vs ::
      Attentive(gap, LoggedIn(s, jti, now, last), NewToken(jti, now), now, last, vs)
      ==> NeverRejected(LoggedIn(s, jti, now, last), NewToken(jti, now), vs)
  }

  function VisitAt(now: int): Visit {
    Mine(0, now, now, now, "b")
  }

  /** Every fifteen minutes is too seldom: the visit at 2700 finds exactly fifteen minutes left,
      which is not yet too little, and the one at 3600 finds none. */
  lemma EveryFifteenMinutesIsTooSeldom(gap: int)
    requires gap >= RENEW_THRESHOLD
    ensures var s, mine := LoggedIn(map[], "a", 0, 0), NewToken("a", 0);
            var vs := [VisitAt(900), VisitAt(1800), VisitAt(2700), VisitAt(3600)];
            Attentive(gap, s, mine, 0, 0, vs) && !NeverRejected(s, mine, vs)
  {
    var s, mine := LoggedIn(map[], "a", 0, 0), NewToken("a", 0);
    var v1, v2, v3, v4 := VisitAt(900), VisitAt(1800), VisitAt(2700), VisitAt(3600);
    assert [v1, v2, v3, v4][1..] == [v2, v3, v4] && [v2, v3, v4][1..] == [v3, v4];
    assert [v3, v4][1..] == [v4] && [v4][1..] == [];
    assert Step(s, AsEvent(mine, v1)) == s && Step(s, AsEvent(mine, v2)) == s && Step(s, AsEvent(mine, v3)) == s;
    assert !Accepts(s, mine, 0, 3600);
    assert Attentive(gap, Step(s, AsEvent(mine, v4)), mine, 3600, 3600, []);
    assert Attentive(gap, s, mine, 2700, 2700, [v4]) && !NeverRejected(s, mine, [v4]);
    assert Attentive(gap, s, mine, 1800, 1800, [v3, v4]) && !NeverRejected(s, mine, [v3, v4]);
    assert Attentive(gap, s, mine, 900, 900, [v2, v3, v4]) && !NeverRejected(s, mine, [v2, v3, v4]);
  }

  /** The sliding session keeps its user exactly when requests are less than the renewal
      threshold apart: at most 899 seconds. */
  lemma GapIsSafeIff(gap: int)
    ensures GapIsSafe(gap) <==> gap <= 899
  {
    if gap <= 899 {
      forall s, jti, now, last, vs |
        Attentive(gap, LoggedIn(s, jti, now, last), NewToken(jti, now), now, last, vs)
        ensures NeverRejected(LoggedIn(s, jti, now, last), NewToken(jti, now), vs)
      {
        AttentiveUserStays(gap, LoggedIn(s, jti, now, last), NewToken(jti, now), now, last, vs);
      }
    } else {
      EveryFifteenMinutesIsTooSeldom(gap);
    }
  }

  // ---- What is accepted, replaced and kept ----

  /** A service token is accepted until its own expiry, the library's tolerance included; a human
      one also needs an entry that is still alive. Nothing else is. */
  lemma AcceptedExactly(s: Store, token: Token, leeway: nat, now: int)
    ensures token.service ==> (Accepts(s, token, leeway, now) <==> now <= token.exp + leeway)
    ensures !token.service ==> (Accepts(s, token, leeway, now) <==>
              now <= token.exp + leeway && token.jti in s && now < s[token.jti])
    ensures now > token.exp + leeway ==> !Accepts(s, token, leeway, now)
  {
  }

  /** A token is replaced exactly when it is a human's, came by cookie, was accepted, has less than
      fifteen minutes left and a new one could be minted. */
  lemma ReplacedExactly(s: Store, e: Event)
    requires e.Request?
    ensures Replaces(s, e) <==>
            && !e.token.service && e.fromCookie && e.now <= e.token.exp + e.leeway
            && e.token.jti in s && e.now < s[e.token.jti] && e.token.exp - e.now < 900 && e.minting == Delivered
  {
  }

  /** What a replacing request leaves: the new token's entry for an hour from its issue, the old
      one's for at most sixty seconds more, and every other entry that is not dead as it was. */
  lemma ReplacementLeaves(s: Store, e: Event)
    requires e.Request? && Replaces(s, e) && e.newJti != e.token.jti
    ensures var after := Step(s, e);
            && e.newJti in after && after[e.newJti] == e.issued + 3600
            && (e.token.jti in after <==> s[e.token.jti] > e.last)
            && (e.token.jti in after ==>
                  after[e.token.jti] == if s[e.token.jti] > e.now + 60 then e.now + 60 else s[e.token.jti])
            && (forall j :: j != e.newJti && j != e.token.jti ==>
                  (j in after <==> j in s && s[j] > e.last) && (j in after ==> after[j] == s[j]))
  {
  }

  /** A login gives an hour; a logout takes exactly its own entry; any other request leaves the
      store alone, but that one whose new token could not be signed has registered it. */
  lemma OtherEventsLeave(s: Store, e: Event)
    ensures e.Login? ==>
              && e.jti in Step(s, e) && Step(s, e)[e.jti] == e.now + 3600
              && forall j :: j != e.jti ==>
                   (j in Step(s, e) <==> j in s && s[j] > e.last) && (j in Step(s, e) ==> Step(s, e)[j] == s[j])
    ensures e.Logout? ==>
              forall j :: (j in Step(s, e) <==> j in s && j != e.jti) && (j in Step(s, e) ==> Step(s, e)[j] == s[j])
    ensures e.Request? && !Replaces(s, e) && !(Renews(s, e) && e.minting == Unsigned) ==> Step(s, e) == s
  {
  }

  // ---- A replaced token dies ----

  ghost predicate Capped(s: Store, jti: string, until: int) {
    jti in s ==> s[jti] <= until
  }

  lemma {:induction false} CapHolds(s: Store, jti: string, until: int, es: seq<Event>)
    requires Capped(s, jti, until) && forall e :: e in es ==> !Registers(e, jti)
    ensures Capped(After(s, es), jti, until)
    decreases |es|
  {
    if es != [] {
      assert !Registers(es[0], jti);
      CapHolds(Step(s, es[0]), jti, until, es[1..]);
    }
  }

  /** Once replaced, a token is never accepted 60 seconds or more after its replacement, by
      cookie or header, however often it was replayed in between. */
  lemma ReplacedTokenDies(s: Store, e: Event, es: seq<Event>, leeway: nat, later: int)
    requires e.Request? && Replaces(s, e) && e.newJti != e.token.jti && ReadingsInOrder(e)
    requires forall x :: x in es ==> !Registers(x, e.token.jti)
    requires later >= e.now + 60
    ensures !Accepts(After(Step(s, e), es), e.token, leeway, later)
  {
    CapHolds(Step(s, e), e.token.jti, e.now + GRACE, es);
  }

  /** Within the grace window the replaced token still works, as long as its entry would have
      anyway: requests in flight with the old cookie are not rejected. */
  lemma ReplacedTokenHasGrace(s: Store, e: Event, later: int, leeway: nat)
    requires e.Request? && Replaces(s, e) && e.newJti != e.token.jti && ReadingsInOrder(e)
    requires s[e.token.jti] <= e.token.exp && e.last <= later
    ensures Accepts(Step(s, e), e.token, leeway, later) <==>
            later < e.now + 60 && later < s[e.token.jti]
  {
  }

  // ---- Stored expiry and pruning ----

  /** Identifiers registered so far, with the expiry of their tokens. */
  function Minted(m: map<string, int>, s: Store, e: Event): map<string, int> {
    if e.Login? then m[e.jti := e.now + TTL]
    else if e.Request? && Renews(s, e) && e.minting != Unregistered then m[e.newJti := e.issued + TTL]
    else m
  }

  function AllMinted(m: map<string, int>, s: Store, es: seq<Event>): map<string, int>
    decreases |es|
  {
    if es == [] then m else AllMinted(Minted(m, s, es[0]), Step(s, es[0]), es[1..])
  }

  ghost predicate WithinMinted(s: Store, m: map<string, int>) {
    forall j :: j in s ==> j in m && s[j] <= m[j]
  }

  /** Over every run no entry outlives its token. */
  lemma {:induction false} EntriesDieWithTheirTokens(s: Store, m: map<string, int>, es: seq<Event>)
    requires WithinMinted(s, m)
    ensures WithinMinted(After(s, es), AllMinted(m, s, es))
    decreases |es|
  {
    if es != [] {
      assert WithinMinted(Step(s, es[0]), Minted(m, s, es[0]));
      EntriesDieWithTheirTokens(Step(s, es[0]), Minted(m, s, es[0]), es[1..]);
    }
  }

  lemma StepOnlyShrinks(s: Store, e: Event, jti: string)
    requires !Registers(e, jti)
    ensures jti in Step(s, e) ==> jti in s && Step(s, e)[jti] <= s[jti]
  {
  }

  /** Over every run that does not register the identifier again its entry never grows, and
      once gone it stays gone. */
  lemma {:induction false} StoredExpiryOnlyShrinks(s: Store, es: seq<Event>, jti: string)
    requires forall e :: e in es ==> !Registers(e, jti)
    ensures jti in After(s, es) ==> jti in s && After(s, es)[jti] <= s[jti]
    decreases |es|
  {
    if es != [] {
      assert !Registers(es[0], jti);
      StepOnlyShrinks(s, es[0], jti);
      StoredExpiryOnlyShrinks(Step(s, es[0]), es[1..], jti);
    }
  }

  /** The same event without dropping dead entries. */
  function StepUnpruned(s: Store, e: Event): Store {
    match e
    case Login(jti, now, _) => s[jti := now + TTL]
    case Request(token, _, _, now, issued, _, newJti, minting) =>
      if !Renews(s, e) || minting == Unregistered then s
      else
        var registered := s[newJti := issued + TTL];
        if minting == Unsigned then registered else Shorten(registered, token.jti, now + GRACE)
    case Logout(jti, _, _) => s - {jti}
  }

  function Verdicts(s: Store, es: seq<Event>): seq<bool>
    decreases |es|
  {
    if es == [] then []
    else (if es[0].Request? then [Accepts(s, es[0].token, es[0].leeway, es[0].now)] else [])
         + Verdicts(Step(s, es[0]), es[1..])
  }

  function VerdictsUnpruned(s: Store, es: seq<Event>): seq<bool>
    decreases |es|
  {
    if es == [] then []
    else (if es[0].Request? then [Accepts(s, es[0].token, es[0].leeway, es[0].now)] else [])
         + VerdictsUnpruned(StepUnpruned(s, es[0]), es[1..])
  }

  /** `full` is `s` plus entries that are dead by `now`. */
  ghost predicate OnlyDeadMore(s: Store, full: Store, now: int) {
    && (forall j :: j in s ==> j in full && full[j] == s[j])
    && (forall j :: j in full && j !in s ==> full[j] <= now)
  }

  /** No event registers an identifier that is already in the store. */
  ghost predicate FreshIds(full: Store, es: seq<Event>)
    decreases |es|
  {
    es == [] ||
    (&& (es[0].Login? ==> es[0].jti !in full)
     && (es[0].Request? ==> es[0].newJti !in full && es[0].newJti != es[0].token.jti)
     && FreshIds(StepUnpruned(full, es[0]), es[1..]))
  }

  lemma StepKeepsOnlyDead(s: Store, full: Store, now: int, e: Event)
    requires OnlyDeadMore(s, full, now) && now <= e.now && ReadingsInOrder(e)
    requires e.Login? ==> e.jti !in full
    requires e.Request? ==> e.newJti !in full && e.newJti != e.token.jti
    ensures OnlyDeadMore(Step(s, e), StepUnpruned(full, e), e.last)
  {
  }

  lemma {:induction false} PruningChangesNothing(s: Store, full: Store, now: int, es: seq<Event>)
    requires OnlyDeadMore(s, full, now) && ClockForward(now, es) && FreshIds(full, es)
    ensures Verdicts(s, es) == VerdictsUnpruned(full, es)
    decreases |es|
  {
    if es != [] {
      StepKeepsOnlyDead(s, full, now, es[0]);
      PruningChangesNothing(Step(s, es[0]), StepUnpruned(full, es[0]), es[0].last, es[1..]);
    }
  }

  /** Dropping dead entries on every registration changes no verdict of any run. */
  lemma PruningIsInvisible(now: int, es: seq<Event>)
    requires ClockForward(now, es) && FreshIds(map[], es)
    ensures Verdicts(map[], es) == VerdictsUnpruned(map[], es)
  {
    PruningChangesNothing(map[], map[], now, es);
  }

  class SessionStore {
    var entries: Store

    constructor ()
      ensures entries == map[]
    {
      entries := map[];
    }

    method RegisterJti(jti: string, expires: int, now: int)
      modifies this
      ensures entries == Register(old(entries), jti, expires, now)
      ensures jti in entries && entries[jti] == expires
      ensures forall j :: j != jti ==> (j in entries <==> j in old(entries) && old(entries)[j] > now)
      ensures forall j :: j != jti && j in entries ==> entries[j] == old(entries)[j]
    {
      entries := map j | j in entries && entries[j] > now :: entries[j];
      entries := entries[jti := expires];
    }

    /** Registers first and signs afterwards; `signs` tells whether signing works. */
    method GenerateToken(jti: string, issued: int, now: int, signs: bool) returns (token: Option<Token>)
      modifies this
      ensures token == if signs then Some(NewToken(jti, issued)) else None
      ensures entries == Register(old(entries), jti, issued + TTL, now)
    {
      var expires := issued + TTL;
      RegisterJti(jti, expires, now);
      token := if signs then Some(Token(jti, expires, false)) else None;
    }

    /** The guard: signature library, then the store, then renewal for cookies. A failure to
        mint a replacement does not reject the request. */
    method AuthenticateToken(
        token: Token, fromCookie: bool, leeway: nat, now: int, issued: int, last: int, newJti: string,
        minting: Minting)
      returns (accepted: bool, cookie: Option<Token>)
      modifies this
      ensures var e := Request(token, fromCookie, leeway, now, issued, last, newJti, minting);
              && entries == Step(old(entries), e)
              && (accepted <==> Accepts(old(entries), token, leeway, now))
              && (accepted <==> now <= token.exp + leeway
                                && (token.service || (token.jti in old(entries) && now < old(entries)[token.jti])))
              && cookie == (if Replaces(old(entries), e) then Some(NewToken(newJti, issued)) else None)
              && (cookie.Some? <==> accepted && !token.service && fromCookie && token.exp - now < 900
                                    && minting == Delivered)
              && (cookie.Some? ==> cookie.value == Token(newJti, issued + 3600, false))
    {
      if now > token.exp + leeway { return false, None; }
      if token.service { return true, None; }
      if token.jti !in entries || entries[token.jti] <= now { return false, None; }
      if fromCookie {
        cookie := RenewIfNeeded(token, now, issued, last, newJti, minting);
      } else {
        cookie := None;
      }
      accepted := true;
    }

    method RenewIfNeeded(token: Token, now: int, issued: int, last: int, newJti: string, minting: Minting)
      returns (cookie: Option<Token>)
      modifies this
      ensures cookie.Some? <==> NeedsRenewal(token.exp, now) && minting == Delivered
      ensures cookie.Some? ==>
                && cookie.value == NewToken(newJti, issued)
                && entries == Shorten(Register(old(entries), newJti, issued + TTL, last), token.jti, now + GRACE)
      ensures cookie.None? ==>
                entries == if NeedsRenewal(token.exp, now) && minting == Unsigned
                           then Register(old(entries), newJti, issued + TTL, last) else old(entries)
    {
      if !NeedsRenewal(token.exp, now) { return None; }
      if minting == Unregistered { return None; }
      var successor := GenerateToken(newJti, issued, last, minting != Unsigned);
      if successor.None? { return None; }
      var graceExp := now + GRACE;
      if token.jti in entries && entries[token.jti] > graceExp {
        entries := entries[token.jti := graceExp];
      }
      cookie := successor;
    }

    method InvalidateToken(jti: string, now: int)
      modifies this
      ensures entries == Step(old(entries), Logout(jti, now, now))
      ensures entries == old(entries) - {jti}
    {
      entries := entries - {jti};
    }
  }
}
