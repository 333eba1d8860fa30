/** Replay nonces: issued with every response, consumed by a request before anything else is
    checked, and swept when they are older than an hour. */
module AcmeNonces {
  import opened Prelude

  const HOUR: int := 3_600_000

  type Table = map<string, int>

  datatype Op = Issue(nonce: string, now: int) | Consume(nonce: string, now: int) | Sweep(now: int)

  /** The nonce is on record and younger than an hour. */
  predicate Live(t: Table, nonce: string, now: int) {
    nonce in t && t[nonce] > now - HOUR
  }

  /** A nonce already on record is not inserted again: it is the primary key. */
  function Insert(t: Table, nonce: string, now: int): Table {
    if nonce in t then t else t[nonce := now]
  }

  function Take(t: Table, nonce: string, now: int): Table {
    if Live(t, nonce, now) then t - {nonce} else t
  }

  function Swept(t: Table, now: int): Table {
    map n | n in t && t[n] >= now - HOUR :: t[n]
  }

  function Step(t: Table, op: Op): Table {
    match op
    case Issue(nonce, now) => Insert(t, nonce, now)
    case Consume(nonce, now) => Take(t, nonce, now)
    case Sweep(now) => Swept(t, now)
  }

  function After(t: Table, ops: seq<Op>): Table
    decreases |ops|
  {
    if ops == [] then t else Step(After(t, ops[..|ops| - 1]), ops[|ops| - 1])
  }

  /** The verdicts on the consumptions of a run, in order. */
  function Verdicts(t: Table, ops: seq<Op>): seq<bool>
    decreases |ops|
  {
    if ops == [] then []
    else
      (if ops[0].Consume? then [Live(t, ops[0].nonce, ops[0].now)] else [])
      + Verdicts(Step(t, ops[0]), ops[1..])
  }

  function WithoutSweeps(ops: seq<Op>): seq<Op> {
    if ops == [] then []
    else (if ops[0].Sweep? then [] else [ops[0]]) + WithoutSweeps(ops[1..])
  }

  // ---- Assumptions about runs ----

  ghost predicate ClockForward(ops: seq<Op>) {
    forall i, j :: 0 <= i < j < |ops| ==> ops[i].now <= ops[j].now
  }

  /** Nonces are random identifiers: none is issued twice. */
  ghost predicate NoncesFresh(ops: seq<Op>) {
    forall i, j :: 0 <= i < j < |ops| && ops[i].Issue? && ops[j].Issue? ==> ops[i].nonce != ops[j].nonce
  }

  /** Operation `i` of a run from the empty table is a consumption that is accepted. */
  ghost predicate AcceptedAt(ops: seq<Op>, i: nat) {
    i < |ops| && ops[i].Consume? && Live(After(map[], ops[..i]), ops[i].nonce, ops[i].now)
  }

  lemma {:induction false} OnRecordMeansIssued(ops: seq<Op>, nonce: string) returns (k: nat)
    requires nonce in After(map[], ops)
    ensures k < |ops| && ops[k] == Issue(nonce, After(map[], ops)[nonce])
  {
    var n := |ops| - 1;
    var before := After(map[], ops[..n]);
    if ops[n].Issue? && ops[n].nonce == nonce && nonce !in before {
      k := n;
    } else {
      k := OnRecordMeansIssued(ops[..n], nonce);
      assert ops[k] == ops[..n][k];
    }
  }

  lemma {:induction false} GoneStaysGone(ops: seq<Op>, i: nat, nonce: string)
    requires i <= |ops| && nonce !in After(map[], ops[..i])
    requires forall j :: i <= j < |ops| && ops[j].Issue? ==> ops[j].nonce != nonce
    ensures nonce !in After(map[], ops)
    decreases |ops|
  {
    if i == |ops| {
      assert ops[..i] == ops;
    } else {
      var n := |ops| - 1;
      assert ops[..n][..i] == ops[..i];
      GoneStaysGone(ops[..n], i, nonce);
    }
  }

  /** Accepted only within the hour after it was issued, in every interleaving. */
  lemma AcceptedWithinItsHour(ops: seq<Op>, i: nat) returns (k: nat)
    requires ClockForward(ops) && AcceptedAt(ops, i)
    ensures k < i && ops[k].Issue? && ops[k].nonce == ops[i].nonce
    ensures 0 <= ops[i].now - ops[k].now < HOUR
  {
    k := OnRecordMeansIssued(ops[..i], ops[i].nonce);
    assert ops[..i][k] == ops[k];
  }

  /** Accepted at most once, in every interleaving of issuing, consuming and sweeping. */
  lemma AcceptedAtMostOnce(ops: seq<Op>, i: nat, j: nat)
    requires NoncesFresh(ops) && AcceptedAt(ops, i) && i < j < |ops|
    requires ops[j].Consume? && ops[j].nonce == ops[i].nonce
    ensures !AcceptedAt(ops, j)
  {
    var k := OnRecordMeansIssued(ops[..i], ops[i].nonce);
    assert ops[..i][k] == ops[k];
    assert ops[..i + 1][..i] == ops[..i];
    assert ops[i].nonce !in After(map[], ops[..i + 1]);
    assert ops[..j][..i + 1] == ops[..i + 1];
    forall l | i + 1 <= l < j && ops[..j][l].Issue?
      ensures ops[..j][l].nonce != ops[i].nonce
    {
      assert ops[..j][l] == ops[l];
    }
    GoneStaysGone(ops[..j], i + 1, ops[i].nonce);
  }

  lemma OneMoreOp(ops: seq<Op>, n: nat)
    requires n < |ops|
    ensures After(map[], ops[..n + 1]) == Step(After(map[], ops[..n]), ops[n])
  {
    var more := ops[..n + 1];
    assert more[..n] == ops[..n];
    assert more[n] == ops[n];
  }

  /** The nonce is on record with the time of its issue, as long as nothing took it. */
  lemma {:induction false} StaysOnRecord(ops: seq<Op>, k: nat, n: nat)
    requires ClockForward(ops) && NoncesFresh(ops) && k < n <= |ops| && ops[k].Issue?
    requires forall j :: k < j < n && ops[j].Consume? && ops[j].nonce == ops[k].nonce ==> !AcceptedAt(ops, j)
    requires forall j :: k < j < n && ops[j].Sweep? ==> ops[j].now - ops[k].now <= HOUR
    ensures ops[k].nonce in After(map[], ops[..n]) && After(map[], ops[..n])[ops[k].nonce] == ops[k].now
  {
    var nonce, before := ops[k].nonce, After(map[], ops[..n - 1]);
    OneMoreOp(ops, n - 1);
    if n - 1 == k {
      assert forall e :: 0 <= e < k ==> ops[..k][e] == ops[e];
      if nonce in before {
        var _ := OnRecordMeansIssued(ops[..k], nonce);
      }
    } else {
      StaysOnRecord(ops, k, n - 1);
      assert ops[n - 1].Consume? && ops[n - 1].nonce == nonce ==> !AcceptedAt(ops, n - 1);
    }
  }

  /** Operation `k` issued the nonce that `i` consumes, less than an hour before, and nothing was
      accepted for it in between. */
  ghost predicate DueTo(ops: seq<Op>, i: nat, k: nat) {
    && k < i < |ops| && ops[i].Consume? && ops[k] == Issue(ops[i].nonce, ops[k].now)
    && ops[i].now - ops[k].now < 3_600_000
    && forall j :: k < j < i && ops[j].Consume? && ops[j].nonce == ops[i].nonce ==> !AcceptedAt(ops, j)
  }

  /** Exactly which consumptions are accepted, in every interleaving: the first within the hour
      after the nonce was issued. */
  lemma AcceptedIff(ops: seq<Op>, i: nat)
    requires ClockForward(ops) && NoncesFresh(ops) && i < |ops| && ops[i].Consume?
    ensures AcceptedAt(ops, i) <==> exists k :: DueTo(ops, i, k)
  {
    if AcceptedAt(ops, i) {
      var k := AcceptedWithinItsHour(ops, i);
      forall j | k < j < i && ops[j].Consume? && ops[j].nonce == ops[i].nonce
        ensures !AcceptedAt(ops, j)
      {
        if AcceptedAt(ops, j) {
          AcceptedAtMostOnce(ops, j, i);
        }
      }
      assert DueTo(ops, i, k);
    }
    if k :| DueTo(ops, i, k) {
      StaysOnRecord(ops, k, i);
    }
  }

  // ---- Sweeping is invisible ----

  /** `full` is `t` plus entries too old to matter from `now` on. */
  ghost predicate OnlyStaleMore(t: Table, full: Table, now: int) {
    && (forall n :: n in t ==> n in full && full[n] == t[n])
    && (forall n :: n in full && n !in t ==> full[n] < now - HOUR)
  }

  lemma {:induction false} SweepingChangesNothing(t: Table, full: Table, now: int, ops: seq<Op>)
    requires OnlyStaleMore(t, full, now) && ClockForward(ops) && NoncesFresh(ops)
    requires forall i :: 0 <= i < |ops| ==> now <= ops[i].now
    requires forall i :: 0 <= i < |ops| && ops[i].Issue? ==> ops[i].nonce !in full
    ensures Verdicts(t, ops) == Verdicts(full, WithoutSweeps(ops))
    decreases |ops|
  {
    if ops != [] {
      var op, rest := ops[0], ops[1..];
      var full' := if op.Sweep? then full else Step(full, op);
      assert OnlyStaleMore(Step(t, op), full', op.now);
      assert forall i :: 0 <= i < |rest| ==> rest[i] == ops[i + 1];
      SweepingChangesNothing(Step(t, op), full', op.now, rest);
      if op.Sweep? {
        assert WithoutSweeps(ops) == WithoutSweeps(rest);
        assert Verdicts(t, ops) == Verdicts(Step(t, op), rest);
      } else {
        assert WithoutSweeps(ops) == [op] + WithoutSweeps(rest);
        assert WithoutSweeps(ops)[1..] == WithoutSweeps(rest);
      }
    }
  }

  /** Removing every sweep from any run changes no verdict on any nonce. */
  lemma SweepsAreInvisible(ops: seq<Op>)
    requires ClockForward(ops) && NoncesFresh(ops)
    ensures Verdicts(map[], ops) == Verdicts(map[], WithoutSweeps(ops))
  {
    if ops != [] {
      SweepingChangesNothing(map[], map[], ops[0].now, ops);
    }
  }

  // ---- Authenticating a request ----

  /** What the order of the checks depends on. `signed` covers account lookup and signature. */
  datatype Jws = Jws(parses: bool, hasJwk: bool, hasKid: bool, nonce: Option<string>, urlMatches: bool, signed: bool)

  datatype Verdict = Malformed | BothKeys | BadNonce | WrongUrl | NoKid | BadSignature | Authentic

  function NonceOf(jws: Jws): string {
    if jws.nonce.Some? then jws.nonce.value else ""
  }

  /** The nonce goes before the URL, the key and the signature are looked at. */
  function Authenticate(t: Table, jws: Jws, now: int): (Table, Verdict) {
    if !jws.parses then (t, Malformed)
    else if jws.hasJwk && jws.hasKid then (t, BothKeys)
    else if !Live(t, NonceOf(jws), now) then (t, BadNonce)
    else
      (Take(t, NonceOf(jws), now),
       if !jws.urlMatches then WrongUrl
       else if !jws.hasKid then NoKid
       else if !jws.signed then BadSignature
       else Authentic)
  }

  /** The nonce the request carries is on record and younger than an hour; no nonce counts as the
      empty one. */
  predicate CarriesLive(t: Table, jws: Jws, now: int) {
    var nonce := if jws.nonce.Some? then jws.nonce.value else "";
    nonce in t && now - t[nonce] < 3_600_000
  }

  /** Authentic is exactly a request that parses, names one key by its id, carries a live nonce
      and the right URL, and whose signature holds. */
  lemma AuthenticIff(t: Table, jws: Jws, now: int)
    ensures Authenticate(t, jws, now).1 == Authentic <==>
            jws.parses && !jws.hasJwk && jws.hasKid && CarriesLive(t, jws, now) && jws.urlMatches && jws.signed
  {
  }

  /** The first check that fails names the verdict; the nonce is gone from the moment it was found
      live, whatever comes after, and nothing else ever changes. */
  lemma VerdictIsTheFirstFailure(t: Table, jws: Jws, now: int)
    ensures var (after, verdict) := Authenticate(t, jws, now);
            var both := jws.hasJwk && jws.hasKid;
            var used := jws.parses && !both && CarriesLive(t, jws, now);
            && (verdict == Malformed <==> !jws.parses)
            && (verdict == BothKeys <==> jws.parses && both)
            && (verdict == BadNonce <==> jws.parses && !both && !CarriesLive(t, jws, now))
            && (verdict == WrongUrl <==> used && !jws.urlMatches)
            && (verdict == NoKid <==> used && jws.urlMatches && !jws.hasKid)
            && (verdict == BadSignature <==> used && jws.urlMatches && jws.hasKid && !jws.signed)
            && (if used then after == t - {if jws.nonce.Some? then jws.nonce.value else ""} else after == t)
  {
  }

  /** Off record, or an hour old. */
  ghost predicate Spent(t: Table, nonce: string, now: int) {
    nonce in t ==> t[nonce] <= now - HOUR
  }

  lemma {:induction false} SpentStaysSpent(t: Table, ops: seq<Op>, nonce: string, now: int)
    requires Spent(t, nonce, now) && forall op :: op in ops && op.Issue? ==> op.nonce != nonce
    ensures Spent(After(t, ops), nonce, now)
    decreases |ops|
  {
    if ops != [] {
      var n := |ops| - 1;
      assert ops[n] in ops && forall op :: op in ops[..n] ==> op in ops;
      SpentStaysSpent(t, ops[..n], nonce, now);
    }
  }

  /** Whatever the outcome and whatever is issued, consumed and swept in between, presenting the
      same request again later never authenticates; if it got as far as the nonce, it fails on
      the nonce. */
  lemma ReplayIsRejected(t: Table, jws: Jws, now: int, between: seq<Op>, later: int)
    requires now <= later
    requires forall op :: op in between && op.Issue? ==> op.nonce != NonceOf(jws)
    ensures var (after, verdict) := Authenticate(t, jws, now);
            var t' := After(after, between);
            && Authenticate(t', jws, later).1 != Authentic
            && (verdict != Malformed && verdict != BothKeys ==> Authenticate(t', jws, later) == (t', BadNonce))
  {
    var (after, verdict) := Authenticate(t, jws, now);
    if verdict != Malformed && verdict != BothKeys {
      SpentStaysSpent(after, between, NonceOf(jws), now);
    }
  }

  class NonceTable {
    var rows: Table

    constructor ()
      ensures rows == map[]
    {
      rows := map[];
    }

    method InsertNonce(nonce: string, now: int)
      modifies this
      ensures rows == Step(old(rows), Issue(nonce, now))
      ensures rows == if nonce in old(rows) then old(rows) else old(rows)[nonce := now]
    {
      if nonce !in rows {
        rows := rows[nonce := now];
      }
    }

    /** One conditional delete decides and consumes. */
    method ValidateAndDelete(nonce: string, now: int) returns (valid: bool)
      modifies this
      ensures rows == Step(old(rows), Consume(nonce, now))
      ensures valid <==> Live(old(rows), nonce, now)
      ensures valid <==> nonce in old(rows) && old(rows)[nonce] > now - 3_600_000
      ensures rows == if valid then old(rows) - {nonce} else old(rows)
    {
      var cutoff := now - HOUR;
      valid := nonce in rows && rows[nonce] > cutoff;
      if valid {
        rows := rows - {nonce};
      }
    }

    method CleanupOld(now: int)
      modifies this
      ensures rows == Step(old(rows), Sweep(now))
      ensures forall n :: n in rows <==> n in old(rows) && old(rows)[n] >= now - 3_600_000
      ensures forall n :: n in rows ==> rows[n] == old(rows)[n]
    {
      var cutoff := now - HOUR;
      rows := map n | n in rows && !(rows[n] < cutoff) :: rows[n];
    }

    /** Every response issues a nonce and sweeps. */
    method OnResponse(nonce: string, now: int)
      modifies this
      ensures rows == After(old(rows), [Issue(nonce, now), Sweep(now)])
      ensures nonce !in old(rows) ==> nonce in rows
    {
      InsertNonce(nonce, now);
      CleanupOld(now);
      var ops := [Issue(nonce, now), Sweep(now)];
      assert ops[..1] == [Issue(nonce, now)] && ops[..1][..0] == [];
      assert After(old(rows), ops[..1]) == Step(old(rows), Issue(nonce, now));
    }

    method AuthenticateJws(jws: Jws, now: int) returns (verdict: Verdict)
      modifies this
      ensures (rows, verdict) == Authenticate(old(rows), jws, now)
      ensures verdict == Authentic <==>
              && jws.parses && !jws.hasJwk && jws.hasKid && CarriesLive(old(rows), jws, now)
              && jws.urlMatches && jws.signed
    {
      if !jws.parses { return Malformed; }
      if jws.hasJwk && jws.hasKid { return BothKeys; }
      var valid := ValidateAndDelete(if jws.nonce.Some? then jws.nonce.value else "", now);
      if !valid { return BadNonce; }
      if !jws.urlMatches { return WrongUrl; }
      if !jws.hasKid { return NoKid; }
      if !jws.signed { return BadSignature; }
      return Authentic;
    }
  }
}
