/** The store of one-time bootstrap tokens and the enrolment that redeems them, one call at a time. */
module Enrolment {
  import opened Wrappers

  datatype TokenEntry = TokenEntry(agentId: string, expiresAt: int)

  datatype ConsumeError = UnknownToken | Expired | AgentMismatch

  const HOUR := 3600
  const DEFAULT_TOKEN_TTL_HOURS := 24
  const DEFAULT_AGENT_VALIDITY_DAYS := 365

  type Tokens = map<string, TokenEntry>

  /** What a consume answers and leaves behind when nothing else touches the store meanwhile. */
  function Consumed(tokens: Tokens, token: string, agentId: string, now: int): (Result<TokenEntry, ConsumeError>, Tokens) {
    if token !in tokens then (Err(UnknownToken), tokens)
    else if tokens[token].expiresAt < now then (Err(Expired), tokens - {token})
    else if tokens[token].agentId != agentId then (Err(AgentMismatch), tokens)
    else (Ok(tokens[token]), tokens - {token})
  }

  /** A failed consume leaves the store as it was, as documented, except when the token had expired. */
  lemma {:induction false} FailedConsumeKeepsStoreIffNotExpired(tokens: Tokens, token: string, agentId: string, now: int)
    ensures var (r, after) := Consumed(tokens, token, agentId, now);
      r.Err? ==> (after == tokens <==> !(token in tokens && tokens[token].expiresAt < now))
  {
    if token in tokens && tokens[token].expiresAt < now {
      assert token !in tokens - {token};
    }
  }

  datatype AgentCert = AgentCert(agentId: string, validityDays: int)

  datatype EnrolError =
    | MissingToken
    | Refused(why: ConsumeError)
    | ValidityOutOfRange
    | MintFailed

  datatype IssueError = AdminDisabled | AdminAuthFailed | AgentIdRequired | TtlOutOfRange

  /** Unicode white space (the White_Space property), which `trim` takes off. */
  predicate IsWhite(c: char) {
    var n := c as int;
    || 0x09 <= n <= 0x0d || n == 0x20 || n == 0x85 || n == 0xa0 || n == 0x1680
    || 0x2000 <= n <= 0x200a || n == 0x2028 || n == 0x2029 || n == 0x202f || n == 0x205f || n == 0x3000
  }

  predicate IsBlank(s: string) {
    forall c <- s :: IsWhite(c)
  }

  function Or<T>(o: Option<T>, d: T): T {
    if o.Some? then o.value else d
  }

  class BootstrapTokenStore {
    var tokens: Tokens

    constructor ()
      ensures tokens == map[]
    {
      tokens := map[];
    }

    /** `token` is the fresh random identifier. */
    method Issue(token: string, agentId: string, ttlHours: int, now: int) returns (entry: TokenEntry)
      modifies this
      ensures entry == TokenEntry(agentId, now + ttlHours * HOUR)
      ensures tokens == old(tokens)[token := entry]
    {
      entry := TokenEntry(agentId, now + ttlHours * HOUR);
      tokens := tokens[token := entry];
    }

    /** Remove first, then check, then put back if the agent is the wrong one. */
    method Consume(token: string, agentId: string, now: int) returns (r: Result<TokenEntry, ConsumeError>)
      modifies this
      ensures (r, tokens) == Consumed(old(tokens), token, agentId, now)
    {
      if token !in tokens {
        return Err(UnknownToken);
      }
      var entry := tokens[token];
      tokens := tokens - {token};
      if entry.expiresAt < now {
        return Err(Expired);
      }
      if entry.agentId != agentId {
        tokens := tokens[token := entry];
        assert tokens == old(tokens);
        return Err(AgentMismatch);
      }
      r := Ok(entry);
    }

    method PruneExpired(now: int)
      modifies this
      ensures tokens == map t | t in old(tokens) && old(tokens)[t].expiresAt >= now :: old(tokens)[t]
    {
      var todo := tokens.Keys;
      while todo != {}
        invariant todo <= tokens.Keys <= old(tokens).Keys
        invariant forall t :: t in tokens ==> tokens[t] == old(tokens)[t]
        invariant forall t :: t in old(tokens) && t !in todo ==> (t in tokens <==> old(tokens)[t].expiresAt >= now)
        decreases todo
      {
        var t :| t in todo;
        todo := todo - {t};
        if tokens[t].expiresAt < now {
          tokens := tokens - {t};
        }
      }
    }

    /** The admin endpoint: prune, then issue. A rejected request does not touch the store. */
    method IssueBootstrapToken(adminToken: Option<string>, provided: string, agentId: string, ttlHours: Option<int>,
                               token: string, now: int) returns (r: Result<TokenEntry, IssueError>)
      modifies this
      ensures r.Ok? <==>
        && adminToken == Some(provided) && !IsBlank(agentId)
        && 1 <= Or(ttlHours, DEFAULT_TOKEN_TTL_HOURS) <= 24 * 30
      ensures r.Err? ==> tokens == old(tokens)
      ensures r.Ok? ==>
        && r.value == TokenEntry(agentId, now + Or(ttlHours, DEFAULT_TOKEN_TTL_HOURS) * HOUR)
        && tokens == (map t | t in old(tokens) && old(tokens)[t].expiresAt >= now :: old(tokens)[t])[token := r.value]
    {
      if adminToken.None? {
        return Err(AdminDisabled);
      }
      if provided != adminToken.value {
        return Err(AdminAuthFailed);
      }
      if IsBlank(agentId) {
        return Err(AgentIdRequired);
      }
      var ttl := Or(ttlHours, DEFAULT_TOKEN_TTL_HOURS);
      if !(1 <= ttl <= 24 * 30) {
        return Err(TtlOutOfRange);
      }
      PruneExpired(now);
      var entry := Issue(token, agentId, ttl, now);
      r := Ok(entry);
    }

    /** Enrolment consumes the token before it looks at the requested validity and before it mints:
        a valid token is spent even when no certificate comes of it. */
    method Enrol(token: string, agentId: string, validityDays: Option<int>, now: int, mintSucceeds: bool)
      returns (r: Result<AgentCert, EnrolError>)
      modifies this
      ensures tokens == if token == "" then old(tokens) else Consumed(old(tokens), token, agentId, now).1
      ensures r.Ok? ==>
        && token in old(tokens) && old(tokens)[token].agentId == agentId == r.value.agentId
        && now <= old(tokens)[token].expiresAt && token !in tokens
        && 1 <= r.value.validityDays <= 365 * 5
      ensures r.Ok? <==>
        && token != "" && Consumed(old(tokens), token, agentId, now).0.Ok?
        && 1 <= Or(validityDays, DEFAULT_AGENT_VALIDITY_DAYS) <= 365 * 5 && mintSucceeds
    {
      if token == "" {
        return Err(MissingToken);
      }
      var consumed := Consume(token, agentId, now);
      if consumed.Err? {
        return Err(Refused(consumed.error));
      }
      var validity := Or(validityDays, DEFAULT_AGENT_VALIDITY_DAYS);
      if !(1 <= validity <= 365 * 5) {
        return Err(ValidityOutOfRange);
      }
      if !mintSucceeds {
        return Err(MintFailed);
      }
      r := Ok(AgentCert(agentId, validity));
    }
  }
}

/** The same store under concurrent requests. Each access to the map is atomic, but a consume is a
    removal, a check and possibly a reinsertion, and other requests run in between. */
module EnrolmentConcurrent {
  import opened Wrappers
  import opened Enrolment

  /** A consumer that has taken a token out: about to check it, or about to put it back. */
  datatype Hold =
    | Checking(token: string, entry: TokenEntry, agentId: string)
    | Restoring(token: string, entry: TokenEntry, agentId: string)

  datatype Fate = Redeemed(agent: string, at: int) | Lapsed(at: int)

  datatype Outcome = Outcome(token: string, agentId: string, at: int, result: Result<TokenEntry, ConsumeError>)

  /** The clock, the map, the consumers in flight; and, as history, every token issued, the tokens that
      are gone and why, and the answers given. */
  datatype World = World(
    clock: int,
    store: Tokens,
    held: map<nat, Hold>,
    issued: Tokens,
    dead: map<string, Fate>,
    outcomes: seq<Outcome>)

  datatype Step =
    | Tick(now: int)
    | Issue(token: string, agentId: string, ttlHours: int)
    | Remove(consumer: nat, wanted: string, asAgent: string)
    | Check(checker: nat)
    | Restore(restorer: nat)
    | PruneOne(victim: string, asOf: int)

  /** Tokens are fresh, the clock does not run backwards, and a prune works with a time it read before. */
  predicate Enabled(w: World, s: Step) {
    match s
    case Tick(now) => w.clock <= now
    case Issue(token, _, _) => token !in w.issued
    case Remove(c, _, _) => c !in w.held
    case Check(c) => c in w.held && w.held[c].Checking?
    case Restore(c) => c in w.held && w.held[c].Restoring?
    case PruneOne(t, asOf) => asOf <= w.clock && t in w.store && w.store[t].expiresAt < asOf
  }

  function Answer(w: World, h: Hold, result: Result<TokenEntry, ConsumeError>): seq<Outcome> {
    w.outcomes + [Outcome(h.token, h.agentId, w.clock, result)]
  }

  function CheckHeld(w: World, c: nat): World
    requires Enabled(w, Check(c))
  {
    var h := w.held[c];
    if h.entry.expiresAt < w.clock then
      w.(held := w.held - {c}, dead := w.dead[h.token := Lapsed(w.clock)], outcomes := Answer(w, h, Err(Expired)))
    else if h.entry.agentId != h.agentId then
      w.(held := w.held[c := Restoring(h.token, h.entry, h.agentId)])
    else
      w.(held := w.held - {c}, dead := w.dead[h.token := Redeemed(h.agentId, w.clock)],
         outcomes := Answer(w, h, Ok(h.entry)))
  }

  function Apply(w: World, s: Step): World
    requires Enabled(w, s)
  {
    match s
    case Tick(now) => w.(clock := now)
    case Issue(token, agentId, ttl) =>
      var entry := TokenEntry(agentId, w.clock + ttl * HOUR);
      w.(store := w.store[token := entry], issued := w.issued[token := entry])
    case Remove(c, token, agentId) =>
      if token in w.store then
        w.(store := w.store - {token}, held := w.held[c := Checking(token, w.store[token], agentId)])
      else
        w.(outcomes := w.outcomes + [Outcome(token, agentId, w.clock, Err(UnknownToken))])
    case Check(c) => CheckHeld(w, c)
    case Restore(c) =>
      var h := w.held[c];
      w.(store := w.store[h.token := h.entry], held := w.held - {c}, outcomes := Answer(w, h, Err(AgentMismatch)))
    case PruneOne(t, _) => w.(store := w.store - {t}, dead := w.dead[t := Lapsed(w.clock)])
  }

  predicate Init(w: World) {
    w.store == map[] && w.held == map[] && w.issued == map[] && w.dead == map[] && w.outcomes == []
  }

  predicate Run(w: World, steps: seq<Step>, w': World)
    decreases |steps|
  {
    if steps == [] then w' == w
    else Enabled(w, steps[0]) && Run(Apply(w, steps[0]), steps[1..], w')
  }

  /// The invariant.

  ghost predicate InFlight(w: World, t: string) {
    exists c :: c in w.held && w.held[c].token == t
  }

  /** No issued token is in two of: the store, the hands of one consumer, the tokens gone. */
  predicate AtMostOnePlace(w: World) {
    && w.store.Keys + w.dead.Keys <= w.issued.Keys
    && w.store.Keys !! w.dead.Keys
    && (forall c :: c in w.held ==>
          w.held[c].token in w.issued && w.held[c].token !in w.store && w.held[c].token !in w.dead)
    && (forall c, d :: c in w.held && d in w.held && w.held[c].token == w.held[d].token ==> c == d)
  }

  /** And every issued token is in one of them. */
  ghost predicate SomePlace(w: World) {
    forall t :: t in w.issued ==> t in w.store || t in w.dead || InFlight(w, t)
  }

  /** Wherever it is, a token carries the entry it was issued with. */
  predicate SameEntry(w: World) {
    && (forall t :: t in w.store && t in w.issued ==> w.store[t] == w.issued[t])
    && (forall c :: c in w.held && w.held[c].token in w.issued ==> w.held[c].entry == w.issued[w.held[c].token])
    && (forall c :: c in w.held && w.held[c].Restoring? ==> w.held[c].agentId != w.held[c].entry.agentId)
  }

  /** A token is gone only because its own agent redeemed it in time or because it had expired. */
  predicate FairFate(w: World) {
    forall t :: t in w.dead && t in w.issued ==>
      match w.dead[t]
      case Redeemed(agent, at) => agent == w.issued[t].agentId && at <= w.issued[t].expiresAt
      case Lapsed(at) => w.issued[t].expiresAt < at <= w.clock
  }

  /** How often a consume of the token succeeded. */
  function Successes(outcomes: seq<Outcome>, t: string): nat {
    if outcomes == [] then 0 else
      var last := outcomes[|outcomes| - 1];
      Successes(outcomes[..|outcomes| - 1], t) + if last.token == t && last.result.Ok? then 1 else 0
  }

  predicate Unredeemed(dead: map<string, Fate>, t: string) {
    !(t in dead && dead[t].Redeemed?)
  }

  /** Each redemption is one success, and each success is a redemption by the agent that asked. */
  ghost predicate CountedOnce(dead: map<string, Fate>, outcomes: seq<Outcome>) {
    && (forall t: string :: Successes(outcomes, t) == if Unredeemed(dead, t) then 0 else 1)
    && (forall o <- outcomes :: o.result.Ok? ==> o.token in dead && dead[o.token] == Redeemed(o.agentId, o.at))
  }

  ghost predicate Inv(w: World) {
    AtMostOnePlace(w) && SomePlace(w) && SameEntry(w) && FairFate(w) && CountedOnce(w.dead, w.outcomes)
  }

  lemma {:induction false} OneMoreOutcome(outcomes: seq<Outcome>, o: Outcome, t: string)
    ensures Successes(outcomes + [o], t) == Successes(outcomes, t) + if o.token == t && o.result.Ok? then 1 else 0
  {
    assert (outcomes + [o])[..|outcomes|] == outcomes;
  }

  lemma {:induction false} FailureCounts(dead: map<string, Fate>, outcomes: seq<Outcome>, o: Outcome)
    requires CountedOnce(dead, outcomes) && o.result.Err?
    ensures CountedOnce(dead, outcomes + [o])
  {
    forall t ensures Successes(outcomes + [o], t) == Successes(outcomes, t) {
      OneMoreOutcome(outcomes, o, t);
    }
  }

  lemma {:induction false} SuccessCounts(dead: map<string, Fate>, outcomes: seq<Outcome>, o: Outcome)
    requires CountedOnce(dead, outcomes) && o.result.Ok? && o.token !in dead
    ensures CountedOnce(dead[o.token := Redeemed(o.agentId, o.at)], outcomes + [o])
  {
    var dead' := dead[o.token := Redeemed(o.agentId, o.at)];
    forall t ensures Successes(outcomes + [o], t) == if Unredeemed(dead', t) then 0 else 1 {
      OneMoreOutcome(outcomes, o, t);
      assert Successes(outcomes, t) == if Unredeemed(dead, t) then 0 else 1;
    }
  }

  lemma {:induction false} LapseCounts(dead: map<string, Fate>, outcomes: seq<Outcome>, t: string, at: int)
    requires CountedOnce(dead, outcomes) && t !in dead
    ensures CountedOnce(dead[t := Lapsed(at)], outcomes)
  {
    forall u ensures Unredeemed(dead[t := Lapsed(at)], u) <==> Unredeemed(dead, u) {
    }
  }

  lemma {:induction false} RemoveKeepsPlaces(w: World, s: Step)
    requires AtMostOnePlace(w) && Enabled(w, s) && s.Remove?
    ensures AtMostOnePlace(Apply(w, s))
  {
  }

  lemma {:induction false} CheckKeepsPlaces(w: World, s: Step)
    requires AtMostOnePlace(w) && Enabled(w, s) && s.Check?
    ensures AtMostOnePlace(Apply(w, s))
  {
  }

  lemma {:induction false} RestoreKeepsPlaces(w: World, s: Step)
    requires AtMostOnePlace(w) && Enabled(w, s) && s.Restore?
    ensures AtMostOnePlace(Apply(w, s))
  {
  }

  lemma {:induction false} AtMostOnePlaceKept(w: World, s: Step)
    requires AtMostOnePlace(w) && Enabled(w, s)
    ensures AtMostOnePlace(Apply(w, s))
  {
    match s
    case Tick(_) =>
    case Issue(_, _, _) =>
    case Remove(_, _, _) => RemoveKeepsPlaces(w, s);
    case Check(_) => CheckKeepsPlaces(w, s);
    case Restore(_) => RestoreKeepsPlaces(w, s);
    case PruneOne(_, _) =>
  }

  /** A consumer other than the one that moves keeps its token in flight. */
  lemma {:induction false} SomePlaceKept(w: World, s: Step, t: string)
    requires SomePlace(w) && Enabled(w, s) && t in Apply(w, s).issued
    ensures var w' := Apply(w, s); t in w'.store || t in w'.dead || InFlight(w', t)
  {
    var w' := Apply(w, s);
    if t in w.issued && t !in w.store && t !in w.dead {
      var c :| c in w.held && w.held[c].token == t;
      if c in w'.held {
        assert w'.held[c].token == t;
      }
    } else if s.Remove? && t == s.wanted && t in w.store {
      assert w'.held[s.consumer].token == t;
    }
  }

  lemma {:induction false} ConsumerKeepsEntries(w: World, s: Step)
    requires AtMostOnePlace(w) && SameEntry(w) && Enabled(w, s) && (s.Remove? || s.Check? || s.Restore?)
    ensures SameEntry(Apply(w, s))
  {
    match s
    case Remove(_, _, _) =>
    case Check(_) =>
    case Restore(_) =>
  }

  lemma {:induction false} SameEntryKept(w: World, s: Step)
    requires AtMostOnePlace(w) && SameEntry(w) && Enabled(w, s)
    ensures SameEntry(Apply(w, s))
  {
    match s
    case Tick(_) =>
    case Issue(_, _, _) =>
    case PruneOne(_, _) =>
    case _ => ConsumerKeepsEntries(w, s);
  }

  lemma {:induction false} FairFateKept(w: World, s: Step)
    requires AtMostOnePlace(w) && SameEntry(w) && FairFate(w) && Enabled(w, s)
    ensures FairFate(Apply(w, s))
  {
    match s
    case Tick(_) =>
    case Issue(_, _, _) =>
    case Remove(_, _, _) =>
    case Check(c) =>
      assert w.held[c].token in w.issued && w.held[c].entry == w.issued[w.held[c].token];
    case Restore(_) =>
    case PruneOne(t, _) =>
      assert w.store[t] == w.issued[t];
  }

  lemma {:induction false} CountKept(w: World, s: Step)
    requires AtMostOnePlace(w) && CountedOnce(w.dead, w.outcomes) && Enabled(w, s)
    ensures CountedOnce(Apply(w, s).dead, Apply(w, s).outcomes)
  {
    match s
    case Check(c) =>
      var h := w.held[c];
      if h.entry.expiresAt < w.clock {
        LapseCounts(w.dead, w.outcomes, h.token, w.clock);
        FailureCounts(w.dead[h.token := Lapsed(w.clock)], w.outcomes, Outcome(h.token, h.agentId, w.clock, Err(Expired)));
      } else if h.entry.agentId == h.agentId {
        SuccessCounts(w.dead, w.outcomes, Outcome(h.token, h.agentId, w.clock, Ok(h.entry)));
      }
    case Remove(_, token, agentId) =>
      FailureCounts(w.dead, w.outcomes, Outcome(token, agentId, w.clock, Err(UnknownToken)));
    case Restore(c) =>
      FailureCounts(w.dead, w.outcomes, Outcome(w.held[c].token, w.held[c].agentId, w.clock, Err(AgentMismatch)));
    case PruneOne(t, _) =>
      LapseCounts(w.dead, w.outcomes, t, w.clock);
    case _ =>
  }

  lemma {:induction false} StepKeeps(w: World, s: Step)
    requires Inv(w) && Enabled(w, s)
    ensures Inv(Apply(w, s))
  {
    AtMostOnePlaceKept(w, s);
    SameEntryKept(w, s);
    FairFateKept(w, s);
    forall t | t in Apply(w, s).issued
      ensures t in Apply(w, s).store || t in Apply(w, s).dead || InFlight(Apply(w, s), t)
    {
      SomePlaceKept(w, s, t);
    }
    CountKept(w, s);
  }

  lemma {:induction false} RunKeeps(w: World, steps: seq<Step>, w': World)
    requires Inv(w) && Run(w, steps, w')
    ensures Inv(w')
    decreases |steps|
  {
    if steps != [] {
      StepKeeps(w, steps[0]);
      RunKeeps(Apply(w, steps[0]), steps[1..], w');
    }
  }

  /// The theorems, over every interleaving.

  /** Every issued token is in the store, in the hands of one consumer, or gone: one of them, never two. */
  lemma {:induction false} ExactlyOnePlace(w: World, steps: seq<Step>, w': World, t: string)
    requires Init(w) && Run(w, steps, w') && t in w'.issued
    ensures t in w'.store || t in w'.dead || InFlight(w', t)
    ensures !(t in w'.store && t in w'.dead) && !(t in w'.store && InFlight(w', t)) && !(t in w'.dead && InFlight(w', t))
    ensures forall c, d :: c in w'.held && d in w'.held && w'.held[c].token == t == w'.held[d].token ==> c == d
  {
    RunKeeps(w, steps, w');
  }

  /** A token is redeemed at most once, and then by the agent it was issued for, before it expired. */
  lemma {:induction false} SingleUse(w: World, steps: seq<Step>, w': World, t: string)
    requires Init(w) && Run(w, steps, w')
    ensures Successes(w'.outcomes, t) <= 1
    ensures forall o <- w'.outcomes :: o.result.Ok? ==>
      && o.token in w'.issued
      && o.agentId == w'.issued[o.token].agentId && o.at <= w'.issued[o.token].expiresAt
  {
    RunKeeps(w, steps, w');
  }

  /** When no consume is in flight, every token that was neither redeemed nor has expired is in the
      store as issued: attempts by other agents, however interleaved, never cost the agent its token. */
  lemma {:induction false} MismatchesNeverBurn(w: World, steps: seq<Step>, w': World, t: string)
    requires Init(w) && Run(w, steps, w') && w'.held == map[]
    requires t in w'.issued && w'.clock <= w'.issued[t].expiresAt && Successes(w'.outcomes, t) == 0
    ensures t in w'.store && w'.store[t] == w'.issued[t]
  {
    RunKeeps(w, steps, w');
    assert Unredeemed(w'.dead, t);
  }

  /** A token that is neither redeemed nor expired is unknown to a consumer exactly while another
      consumer has it in hand: the rightful agent can be refused by a concurrent wrong attempt. */
  lemma {:induction false} UnknownIffInFlight(w: World, steps: seq<Step>, w': World, t: string)
    requires Init(w) && Run(w, steps, w')
    requires t in w'.issued && w'.clock <= w'.issued[t].expiresAt && Successes(w'.outcomes, t) == 0
    ensures t !in w'.store <==> InFlight(w', t)
  {
    RunKeeps(w, steps, w');
    assert Unredeemed(w'.dead, t);
  }

  /** Such an interleaving: the right agent is told the token is unknown, and the token is back afterwards. */
  lemma {:induction false} RightfulAgentRefused(t: string) returns (steps: seq<Step>, w': World)
    ensures Run(World(0, map[], map[], map[], map[], []), steps, w')
    ensures Outcome(t, "right", 0, Err(UnknownToken)) in w'.outcomes && t in w'.store
    ensures t in w'.issued && w'.issued[t].agentId == "right" && w'.clock <= w'.issued[t].expiresAt
  {
    var w := World(0, map[], map[], map[], map[], []);
    var a := Apply(w, Issue(t, "right", 24));
    var b := Apply(a, Remove(0, t, "wrong"));
    var c := Apply(b, Remove(1, t, "right"));
    var d := Apply(c, Check(0));
    w' := Apply(d, Restore(0));
    assert Run(d, [Restore(0)], w') by { assert [Restore(0)][1..] == []; }
    assert Run(c, [Check(0), Restore(0)], w') by { assert [Check(0), Restore(0)][1..] == [Restore(0)]; }
    steps := [Remove(1, t, "right"), Check(0), Restore(0)];
    assert Run(b, steps, w') by { assert steps[1..] == [Check(0), Restore(0)]; }
    steps := [Remove(0, t, "wrong")] + steps;
    assert Run(a, steps, w') by { assert steps[1..] == [Remove(1, t, "right"), Check(0), Restore(0)]; }
    var rest := steps;
    steps := [Issue(t, "right", 24)] + steps;
    assert steps[1..] == rest;
  }

  /** Uninterrupted, the steps of one consume answer and leave the store as the method does. */
  lemma {:induction false} ConsumeIsARun(w: World, c: nat, token: string, agentId: string) returns (steps: seq<Step>, w': World)
    requires c !in w.held
    ensures Run(w, steps, w')
    ensures var (r, after) := Consumed(w.store, token, agentId, w.clock);
      && w'.store == after && w'.held == w.held
      && w'.outcomes == w.outcomes + [Outcome(token, agentId, w.clock, r)]
  {
    var removed := Apply(w, Remove(c, token, agentId));
    if token !in w.store {
      steps, w' := [Remove(c, token, agentId)], removed;
      assert steps[1..] == [];
    } else {
      var checked := Apply(removed, Check(c));
      assert removed.held - {c} == w.held;
      if c !in checked.held {
        steps, w' := [Remove(c, token, agentId), Check(c)], checked;
        assert steps[1..] == [Check(c)] && steps[1..][1..] == [];
      } else {
        steps, w' := [Remove(c, token, agentId), Check(c), Restore(c)], Apply(checked, Restore(c));
        assert checked.held - {c} == w.held;
        assert w'.store == w.store;
        assert Run(checked, [Restore(c)], w') by { assert [Restore(c)][1..] == []; }
        assert steps[1..] == [Check(c), Restore(c)] && steps[1..][1..] == [Restore(c)];
      }
    }
  }
}
