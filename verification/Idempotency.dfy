/** The idempotency engine: find, effect and insert in one transaction, a unique key to race on, and
    a replay for the attempt that lost the race. */
module Idempotency {
  import opened Prelude

  // ---------------------------------------------------------------------------
  // Keys
  // ---------------------------------------------------------------------------

  const MAX_KEY_LENGTH := 255

  /** The length of a string in UTF-16 code units. */
  function CodeUnits(s: string): nat {
    if s == "" then 0 else (if s[0] as int >= 0x10000 then 2 else 1) + CodeUnits(s[1..])
  }

  /** The key a request is recorded under; `None` when it has no usable one. */
  function UsableKey(raw: Option<string>): Option<string> {
    if raw.None? then None
    else
      var key := Trim(raw.value);
      if key == "" || CodeUnits(key) > MAX_KEY_LENGTH then None else Some(key)
  }

  /** Trimming a key a second time changes nothing, so the engine and the decision it consults agree
      on which keys are usable and on what they are; a blank key is never usable. */
  lemma KeyIsNormalisedOnce(raw: string)
    ensures UsableKey(Some(raw)).Some? ==> UsableKey(UsableKey(Some(raw))) == UsableKey(Some(raw))
    ensures (forall c <- raw :: IsSpace(c)) ==> UsableKey(Some(raw)).None?
  {
    TrimStartBlank(raw);
    TrimTrims(raw);
    TrimmedStays(Trim(raw));
  }

  /** Every key of a usable length is kept as it is, whatever white space surrounds it, so distinct keys
      stay distinct; a longer one is not usable. */
  lemma UsableKeyIsKept(before: string, key: string, after: string)
    requires AllSpace(before) && AllSpace(after) && Trimmed(key) && key != ""
    ensures UsableKey(Some(before + key + after)) == if CodeUnits(key) <= 255 then Some(key) else None
  {
    TrimLeaves(before, key, after);
  }

  /** A character of the basic plane is one code unit, any other two. */
  lemma {:induction false} CodeUnitsCount(s: string)
    ensures |s| <= CodeUnits(s) <= 2 * |s|
    ensures (forall i :: 0 <= i < |s| ==> s[i] as int < 0x10000) ==> CodeUnits(s) == |s|
    ensures (forall i :: 0 <= i < |s| ==> s[i] as int >= 0x10000) ==> CodeUnits(s) == 2 * |s|
  {
    if s == "" {
    } else {
      CodeUnitsCount(s[1..]);
    }
  }

  // ---------------------------------------------------------------------------
  // The atomic meaning: first writer wins
  // ---------------------------------------------------------------------------

  datatype Key = Key(scope: string, principal: string, key: string)

  /** A recorded result and the canonical request hash it is bound to. */
  datatype Record<H, R> = Record(hash: H, response: R)

  datatype Result<S, R> = Committed(store: S, response: R) | Threw

  /** An effect reads and writes the store; a throw stands for every reason to roll back. */
  datatype Request<!S, H, R> = Request(key: Key, hash: H, effect: S -> Result<S, R>)

  datatype Outcome<R> = Executed(response: R) | Replayed(response: R) | Conflict | Failed | ReplayUnavailable

  datatype Table<S, H, R> = Table(store: S, records: map<Key, Record<H, R>>)

  /** `decideIdempotency` once a record has been found under the key. */
  function Answer<H(==), R>(record: Record<H, R>, hash: H): Outcome<R> {
    if record.hash == hash then Replayed(record.response) else Conflict
  }

  /** A whole request in one indivisible step. */
  function Atomically<S, H(==), R>(t: Table<S, H, R>, q: Request<S, H, R>): (Table<S, H, R>, Outcome<R>) {
    if q.key in t.records then (t, Answer(t.records[q.key], q.hash))
    else
      match q.effect(t.store)
      case Threw => (t, Failed)
      case Committed(store, response) => (Table(store, t.records[q.key := Record(q.hash, response)]), Executed(response))
  }

  function InTurn<S, H(==), R>(t: Table<S, H, R>, qs: seq<Request<S, H, R>>): (Table<S, H, R>, seq<Outcome<R>>)
    decreases |qs|
  {
    if qs == [] then (t, [])
    else
      var (t', outcome) := Atomically(t, qs[0]);
      var (t'', outcomes) := InTurn(t', qs[1..]);
      (t'', [outcome] + outcomes)
  }

  // ---------------------------------------------------------------------------
  // Concurrent attempts
  // ---------------------------------------------------------------------------

  datatype Attempt<!S, H, R> =
    | Started(q: Request<S, H, R>)
    | Missed(q: Request<S, H, R>)
    | LostRace(q: Request<S, H, R>)
    | Done(q: Request<S, H, R>, outcome: Outcome<R>)

  datatype State<!S, H, R> = State(table: Table<S, H, R>, attempts: map<nat, Attempt<S, H, R>>)

  datatype Step<!S, H, R> =
    | Start(a: nat, q: Request<S, H, R>)
    | Find(a: nat)
    | Commit(a: nat)
    | Replay(a: nat)
    | Crash(a: nat)
    | Delete(key: Key)

  function Finish<S, H, R>(s: State<S, H, R>, a: nat, q: Request<S, H, R>, outcome: Outcome<R>): State<S, H, R> {
    s.(attempts := s.attempts[a := Done(q, outcome)])
  }

  /** One attempt moves one step; every other attempt may move in between. */
  function Next<S, H(==), R>(s: State<S, H, R>, step: Step<S, H, R>): State<S, H, R> {
    match step
    case Start(a, q) => if a in s.attempts then s else s.(attempts := s.attempts[a := Started(q)])
    case Crash(a) => s.(attempts := s.attempts - {a})
    case Delete(key) => s.(table := s.table.(records := s.table.records - {key}))
    case Find(a) =>
      if a !in s.attempts || !s.attempts[a].Started? then s
      else
        var q := s.attempts[a].q;
        if q.key in s.table.records then Finish(s, a, q, Answer(s.table.records[q.key], q.hash))
        else s.(attempts := s.attempts[a := Missed(q)])
    case Commit(a) =>
      if a !in s.attempts || !s.attempts[a].Missed? then s
      else
        var q := s.attempts[a].q;
        (match q.effect(s.table.store)
         case Threw => Finish(s, a, q, Failed)
         case Committed(store, response) =>
           if q.key in s.table.records then s.(attempts := s.attempts[a := LostRace(q)])
           else Finish(s.(table := Table(store, s.table.records[q.key := Record(q.hash, response)])), a, q, Executed(response)))
    case Replay(a) =>
      if a !in s.attempts || !s.attempts[a].LostRace? then s
      else
        var q := s.attempts[a].q;
        Finish(s, a, q, if q.key in s.table.records then Answer(s.table.records[q.key], q.hash) else ReplayUnavailable)
  }

  function Exec<S, H(==), R>(s: State<S, H, R>, steps: seq<Step<S, H, R>>): State<S, H, R>
    decreases |steps|
  {
    if steps == [] then s else Exec(Next(s, steps[0]), steps[1..])
  }

  // ---------------------------------------------------------------------------
  // Refinement
  // ---------------------------------------------------------------------------

  predicate NoDelete<S, H, R>(steps: seq<Step<S, H, R>>) { forall i :: 0 <= i < |steps| ==> !steps[i].Delete? }

  /** An attempt that lost its race lost it to a record that is there. */
  ghost predicate Inv<S, H, R>(s: State<S, H, R>) {
    forall a <- s.attempts ::
      && (s.attempts[a].LostRace? ==> s.attempts[a].q.key in s.table.records)
      && (s.attempts[a].Done? ==> s.attempts[a].outcome != ReplayUnavailable)
      && (s.attempts[a].Done? ==> OutcomeStands(s.table, s.attempts[a].q, s.attempts[a].outcome))
  }

  /** What a reported outcome says about the table, then and ever after. */
  ghost predicate OutcomeStands<S, H, R>(t: Table<S, H, R>, q: Request<S, H, R>, outcome: Outcome<R>) {
    match outcome
    case Executed(response) => q.key in t.records && t.records[q.key] == Record(q.hash, response)
    case Replayed(response) => q.key in t.records && t.records[q.key] == Record(q.hash, response)
    case Conflict => q.key in t.records && t.records[q.key].hash != q.hash
    case Failed => true
    case ReplayUnavailable => true
  }

  /** The request that takes effect in a step, if one does: it is answered or committed there, indivisibly. */
  function Takes<S, H(==), R>(s: State<S, H, R>, step: Step<S, H, R>): Option<Request<S, H, R>> {
    var finished := (step.Find? || step.Commit? || step.Replay?) && step.a in s.attempts && !s.attempts[step.a].Done?;
    if finished && Next(s, step).attempts[step.a].Done? && !Next(s, step).attempts[step.a].outcome.Failed?
    then Some(s.attempts[step.a].q) else None
  }

  function Order<S, H(==), R>(s: State<S, H, R>, steps: seq<Step<S, H, R>>): seq<Request<S, H, R>>
    decreases |steps|
  {
    if steps == [] then []
    else (match Takes(s, steps[0]) case None => [] case Some(q) => [q]) + Order(Next(s, steps[0]), steps[1..])
  }

  /** The outcomes the attempts report, in the order in which they take effect. */
  function Reported<S, H(==), R>(s: State<S, H, R>, steps: seq<Step<S, H, R>>): seq<Outcome<R>>
    decreases |steps|
  {
    if steps == [] then []
    else (if Takes(s, steps[0]).Some? then [Next(s, steps[0]).attempts[steps[0].a].outcome] else [])
         + Reported(Next(s, steps[0]), steps[1..])
  }

  lemma StepKeeps<S, H, R>(s: State<S, H, R>, step: Step<S, H, R>)
    requires Inv(s) && !step.Delete?
    ensures Inv(Next(s, step))
  {
    var after := Next(s, step);
    forall a <- after.attempts
      ensures after.attempts[a].LostRace? ==> after.attempts[a].q.key in after.table.records
      ensures after.attempts[a].Done? ==>
                after.attempts[a].outcome != ReplayUnavailable
                && OutcomeStands(after.table, after.attempts[a].q, after.attempts[a].outcome)
    {
      if a in s.attempts {
        var before := s.attempts[a];
        assert before.Done? ==> OutcomeStands(s.table, before.q, before.outcome);
      }
    }
  }

  /** Every step either is invisible to the table, or performs exactly one request indivisibly and
      reports exactly the outcome that request has. */
  lemma StepRefines<S, H, R>(s: State<S, H, R>, step: Step<S, H, R>)
    requires Inv(s) && !step.Delete?
    ensures match Takes(s, step)
            case None => Next(s, step).table == s.table
            case Some(q) =>
              step.a in Next(s, step).attempts && Next(s, step).attempts[step.a].Done?
              && (Next(s, step).table, Next(s, step).attempts[step.a].outcome) == Atomically(s.table, q)
  {
  }

  /** Any interleaving of transactional attempts, with stale finds, lost races, throws and crashes,
      has the same effect as its requests performed one after another in some order, and every
      attempt reports what its request reports there. */
  lemma {:induction false} RunRefines<S, H, R>(s: State<S, H, R>, steps: seq<Step<S, H, R>>)
    requires Inv(s) && NoDelete(steps)
    ensures Inv(Exec(s, steps))
    ensures InTurn(s.table, Order(s, steps)) == (Exec(s, steps).table, Reported(s, steps))
    decreases |steps|
  {
    if steps == [] {
    } else {
      var next := Next(s, steps[0]);
      StepKeeps(s, steps[0]);
      StepRefines(s, steps[0]);
      RunRefines(next, steps[1..]);
      var rest := Order(next, steps[1..]);
      if Takes(s, steps[0]).Some? {
        assert Order(s, steps) == [Takes(s, steps[0]).value] + rest;
        assert Order(s, steps)[1..] == rest;
      } else {
        assert Order(s, steps) == rest;
        assert Reported(s, steps) == Reported(next, steps[1..]);
      }
    }
  }

  // ---------------------------------------------------------------------------
  // What first-writer-wins means
  // ---------------------------------------------------------------------------

  /** How many of the requests under a key executed their effect. */
  function Executions<S, H, R>(qs: seq<Request<S, H, R>>, outcomes: seq<Outcome<R>>, key: Key): nat
    requires |qs| == |outcomes|
    decreases |qs|
  {
    if qs == [] then 0
    else (if qs[0].key == key && outcomes[0].Executed? then 1 else 0) + Executions(qs[1..], outcomes[1..], key)
  }

  /** Records are never replaced, and at most one effect per key commits: exactly one for every key
      that gained its record, none for any other. */
  lemma {:induction false} FirstWriterWins<S, H, R>(t: Table<S, H, R>, qs: seq<Request<S, H, R>>, key: Key)
    ensures var (after, outcomes) := InTurn(t, qs);
            && |outcomes| == |qs|
            && (key in t.records ==> key in after.records && after.records[key] == t.records[key])
            && Executions(qs, outcomes, key) == if key in after.records && key !in t.records then 1 else 0
    decreases |qs|
  {
    if qs == [] {
    } else {
      var (next, outcome) := Atomically(t, qs[0]);
      var (after, outcomes) := InTurn(t, qs);
      FirstWriterWins(next, qs[1..], key);
      assert outcomes[1..] == InTurn(next, qs[1..]).1;
    }
  }

  /** At most one effect per key commits in any run, however the attempts interleave. */
  lemma AtMostOneEffectPerKey<S, H, R>(store: S, steps: seq<Step<S, H, R>>, key: Key)
    requires NoDelete(steps)
    ensures var s := State(Table(store, map[]), map[]);
            && |Order(s, steps)| == |Reported(s, steps)|
            && Executions(Order(s, steps), Reported(s, steps), key) == if key in Exec(s, steps).table.records then 1 else 0
  {
    var s: State<S, H, R> := State(Table(store, map[]), map[]);
    RunRefines(s, steps);
    FirstWriterWins(s.table, Order(s, steps), key);
  }

  /** Every attempt that finished agrees with the record under its key: an equal hash got the stored
      response, a different one a conflict; and no attempt was told that a replay is unavailable. */
  lemma EveryAnswerAgrees<S, H, R>(store: S, steps: seq<Step<S, H, R>>, a: nat)
    requires NoDelete(steps)
    requires var s := Exec(State(Table(store, map[]), map[]), steps); a in s.attempts && s.attempts[a].Done?
    ensures var s := Exec(State(Table(store, map[]), map[]), steps); var Done(q, outcome) := s.attempts[a];
            && outcome != ReplayUnavailable
            && (outcome == Failed ||
                (q.key in s.table.records &&
                 if s.table.records[q.key].hash == q.hash
                 then outcome in {Executed(s.table.records[q.key].response), Replayed(s.table.records[q.key].response)}
                 else outcome == Conflict))
  {
    RunRefines(State(Table(store, map[]), map[]), steps);
  }

  /** Deleting a record between a lost race and its replay is the one way to reach that error: here two
      attempts under one key have both found nothing, one commits, the other loses, the record goes. */
  lemma DeletionMakesAReplayUnavailable(key: Key)
    ensures var q: Request<int, int, int> := Request(key, 0, n => Committed(n + 1, n));
            var s := State(Table(0, map[]), map[0 := Missed(q), 1 := Missed(q)]);
            Inv(s) && Next(Next(Next(Next(s, Commit(0)), Commit(1)), Delete(key)), Replay(1)).attempts[1] == Done(q, ReplayUnavailable)
  {
    var q: Request<int, int, int> := Request(key, 0, n => Committed(n + 1, n));
    var s := State(Table(0, map[]), map[0 := Missed(q), 1 := Missed(q)]);
    var raced := Next(Next(s, Commit(0)), Commit(1));
    assert raced.attempts[1] == LostRace(q);
    assert key !in Next(raced, Delete(key)).table.records;
  }

  // ---------------------------------------------------------------------------
  // The engine
  // ---------------------------------------------------------------------------

  datatype Reply<R> = KeyRequired | Reply(outcome: Outcome<R>)

  class Engine<S, H(==), R> {
    var store: S
    var records: map<Key, Record<H, R>>

    function View(): Table<S, H, R>
      reads this
    { Table(store, records) }

    constructor (s: S)
      ensures View() == Table(s, map[])
    {
      store, records := s, map[];
    }

    /** `rivals` are the requests other workers complete between this attempt's find and its insert. */
    method RunIdempotent(scope: string, principal: string, rawKey: Option<string>, hash: H,
                         effect: S -> Result<S, R>, rivals: seq<Request<S, H, R>>) returns (reply: Reply<R>)
      modifies this
      ensures UsableKey(rawKey).None? ==> reply == KeyRequired && View() == old(View())
      ensures UsableKey(rawKey).Some? ==>
                var q := Request(Key(scope, principal, UsableKey(rawKey).value), hash, effect);
                var before := if q.key in old(records) then old(View()) else InTurn(old(View()), rivals).0;
                && reply.Reply?
                && if q.key !in old(records) && effect(before.store).Threw? then View() == before && reply.outcome == Failed
                   else (View(), reply.outcome) == Atomically(before, q)
    {
      if UsableKey(rawKey).None? {
        return KeyRequired;
      }
      var key := Key(scope, principal, UsableKey(rawKey).value);
      if key in records {
        return Reply(Answer(records[key], hash));
      }
      for i := 0 to |rivals|
        invariant InTurn(old(View()), rivals).0 == InTurn(View(), rivals[i..]).0
      {
        assert rivals[i..][1..] == rivals[i + 1..];
        var (rivalTable, _) := Atomically(View(), rivals[i]);
        store, records := rivalTable.store, rivalTable.records;
      }
      var saved := store;
      var result := effect(store);
      if result.Threw? {
        return Reply(Failed);
      }
      store := result.store;
      if key in records {
        store := saved;
        var outcome := ReplayAfterConflict(key, hash);
        return Reply(outcome);
      }
      records := records[key := Record(hash, result.response)];
      return Reply(Executed(result.response));
    }

    method ReplayAfterConflict(key: Key, hash: H) returns (outcome: Outcome<R>)
      ensures outcome == if key in records then Answer(records[key], hash) else ReplayUnavailable
    {
      if key in records {
        return Answer(records[key], hash);
      }
      return ReplayUnavailable;
    }
  }
}
