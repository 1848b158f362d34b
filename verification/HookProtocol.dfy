/**
 * The capability protocol between Provision, the hook broker and the microVMs, as interleaved steps.
 *
 * A provisioning delivery mints a token and a JIT config, stashes them, launches a VM and stamps the
 * run row. It may crash after any step, be redelivered, and its stamp may land late or more than
 * once. Any caller may present any token on any ref. Assumed: tokens and VM ids are never reused, and
 * the token hash is injective.
 */
module HookProtocol {
  import opened Text

  type Token = nat
  type Vm = nat
  type Hash = nat

  /** A run's partition, or a validation smoke run's. */
  datatype Ref = RunRef(repo: nat, run: nat, job: nat) | SmokeRef(installation: nat, attempt: nat)

  datatype JitItem = JitItem(config: string, hash: Hash)

  datatype RunRow = RunRow(vm: Option<Vm>, hash: Option<Hash>)

  /** One delivery's attempt: what was minted for it, and the VM it launched with that token. */
  datatype Attempt = Attempt(ref: Ref, config: string, vm: Option<Vm>)

  /** A brokered terminate that has read its row and not yet reached the VM API. */
  datatype Kill = Kill(token: Token, vm: Vm)

  datatype World = World(
    jit: map<Ref, JitItem>, rows: map<Ref, RunRow>, attempts: map<Token, Attempt>,
    asking: set<(Ref, Token)>, pending: set<Kill>, killed: set<Kill>)

  datatype Event =
    | Queue(ref: Ref)
    | Mint(token: Token, ref: Ref, config: string)
    | BeginSmoke(token: Token, ref: Ref, config: string)
    | PutJitConfig(token: Token)
    | PutSmokeRow(token: Token)
    | Launch(token: Token, vm: Vm)
    | Stamp(token: Token)
    | StampSmoke(token: Token)
    | ExpireJit(ref: Ref)
    | ExpireRow(ref: Ref)
    | AskTerminate(ref: Ref, token: Token)
    | AskRetry(ref: Ref, token: Token)
    | Terminate(kill: Kill)

  // ---- the broker -------------------------------------------------------------------------------------

  datatype Answer = Unauthorized | Config(config: string) | NotYet | Kills(vm: Vm)

  predicate TokenMatches(hash: Token -> Hash, token: Token, stored: Option<Hash>) {
    stored.Some? && stored.value == hash(token)
  }

  function JitAnswer(hash: Token -> Hash, item: Option<JitItem>, token: Token): Answer {
    if item.None? || !TokenMatches(hash, token, Some(item.value.hash)) then Unauthorized else Config(item.value.config)
  }

  /** Terminate is authorized off the row; a row without a hash decides nothing. */
  function TerminateAnswer(hash: Token -> Hash, row: Option<RunRow>, token: Token): Option<Answer> {
    if row.None? || row.value.hash.None? then None
    else if !TokenMatches(hash, token, row.value.hash) then Some(Unauthorized)
    else if row.value.vm.None? then Some(NotYet)
    else Some(Kills(row.value.vm.value))
  }

  /** Then the JIT item is read, and authorizes a retry; nothing is killed. */
  function RetryAnswer(hash: Token -> Hash, item: Option<JitItem>, token: Token): Answer {
    if item.None? || !TokenMatches(hash, token, Some(item.value.hash)) then Unauthorized else NotYet
  }

  function Lookup<K, V>(m: map<K, V>, k: K): Option<V> {
    if k in m then Some(m[k]) else None
  }

  // ---- the steps --------------------------------------------------------------------------------------

  ghost predicate Unused(w: World, ref: Ref) {
    ref !in w.jit && ref !in w.rows && forall t :: t in w.attempts ==> w.attempts[t].ref != ref
  }

  ghost predicate Step(hash: Token -> Hash, w: World, e: Event, w': World) {
    match e
    case Queue(ref) =>
      ref.RunRef? && ref !in w.rows && w' == w.(rows := w.rows[ref := RunRow(None, None)])
    case Mint(token, ref, config) =>
      ref.RunRef? && token !in w.attempts && w' == w.(attempts := w.attempts[token := Attempt(ref, config, None)])
    case BeginSmoke(token, ref, config) =>
      // a smoke partition belongs to one attempt
      ref.SmokeRef? && token !in w.attempts && Unused(w, ref)
      && w' == w.(attempts := w.attempts[token := Attempt(ref, config, None)])
    case PutJitConfig(token) =>
      token in w.attempts && var a := w.attempts[token];
      w' == w.(jit := w.jit[a.ref := JitItem(a.config, hash(token))])
    case PutSmokeRow(token) =>
      // the hash up front, the VM later
      token in w.attempts && w.attempts[token].ref.SmokeRef? && w.attempts[token].vm.None?
      && w' == w.(rows := w.rows[w.attempts[token].ref := RunRow(None, Some(hash(token)))])
    case Launch(token, vm) =>
      token in w.attempts && w.attempts[token].vm.None?
      && (forall t :: t in w.attempts ==> w.attempts[t].vm != Some(vm))
      && w' == w.(attempts := w.attempts[token := w.attempts[token].(vm := Some(vm))])
    case Stamp(token) =>
      // id and hash in one write, on an existing row
      token in w.attempts && var a := w.attempts[token];
      a.ref.RunRef? && a.vm.Some? && a.ref in w.rows
      && w' == w.(rows := w.rows[a.ref := RunRow(a.vm, Some(hash(token)))])
    case StampSmoke(token) =>
      token in w.attempts && var a := w.attempts[token];
      a.ref.SmokeRef? && a.vm.Some? && a.ref in w.rows
      && w' == w.(rows := w.rows[a.ref := w.rows[a.ref].(vm := a.vm)])
    case ExpireJit(ref) => w' == w.(jit := w.jit - {ref})
    case ExpireRow(ref) => w' == w.(rows := w.rows - {ref})
    case AskTerminate(ref, token) =>
      var answer := TerminateAnswer(hash, Lookup(w.rows, ref), token);
      w' == if answer.None? then w.(asking := w.asking + {(ref, token)})
            else if answer.value.Kills? then w.(pending := w.pending + {Kill(token, answer.value.vm)})
            else w
    case AskRetry(ref, token) =>
      // the second read, of the JIT item as it stands by then, answers and ends the request
      (ref, token) in w.asking && w' == w.(asking := w.asking - {(ref, token)})
    case Terminate(kill) =>
      kill in w.pending && w' == w.(pending := w.pending - {kill}, killed := w.killed + {kill})
  }

  ghost predicate IsRun(hash: Token -> Hash, ws: seq<World>, es: seq<Event>) {
    && |ws| == |es| + 1 && ws[0] == World(map[], map[], map[], {}, {}, {})
    && forall i :: 0 <= i < |es| ==> Step(hash, ws[i], es[i], ws[i + 1])
  }

  ghost predicate Injective(hash: Token -> Hash) {
    forall a, b :: hash(a) == hash(b) ==> a == b
  }

  // ---- the invariant ----------------------------------------------------------------------------------

  /** The stored config was minted with the token whose hash sits beside it, for this ref. */
  ghost predicate JitOf(hash: Token -> Hash, w: World, ref: Ref, t: Token) {
    ref in w.jit && t in w.attempts && w.attempts[t].ref == ref && w.jit[ref] == JitItem(w.attempts[t].config, hash(t))
  }

  /** The stored VM, if any, was launched with the token whose hash sits beside it, for this ref. */
  ghost predicate RowOf(hash: Token -> Hash, w: World, ref: Ref, t: Token) {
    && ref in w.rows && t in w.attempts && w.attempts[t].ref == ref && w.rows[ref].hash == Some(hash(t))
    && (w.rows[ref].vm.Some? ==> w.attempts[t].vm == w.rows[ref].vm)
  }

  ghost predicate JitBacked(hash: Token -> Hash, w: World, ref: Ref) {
    exists t :: JitOf(hash, w, ref, t)
  }

  ghost predicate RowBacked(hash: Token -> Hash, w: World, ref: Ref) {
    exists t :: RowOf(hash, w, ref, t)
  }

  ghost predicate KillsOwn(w: World, k: Kill) {
    k.token in w.attempts && w.attempts[k.token].vm == Some(k.vm)
  }

  ghost predicate AttemptsInv(w: World) {
    && (forall s, t :: s in w.attempts && t in w.attempts && s != t && w.attempts[s].vm.Some? ==> w.attempts[s].vm != w.attempts[t].vm)
    && (forall s, t :: s in w.attempts && t in w.attempts && w.attempts[s].ref.SmokeRef? && w.attempts[s].ref == w.attempts[t].ref ==> s == t)
  }

  ghost predicate Inv(hash: Token -> Hash, w: World) {
    && AttemptsInv(w)
    && (forall ref :: ref in w.jit ==> JitBacked(hash, w, ref))
    && (forall ref :: ref in w.rows && w.rows[ref].hash.Some? ==> RowBacked(hash, w, ref))
    && (forall ref :: ref in w.rows && w.rows[ref].hash.None? ==> ref.RunRef? && w.rows[ref].vm.None?)
    && (forall k :: k in w.pending || k in w.killed ==> KillsOwn(w, k))
  }

  predicate Grown(a: Attempt, a': Attempt) {
    a'.ref == a.ref && a'.config == a.config && (a.vm.Some? ==> a'.vm == a.vm)
  }

  lemma AttemptsGrowJit(hash: Token -> Hash, w: World, w': World, ref: Ref)
    requires ref in w.jit && w'.jit == w.jit && JitBacked(hash, w, ref)
    requires forall t :: t in w.attempts ==> t in w'.attempts && Grown(w.attempts[t], w'.attempts[t])
    ensures JitBacked(hash, w', ref)
  {
    var t :| JitOf(hash, w, ref, t);
    assert JitOf(hash, w', ref, t);
  }

  lemma AttemptsGrowRow(hash: Token -> Hash, w: World, w': World, ref: Ref)
    requires ref in w.rows && w'.rows == w.rows && RowBacked(hash, w, ref)
    requires forall t :: t in w.attempts ==> t in w'.attempts && Grown(w.attempts[t], w'.attempts[t])
    ensures RowBacked(hash, w', ref)
  {
    var t :| RowOf(hash, w, ref, t);
    assert RowOf(hash, w', ref, t);
  }

  /** Attempts only gain facts, so what the rows say stays true. */
  lemma AttemptsGrow(hash: Token -> Hash, w: World, w': World)
    requires Inv(hash, w) && AttemptsInv(w') && w' == w.(attempts := w'.attempts)
    requires forall t :: t in w.attempts ==> t in w'.attempts && Grown(w.attempts[t], w'.attempts[t])
    ensures Inv(hash, w')
  {
    forall ref | ref in w'.jit ensures JitBacked(hash, w', ref) {
      AttemptsGrowJit(hash, w, w', ref);
    }
    forall ref | ref in w'.rows && w'.rows[ref].hash.Some? ensures RowBacked(hash, w', ref) {
      AttemptsGrowRow(hash, w, w', ref);
    }
  }

  /** One row or JIT item written or dropped; the others are undisturbed. */
  lemma StoresKeep(hash: Token -> Hash, w: World, w': World, ref: Ref)
    requires Inv(hash, w) && w' == w.(jit := w'.jit, rows := w'.rows)
    requires forall r :: r != ref ==> Lookup(w'.jit, r) == Lookup(w.jit, r) && Lookup(w'.rows, r) == Lookup(w.rows, r)
    requires ref in w'.jit ==> JitBacked(hash, w', ref)
    requires ref in w'.rows && w'.rows[ref].hash.Some? ==> RowBacked(hash, w', ref)
    requires ref in w'.rows && w'.rows[ref].hash.None? ==> ref.RunRef? && w'.rows[ref].vm.None?
    ensures Inv(hash, w')
  {
    forall r | r in w'.jit ensures JitBacked(hash, w', r) {
      if r != ref {
        assert Lookup(w'.jit, r) == Lookup(w.jit, r);
        var t :| JitOf(hash, w, r, t);
        assert JitOf(hash, w', r, t);
      }
    }
    forall r | r in w'.rows ensures w'.rows[r].hash.Some? ==> RowBacked(hash, w', r)
                            ensures w'.rows[r].hash.None? ==> r.RunRef? && w'.rows[r].vm.None? {
      if r != ref {
        assert Lookup(w'.rows, r) == Lookup(w.rows, r);
        if w.rows[r].hash.Some? {
          var t :| RowOf(hash, w, r, t);
          assert RowOf(hash, w', r, t);
        }
      }
    }
  }

  lemma WriteKeeps(hash: Token -> Hash, w: World, e: Event, w': World)
    requires Injective(hash) && Inv(hash, w) && Step(hash, w, e, w')
    requires e.PutJitConfig? || e.PutSmokeRow? || e.Stamp? || e.StampSmoke?
    ensures Inv(hash, w')
  {
    var a := w.attempts[e.token];
    if a.ref in w.jit {
      var t :| JitOf(hash, w, a.ref, t);
      assert e.PutJitConfig? || JitOf(hash, w', a.ref, t);
    }
    if a.ref in w.rows && w.rows[a.ref].hash.Some? {
      var t :| RowOf(hash, w, a.ref, t);
      assert e.StampSmoke? ==> t == e.token;
      assert !e.PutJitConfig? || RowOf(hash, w', a.ref, t);
    }
    assert e.PutJitConfig? ==> JitOf(hash, w', a.ref, e.token);
    assert !e.PutJitConfig? ==> RowOf(hash, w', a.ref, e.token);
    StoresKeep(hash, w, w', a.ref);
  }

  lemma ExpireKeeps(hash: Token -> Hash, w: World, e: Event, w': World)
    requires Inv(hash, w) && Step(hash, w, e, w') && (e.ExpireJit? || e.ExpireRow? || e.Queue?)
    ensures Inv(hash, w')
  {
    if e.ref in w.jit {
      var t :| JitOf(hash, w, e.ref, t);
      assert e.ExpireJit? || JitOf(hash, w', e.ref, t);
    }
    if e.ref in w.rows && w.rows[e.ref].hash.Some? {
      var t :| RowOf(hash, w, e.ref, t);
      assert e.ExpireRow? || RowOf(hash, w', e.ref, t);
    }
    StoresKeep(hash, w, w', e.ref);
  }

  /** What the broker is about to kill was launched with the token presented. */
  lemma AskKeeps(hash: Token -> Hash, w: World, ref: Ref, token: Token, w': World)
    requires Injective(hash) && Inv(hash, w) && Step(hash, w, AskTerminate(ref, token), w')
    ensures Inv(hash, w')
  {
    var answer := TerminateAnswer(hash, Lookup(w.rows, ref), token);
    if answer.Some? && answer.value.Kills? {
      var t :| RowOf(hash, w, ref, t);
      assert t == token;
      assert KillsOwn(w', Kill(token, answer.value.vm));
    }
    SameStores(hash, w, w');
  }

  lemma SameStores(hash: Token -> Hash, w: World, w': World)
    requires Inv(hash, w) && w' == w.(asking := w'.asking, pending := w'.pending, killed := w'.killed)
    requires forall k :: k in w'.pending || k in w'.killed ==> KillsOwn(w, k)
    ensures Inv(hash, w')
  {
    forall ref | ref in w'.jit ensures JitBacked(hash, w', ref) {
      AttemptsGrowJit(hash, w, w', ref);
    }
    forall ref | ref in w'.rows && w'.rows[ref].hash.Some? ensures RowBacked(hash, w', ref) {
      AttemptsGrowRow(hash, w, w', ref);
    }
  }

  lemma StepKeeps(hash: Token -> Hash, w: World, e: Event, w': World)
    requires Injective(hash) && Inv(hash, w) && Step(hash, w, e, w')
    ensures Inv(hash, w')
  {
    if e.PutJitConfig? || e.PutSmokeRow? || e.Stamp? || e.StampSmoke? {
      WriteKeeps(hash, w, e, w');
    } else if e.ExpireJit? || e.ExpireRow? || e.Queue? {
      ExpireKeeps(hash, w, e, w');
    } else if e.AskTerminate? {
      AskKeeps(hash, w, e.ref, e.token, w');
    } else if e.Terminate? || e.AskRetry? {
      SameStores(hash, w, w');
    } else {
      AttemptsGrow(hash, w, w');
    }
  }

  lemma {:induction false} RunInv(hash: Token -> Hash, ws: seq<World>, es: seq<Event>, n: nat)
    requires Injective(hash) && IsRun(hash, ws, es) && n < |ws|
    ensures Inv(hash, ws[n])
  {
    if n > 0 {
      RunInv(hash, ws, es, n - 1);
      StepKeeps(hash, ws[n - 1], es[n - 1], ws[n]);
    }
  }

  // ---- what the protocol promises -----------------------------------------------------------------------

  /** In every run, a brokered terminate kills the VM launched with the presented token, and no attempt shares it. */
  lemma KillsExactlyItsOwn(hash: Token -> Hash, ws: seq<World>, es: seq<Event>, n: nat, k: Kill)
    requires Injective(hash) && IsRun(hash, ws, es) && n < |ws| && (k in ws[n].killed || k in ws[n].pending)
    ensures k.token in ws[n].attempts && ws[n].attempts[k.token].vm == Some(k.vm)
    ensures forall t :: t in ws[n].attempts && ws[n].attempts[t].vm == Some(k.vm) ==> t == k.token
  {
    RunInv(hash, ws, es, n);
  }

  /**
   * In every run, a JIT config is served exactly to the token the stored item was minted for, and it is
   * the one minted with that token for the ref it names; everyone else is refused.
   */
  lemma ServesOwnConfig(hash: Token -> Hash, ws: seq<World>, es: seq<Event>, n: nat, ref: Ref, token: Token)
    requires Injective(hash) && IsRun(hash, ws, es) && n < |ws|
    ensures var answer := JitAnswer(hash, Lookup(ws[n].jit, ref), token);
            if JitOf(hash, ws[n], ref, token)
            then token in ws[n].attempts && ws[n].attempts[token].ref == ref && answer == Config(ws[n].attempts[token].config)
            else answer == Unauthorized
  {
    RunInv(hash, ws, es, n);
    if ref in ws[n].jit {
      var t :| JitOf(hash, ws[n], ref, t);
      assert hash(t) == ws[n].jit[ref].hash;
    }
  }

  /**
   * The stamp race: a row without a hash refuses nobody and kills nothing. The JIT item read next then
   * tells the attempt it stands for to retry and refuses every other token, whenever it is read. From
   * its stamp until a later one, that same token kills its own VM, JIT item or not.
   */
  lemma StampRace(hash: Token -> Hash, ws: seq<World>, es: seq<Event>, n: nat, ref: Ref, token: Token)
    requires Injective(hash) && IsRun(hash, ws, es) && n < |ws|
    ensures var w := ws[n];
            var answer := TerminateAnswer(hash, Lookup(w.rows, ref), token);
            && (answer.None? <==> ref !in w.rows || w.rows[ref].hash.None?)
            && RetryAnswer(hash, Lookup(w.jit, ref), token) == (if JitOf(hash, w, ref, token) then NotYet else Unauthorized)
            && (answer.Some? ==>
                  (answer.value == Unauthorized <==> !RowOf(hash, w, ref, token))
                  && (answer.value.Kills? <==> RowOf(hash, w, ref, token) && w.rows[ref].vm.Some?))
  {
    RunInv(hash, ws, es, n);
    var w := ws[n];
    if ref in w.jit {
      var t :| JitOf(hash, w, ref, t);
      assert hash(t) == w.jit[ref].hash;
    }
    if ref in w.rows && w.rows[ref].hash.Some? {
      var t :| RowOf(hash, w, ref, t);
      assert Some(hash(t)) == w.rows[ref].hash;
    }
  }

  /** A redelivery's stamp takes over the row: from then on the earlier token is refused, and its VM is left to the reaper. */
  lemma RestampRevokes(hash: Token -> Hash, ws: seq<World>, es: seq<Event>, n: nat, token: Token)
    requires Injective(hash) && IsRun(hash, ws, es) && n < |es| && es[n] == Stamp(token)
    ensures var w := ws[n + 1];
            var ref := w.attempts[token].ref;
            forall t :: t != token ==> TerminateAnswer(hash, Lookup(w.rows, ref), t) == Some(Unauthorized)
    ensures var w := ws[n + 1];
            var ref := w.attempts[token].ref;
            w.attempts[token].vm.Some?
            && TerminateAnswer(hash, Lookup(w.rows, ref), token) == Some(Kills(w.attempts[token].vm.value))
  {
    assert Step(hash, ws[n], es[n], ws[n + 1]);
  }
}
