/**
 * The credential transaction of the configuration broker: verify, snapshot, write, re-verify, tell
 * GitHub, or undo; and the operator's rollback from the handle a relink returned.
 *
 * Any store or GitHub call may fail, in which case it has no effect. The configuration lock keeps
 * other writers out for the duration (module ConfigLock).
 */
module Relink {
  import opened Text

  datatype Param = AppId | AppPem | WebhookSecret | ClientId | ClientSecret | AppSlug

  const CREDENTIALS := [AppId, AppPem, WebhookSecret, ClientId, ClientSecret]

  datatype Credentials = Credentials(appId: string, pem: string, webhookSecret: string, clientId: string, clientSecret: string)

  function ValueOf(c: Credentials, p: Param): string {
    match p
    case AppId => c.appId
    case AppPem => c.pem
    case WebhookSecret => c.webhookSecret
    case ClientId => c.clientId
    case ClientSecret => c.clientSecret
    case AppSlug => ""
  }

  /** A parameter's versions, 1 first. A deleted parameter is absent, and numbering restarts with it. */
  type Params = map<Param, seq<string>>

  function History(h: Params, p: Param): seq<string> {
    if p in h then h[p] else []
  }

  function Put(h: Params, p: Param, value: string): Params {
    h[p := History(h, p) + [value]]
  }

  function Current(h: Params, p: Param): Option<string> {
    if History(h, p) == [] then None else Some(History(h, p)[|History(h, p)| - 1])
  }

  ghost predicate Distinct(names: seq<Param>) {
    forall i, j :: 0 <= i < j < |names| ==> names[i] != names[j]
  }

  /** What a relink replaced (version numbers) and what it created. */
  datatype Handle = Handle(replaced: map<Param, nat>, created: seq<Param>)

  datatype Outcome =
    | Rejected
    | Failed(written: nat, rolledBack: bool, handle: Handle)
    | Relinked(handle: Handle, hookSynced: bool)

  /** A call that failed: about one parameter, or to GitHub. */
  datatype Fault = Store(name: Param) | GitHub

  /** The calls that failed between two moments. */
  function Since(was: seq<Fault>, now: seq<Fault>): seq<Fault> {
    if |was| <= |now| then now[|was|..] else []
  }

  datatype RestoreOutcome = NothingNamed | ReadFailed | WriteFailed | Restored

  /** The slug is convenience metadata; every other parameter is a credential. */
  predicate IsCredential(p: Param) {
    !p.AppSlug?
  }

  lemma CredentialsListed()
    ensures Distinct(CREDENTIALS)
    ensures forall p :: p in CREDENTIALS <==> IsCredential(p)
  {
    assert CREDENTIALS[0] == AppId && CREDENTIALS[1] == AppPem && CREDENTIALS[2] == WebhookSecret;
    assert CREDENTIALS[3] == ClientId && CREDENTIALS[4] == ClientSecret;
  }

  /** The handle describes the parameters `names` as they stand in `h`. */
  ghost predicate DescribesOf(h: Params, names: seq<Param>, handle: Handle) {
    && (forall p :: p in handle.replaced <==> p in names && p in h)
    && (forall p :: p in handle.replaced ==> handle.replaced[p] == |h[p]|)
    && (forall p :: p in handle.created <==> p in names && p !in h)
  }

  /** The handle describes every credential. */
  ghost predicate Describes(h: Params, handle: Handle) {
    && (forall p :: p in handle.replaced <==> IsCredential(p) && p in h)
    && (forall p :: p in handle.replaced ==> handle.replaced[p] == |h[p]|)
    && (forall p :: p in handle.created <==> IsCredential(p) && p !in h)
  }

  /** One parameter undone: its prior version put back on top, or, if it had none, deleted. */
  ghost predicate Undone(h: Params, h': Params, before: map<Param, nat>, p: Param) {
    if p in before
    then 1 <= before[p] <= |History(h, p)| && p in h' && h'[p] == History(h, p) + [History(h, p)[before[p] - 1]]
    else p !in h'
  }

  /** The version named for `p` exists. */
  ghost predicate Names(h: Params, versions: map<Param, nat>, p: Param) {
    p in versions && 1 <= versions[p] <= |History(h, p)|
  }

  /** Undone, unless the version to put back is missing or a call about `p` is among the faults. */
  ghost predicate UndoneUnless(h: Params, h': Params, before: map<Param, nat>, faults: seq<Fault>, p: Param) {
    !Names(h, before, p) || Store(p) in faults || Undone(h, h', before, p)
  }

  /** Every credential no call about which failed has its old value again. */
  ghost predicate GivesOwnBack(h: Params, h': Params, faults: seq<Fault>) {
    forall p :: IsCredential(p) && Store(p) !in faults ==> Current(h', p) == Current(h, p)
  }

  lemma MoreFaults(h: Params, h': Params, was: seq<Fault>, mid: seq<Fault>, now: seq<Fault>)
    requires was <= mid <= now && GivesOwnBack(h, h', Since(mid, now))
    ensures GivesOwnBack(h, h', Since(was, now))
  {
    SinceGrows(was, mid, now);
  }

  lemma WrittenIsSubmitted(h: Params, h': Params, c: Credentials, written: seq<Param>)
    requires Written(h, h', c, written) && forall p :: p in written <==> IsCredential(p)
    ensures OnTop(h, h', c)
  {
  }

  lemma OnTopIsSubmitted(h: Params, h': Params, c: Credentials)
    requires OnTop(h, h', c)
    ensures Submitted(h, h', c)
  {
  }

  lemma SlugKeeps(h: Params, mid: Params, h': Params, c: Credentials)
    requires OnTop(h, mid, c) && forall p :: IsCredential(p) ==> SameParam(mid, h', p)
    ensures OnTop(h, h', c)
  {
  }

  lemma WrittenStores(h: Params, h': Params, c: Credentials, written: seq<Param>)
    requires Written(h, h', c, written) && AppId in written && AppPem in written
    ensures Current(h', AppId) == Some(c.appId) && Current(h', AppPem) == Some(c.pem)
  {
  }

  lemma SinceGrows(was: seq<Fault>, mid: seq<Fault>, now: seq<Fault>)
    requires was <= mid <= now
    ensures Since(was, now) == Since(was, mid) + Since(mid, now)
  {
    assert now == mid + now[|mid|..];
  }

  ghost predicate SameParam(h: Params, h': Params, p: Param) {
    if p in h then p in h' && h'[p] == h[p] else p !in h'
  }

  /** GitHub signs deliveries with the secret this environment verifies. */
  ghost predicate InAgreement(h: Params, hooks: map<string, string>) {
    var app := Current(h, AppId);
    app.Some? && app.value in hooks && Current(h, WebhookSecret) == Some(hooks[app.value])
  }

  /** Exactly the parameters `names` got a new version holding the submitted value. */
  ghost predicate Written(h: Params, h': Params, c: Credentials, names: seq<Param>) {
    && (forall p :: p in names ==> p in h' && h'[p] == History(h, p) + [ValueOf(c, p)])
    && (forall p :: p !in names ==> SameParam(h, h', p))
  }

  /** Every credential holds the submitted value, on top of what it held before. */
  ghost predicate Submitted(h: Params, h': Params, c: Credentials) {
    OnTop(h, h', c) && Spelled(h', c)
  }

  ghost predicate OnTop(h: Params, h': Params, c: Credentials) {
    forall p :: IsCredential(p) ==> p in h' && h'[p] == History(h, p) + [ValueOf(c, p)]
  }

  ghost predicate Spelled(h': Params, c: Credentials) {
    && Current(h', AppId) == Some(c.appId) && Current(h', AppPem) == Some(c.pem)
    && Current(h', WebhookSecret) == Some(c.webhookSecret)
    && Current(h', ClientId) == Some(c.clientId) && Current(h', ClientSecret) == Some(c.clientSecret)
  }

  /** A failure that undid everything, or wrote nothing, gives back every value; the slug is never touched. */
  ghost predicate LeftWell(h: Params, h': Params, r: Outcome) {
    r.Failed? && SameParam(h, h', AppSlug) && (r.rolledBack || r.written == 0 ==> SameValues(h, h'))
  }

  ghost predicate SameValues(h: Params, h': Params) {
    forall p :: Current(h', p) == Current(h, p)
  }

  ghost predicate PutBackIn(h: Params, h': Params, snapshot: map<Param, nat>, p: Param) {
    && p in snapshot && 1 <= snapshot[p] <= |History(h, p)|
    && p in h' && h'[p] == History(h, p) + [History(h, p)[snapshot[p] - 1]]
  }

  /** One parameter after a rollback: removed, back at the named version, or untouched. */
  ghost predicate RolledBackAt(h: Params, h': Params, snapshot: map<Param, nat>, remove: seq<Param>, p: Param) {
    if p in remove then p !in h'
    else if p in snapshot then PutBackIn(h, h', snapshot, p)
    else SameParam(h, h', p)
  }

  ghost predicate RolledBack(h: Params, h': Params, snapshot: map<Param, nat>, remove: seq<Param>) {
    forall p :: RolledBackAt(h, h', snapshot, remove, p)
  }

  /** A value put back over its replacement. */
  lemma PutBack(versions: seq<string>, value: string)
    requires versions != []
    ensures var n := |versions|; ((versions + [value]) + [(versions + [value])[n - 1]])[n + 1] == versions[n - 1]
  {
  }

  lemma OneMoreRestored(
    h: Params, mid: Params, h': Params, before: map<Param, nat>, done: seq<Param>, p: Param, f: seq<Fault>, f': seq<Fault>, ok: bool)
    requires p !in done && p in before && f <= f' && (ok || !Names(mid, before, p) || Store(p) in f')
    requires forall q :: q !in done || q !in before ==> SameParam(h, mid, q)
    requires forall q :: q in done && q in before ==> UndoneUnless(h, mid, before, f, q)
    requires (forall q :: q != p || !ok ==> SameParam(mid, h', q)) && (ok ==> Undone(mid, h', before, p))
    ensures forall q :: q !in done + [p] || q !in before ==> SameParam(h, h', q)
    ensures forall q :: q in done + [p] && q in before ==> UndoneUnless(h, h', before, f', q)
    ensures ok ==> Undone(h, h', before, p)
    ensures forall q :: q in done && q in before && Undone(h, mid, before, q) ==> Undone(h, h', before, q)
  {
    assert SameParam(h, mid, p);
    forall q | q !in done + [p] || q !in before ensures SameParam(h, h', q) {
      assert SameParam(h, mid, q) && SameParam(mid, h', q);
    }
    forall q | q in done && q in before
      ensures UndoneUnless(h, h', before, f', q) && (Undone(h, mid, before, q) ==> Undone(h, h', before, q))
    {
      assert UndoneUnless(h, mid, before, f, q) && SameParam(mid, h', q);
    }
  }

  lemma WrittenAreNamed(h: Params, mid: Params, c: Credentials, written: seq<Param>, handle: Handle)
    requires (forall q :: q in h ==> h[q] != []) && Describes(h, handle) && Written(h, mid, c, written)
    ensures forall p :: p in written && p in handle.replaced ==> Names(mid, handle.replaced, p)
  {
  }

  lemma OwnGivenBack(h: Params, mid: Params, h': Params, c: Credentials, written: seq<Param>, handle: Handle, f: seq<Fault>)
    requires (forall q :: q in h ==> h[q] != []) && Describes(h, handle) && Written(h, mid, c, written)
    requires forall p :: p in written ==> IsCredential(p)
    requires forall p :: p !in written ==> SameParam(mid, h', p)
    requires forall p :: p in written && (p in handle.replaced ==> Names(mid, handle.replaced, p)) && Store(p) !in f ==>
               Undone(mid, h', handle.replaced, p)
    ensures GivesOwnBack(h, h', f)
  {
    WrittenAreNamed(h, mid, c, written, handle);
    forall p | IsCredential(p) && Store(p) !in f ensures Current(h', p) == Current(h, p) {
      if p in written {
        OneGivenBack(h, mid, h', c, written, handle, p);
      } else {
        assert SameParam(h, mid, p) && SameParam(mid, h', p);
      }
    }
  }

  /** The value staged for each name is the one its version names. */
  ghost predicate StagedFrom(h: Params, names: seq<Param>, values: seq<string>, snapshot: map<Param, nat>) {
    |values| == |names| && forall i :: 0 <= i < |names| ==>
      Names(h, snapshot, names[i]) && values[i] == History(h, names[i])[snapshot[names[i]] - 1]
  }

  /** Each named parameter has its staged value on top, or is as it was. */
  lemma StagedOrSame(h: Params, mid: Params, names: seq<Param>, values: seq<string>, snapshot: map<Param, nat>)
    requires StagedFrom(h, names, values, snapshot) && forall p :: p !in names ==> SameParam(h, mid, p)
    requires forall i :: 0 <= i < |names| ==>
               SameParam(h, mid, names[i]) || (names[i] in mid && mid[names[i]] == History(h, names[i]) + [values[i]])
    ensures forall p :: SameParam(h, mid, p) || PutBackIn(h, mid, snapshot, p)
  {
    forall p ensures SameParam(h, mid, p) || PutBackIn(h, mid, snapshot, p) {
      if p in names {
        var i :| 0 <= i < |names| && names[i] == p;
      }
    }
  }

  lemma RemovedOrSame(h: Params, mid: Params, h': Params, snapshot: map<Param, nat>, remove: seq<Param>)
    requires forall p :: SameParam(h, mid, p) || PutBackIn(h, mid, snapshot, p)
    requires forall p :: (p in remove && p !in h') || SameParam(mid, h', p)
    ensures forall p :: SameParam(h, h', p) || PutBackIn(h, h', snapshot, p) || (p in remove && p !in h')
  {
    forall p ensures SameParam(h, h', p) || PutBackIn(h, h', snapshot, p) || (p in remove && p !in h') {
      assert SameParam(h, mid, p) || PutBackIn(h, mid, snapshot, p);
    }
  }

  lemma AllPutBack(
    h: Params, mid: Params, h': Params, names: seq<Param>, values: seq<string>, snapshot: map<Param, nat>, remove: seq<Param>)
    requires StagedFrom(h, names, values, snapshot) && forall p :: p in names <==> p in snapshot
    requires forall p :: p !in names ==> SameParam(h, mid, p)
    requires forall i :: 0 <= i < |names| ==> names[i] in mid && mid[names[i]] == History(h, names[i]) + [values[i]]
    requires forall p :: if p in remove then p !in h' else SameParam(mid, h', p)
    ensures RolledBack(h, h', snapshot, remove)
  {
    forall p ensures RolledBackAt(h, h', snapshot, remove, p) {
      assert if p in remove then p !in h' else SameParam(mid, h', p);
      if p in names {
        var i :| 0 <= i < |names| && names[i] == p;
      }
    }
  }

  lemma OneGivenBack(h: Params, mid: Params, h': Params, c: Credentials, written: seq<Param>, handle: Handle, p: Param)
    requires (forall q :: q in h ==> h[q] != []) && Describes(h, handle) && p in written && IsCredential(p)
    requires Written(h, mid, c, written) && Undone(mid, h', handle.replaced, p)
    ensures Current(h', p) == Current(h, p)
  {
    if p in h {
      PutBack(h[p], ValueOf(c, p));
    }
  }

  /** Undoing every write gives back every value, and deletes what did not exist. */
  lemma UndoneGivesBack(h: Params, mid: Params, h': Params, c: Credentials, written: seq<Param>, handle: Handle)
    requires (forall p :: p in h ==> h[p] != []) && Describes(h, handle)
    requires (forall p :: p in written ==> IsCredential(p)) && Written(h, mid, c, written)
    requires forall p :: p in written ==> Undone(mid, h', handle.replaced, p)
    requires forall p :: p !in written ==> SameParam(mid, h', p)
    ensures SameValues(h, h')
  {
    forall p ensures Current(h', p) == Current(h, p) {
      if p in written && p in h {
        PutBack(History(h, p), ValueOf(c, p));
      }
    }
  }

  /** The parameter store, GitHub's hook configuration per App, and which App a key authenticates as. */
  class Environment {
    var params: Params
    var hooks: map<string, string>
    /** Every call that failed so far. */
    ghost var faults: seq<Fault>
    const authenticate: (string, string) -> Option<string>
    const slugOf: string -> string

    constructor (authenticate: (string, string) -> Option<string>, slugOf: string -> string)
    {
      this.authenticate, this.slugOf := authenticate, slugOf;
      params, hooks, faults := map[], map[], [];
    }

    /** No version of any parameter is empty of history. */
    ghost predicate Valid() reads this {
      forall p :: p in params ==> params[p] != []
    }

    method PutParam(p: Param, value: string) returns (ok: bool)
      modifies this`params, this`faults
      ensures params == if ok then Put(old(params), p, value) else old(params)
      ensures faults == if ok then old(faults) else old(faults) + [Store(p)]
      ensures old(Valid()) ==> Valid()
    {
      ok := *;
      if ok {
        params := params[p := (if p in params then params[p] else []) + [value]];
      } else {
        faults := faults + [Store(p)];
      }
    }

    method DeleteParam(p: Param) returns (ok: bool)
      modifies this`params, this`faults
      ensures params == if ok then old(params) - {p} else old(params)
      ensures faults == if ok then old(faults) else old(faults) + [Store(p)]
      ensures old(Valid()) ==> Valid()
    {
      ok := *;
      if ok {
        params := params - {p};
      } else {
        faults := faults + [Store(p)];
      }
    }

    method GetParam(p: Param) returns (value: Option<string>)
      modifies this`faults
      ensures faults == old(faults) || faults == old(faults) + [Store(p)]
      ensures value == if faults == old(faults) then Current(params, p) else None
    {
      var ok: bool := *;
      value := if ok then Current(params, p) else None;
      if !ok {
        faults := faults + [Store(p)];
      }
    }

    /** `None` when the call failed; an absent parameter is a successful answer of `None`. */
    method ParamVersion(p: Param) returns (answer: Option<Option<nat>>)
      modifies this`faults
      ensures faults == if answer.Some? then old(faults) else old(faults) + [Store(p)]
      ensures answer.Some? ==> answer.value == if p in params then Some(|params[p]|) else None
    {
      var ok: bool := *;
      if !ok {
        faults := faults + [Store(p)];
      }
      answer := if !ok then None else if p in params then Some(Some(|params[p]|)) else Some(None);
    }

    method GetParamVersion(p: Param, version: nat) returns (value: Option<string>)
      modifies this`faults
      ensures faults == old(faults) || faults == old(faults) + [Store(p)]
      ensures value.Some? <==> faults == old(faults) && 1 <= version <= |History(params, p)|
      ensures value.Some? ==> value.value == History(params, p)[version - 1]
    {
      var ok: bool := *;
      if !ok {
        faults := faults + [Store(p)];
      }
      if ok && 1 <= version <= |History(params, p)| {
        return Some(History(params, p)[version - 1]);
      }
      return None;
    }

    method GetAppIdentity(appId: string, pem: string) returns (app: Option<string>)
      modifies this`faults
      ensures faults == old(faults) || faults == old(faults) + [GitHub]
      ensures app == if faults == old(faults) then authenticate(appId, pem) else None
    {
      var ok: bool := *;
      if !ok {
        faults := faults + [GitHub];
      }
      app := if ok then authenticate(appId, pem) else None;
    }

    method UpdateAppHookConfig(appId: string, pem: string, secret: string) returns (ok: bool)
      modifies this`hooks, this`faults
      ensures faults == old(faults) || faults == old(faults) + [GitHub]
      ensures ok <==> faults == old(faults) && authenticate(appId, pem).Some?
      ensures ok ==> hooks == old(hooks)[authenticate(appId, pem).value := secret]
      ensures !ok ==> hooks == old(hooks)
    {
      ok := *;
      if !ok {
        faults := faults + [GitHub];
      }
      if ok && authenticate(appId, pem).Some? {
        hooks := hooks[authenticate(appId, pem).value := secret];
      } else {
        ok := false;
      }
    }

    /** Put one parameter's prior version back on top. */
    method RestoreOne(p: Param, before: map<Param, nat>) returns (ok: bool)
      requires Valid() && p in before
      modifies this`params, this`faults
      ensures Valid() && old(faults) <= faults
      ensures forall q :: q != p || !ok ==> SameParam(old(params), params, q)
      ensures ok ==> Undone(old(params), params, before, p)
      ensures ok <==> Names(old(params), before, p) && Store(p) !in Since(old(faults), faults)
      ensures faults == old(faults) || Store(p) in Since(old(faults), faults)
    {
      var value := GetParamVersion(p, before[p]);
      ok := false;
      if value.Some? {
        ok := PutParam(p, value.value);
      }
    }

    /** Put the prior version back on top of each parameter that had one, going on past a step that fails. */
    method RestoreEach(before: map<Param, nat>, written: seq<Param>) returns (complete: bool)
      requires Valid() && Distinct(written)
      modifies this`params, this`faults
      ensures Valid() && old(faults) <= faults
      ensures forall p :: p !in written || p !in before ==> SameParam(old(params), params, p)
      ensures forall p :: p in written && p in before ==> UndoneUnless(old(params), params, before, Since(old(faults), faults), p)
      ensures faults == old(faults) && (forall p :: p in written && p in before ==> Names(old(params), before, p)) ==> complete
      ensures complete ==> forall p :: p in written && p in before ==> Undone(old(params), params, before, p)
    {
      complete := true;
      for i := 0 to |written|
        invariant Valid() && old(faults) <= faults
        invariant forall p :: p !in written[..i] || p !in before ==> SameParam(old(params), params, p)
        invariant forall p :: p in written[..i] && p in before ==> UndoneUnless(old(params), params, before, Since(old(faults), faults), p)
        invariant faults == old(faults) && (forall p :: p in written && p in before ==> Names(old(params), before, p)) ==> complete
        invariant complete ==> forall p :: p in written[..i] && p in before ==> Undone(old(params), params, before, p)
      {
        var p := written[i];
        assert p !in written[..i];
        assert written[..i + 1] == written[..i] + [p];
        ghost var was, mid := faults, params;
        if p in before {
          var ok := RestoreOne(p, before);
          SinceGrows(old(faults), was, faults);
          OneMoreRestored(old(params), mid, params, before, written[..i], p, Since(old(faults), was), Since(old(faults), faults), ok);
          complete := complete && ok;
        }
      }
      assert written[..|written|] == written;
    }

    /** Delete each written parameter that did not exist before. */
    method DeleteEach(absent: seq<Param>, written: seq<Param>) returns (complete: bool)
      requires Valid()
      modifies this`params, this`faults
      ensures Valid() && old(faults) <= faults
      ensures forall p :: p !in written || p !in absent ==> SameParam(old(params), params, p)
      ensures forall p :: p in written && p in absent ==> Store(p) in Since(old(faults), faults) || p !in params
      ensures faults == old(faults) ==> complete
      ensures complete ==> forall p :: p in written && p in absent ==> p !in params
    {
      complete := true;
      for i := 0 to |written|
        invariant Valid() && old(faults) <= faults && (faults == old(faults) ==> complete)
        invariant forall p :: p !in written[..i] || p !in absent ==> SameParam(old(params), params, p)
        invariant forall p :: p in written[..i] && p in absent ==> Store(p) in Since(old(faults), faults) || p !in params
        invariant complete ==> forall p :: p in written[..i] && p in absent ==> p !in params
      {
        assert written[..i + 1] == written[..i] + [written[i]];
        ghost var was := faults;
        if written[i] in absent {
          var ok := DeleteParam(written[i]);
          SinceGrows(old(faults), was, faults);
          complete := complete && ok;
        }
      }
      assert written[..|written|] == written;
    }

    /**
     * Undo the writes made so far, each whatever becomes of the others: every one whose own calls
     * succeed is undone. True only when all were, and always when no call fails. Nothing else is touched.
     */
    method UndoWrites(before: map<Param, nat>, absent: seq<Param>, written: seq<Param>) returns (rolled: bool)
      requires Valid() && Distinct(written) && forall p :: p in written ==> (p in before <==> p !in absent)
      modifies this`params, this`faults
      ensures Valid() && old(faults) <= faults
      ensures forall p :: p !in written ==> SameParam(old(params), params, p)
      ensures forall p :: p in written && (p in before ==> Names(old(params), before, p)) && Store(p) !in Since(old(faults), faults) ==>
                Undone(old(params), params, before, p)
      ensures written != [] && faults == old(faults) && (forall p :: p in written && p in before ==> Names(old(params), before, p)) ==>
                rolled
      ensures rolled ==> written != [] && forall p :: p in written ==> Undone(old(params), params, before, p)
    {
      if written == [] {
        return false;
      }
      var restored := RestoreEach(before, written);
      ghost var was, mid := faults, params;
      var deleted := DeleteEach(absent, written);
      SinceGrows(old(faults), was, faults);
      forall p | p in written && (p in before ==> Names(old(params), before, p)) && Store(p) !in Since(old(faults), faults)
        ensures Undone(old(params), params, before, p)
      {
        if p in before {
          assert UndoneUnless(old(params), mid, before, Since(old(faults), was), p) && SameParam(mid, params, p);
        }
      }
      rolled := restored && deleted;
    }

    /** Version numbers of what exists, and the names of what does not. */
    method Snapshot(names: seq<Param>) returns (answer: Option<Handle>)
      modifies this`faults
      ensures old(faults) <= faults && (faults == old(faults) <==> answer.Some?)
      ensures answer.Some? ==> DescribesOf(params, names, answer.value)
    {
      var before: map<Param, nat>, absent: seq<Param> := map[], [];
      for i := 0 to |names|
        invariant faults == old(faults) && DescribesOf(params, names[..i], Handle(before, absent))
      {
        assert names[..i + 1] == names[..i] + [names[i]];
        var version := ParamVersion(names[i]);
        if version.None? {
          return None;
        }
        if version.value.Some? {
          before := before[names[i] := version.value.value];
        } else {
          absent := absent + [names[i]];
        }
      }
      assert names[..|names|] == names;
      return Some(Handle(before, absent));
    }

    /** Write one by one, stopping at the first failure; `written` says how far it got. */
    method WriteCredentials(c: Credentials, names: seq<Param>) returns (written: seq<Param>)
      requires Valid() && Distinct(names)
      modifies this`params, this`faults
      ensures Valid() && old(faults) <= faults && (faults == old(faults) <==> written == names)
      ensures Distinct(written) && (forall p :: p in written ==> p in names)
      ensures |written| <= |names| && (|written| == |names| ==> written == names)
      ensures Written(old(params), params, c, written)
    {
      written := [];
      for i := 0 to |names|
        invariant Valid() && faults == old(faults) && written == names[..i] && Written(old(params), params, c, written)
      {
        assert names[i] !in written;
        var ok := PutParam(names[i], ValueOf(c, names[i]));
        if !ok {
          return;
        }
        written := written + [names[i]];
      }
    }

    ghost predicate IsStored(appId: string) reads this {
      && Current(params, AppId).Some? && Current(params, AppPem).Some?
      && authenticate(Current(params, AppId).value, Current(params, AppPem).value) == Some(appId)
    }

    /** Re-read what is stored and ask GitHub which App it authenticates as. */
    method VerifyStored(appId: string) returns (verified: bool)
      modifies this`faults
      ensures old(faults) <= faults
      ensures faults == old(faults) && IsStored(appId) ==> verified
      ensures verified ==> IsStored(appId)
    {
      var id := GetParam(AppId);
      var pem := GetParam(AppPem);
      if id.None? || pem.None? {
        return false;
      }
      var app := GetAppIdentity(id.value, pem.value);
      verified := app == Some(appId);
    }

    /** `UndoWrites`, with what it means for the values: `h` is the store before the writes. */
    method UndoRelink(ghost was: seq<Fault>, ghost h: Params, ghost c: Credentials, handle: Handle, written: seq<Param>)
      returns (r: Outcome)
      requires was <= faults
      requires Valid() && (forall p :: p in h ==> h[p] != []) && Describes(h, handle)
      requires Distinct(written) && (forall p :: p in written ==> IsCredential(p)) && Written(h, params, c, written)
      modifies this`params, this`faults
      ensures Valid() && old(faults) <= faults
      ensures r.Failed? && r.written == |written| && r.handle == handle
      ensures GivesOwnBack(h, params, Since(was, faults))
      ensures faults == old(faults) && written != [] ==> r.rolledBack
      ensures LeftWell(h, params, r)
    {
      ghost var mid := params;
      WrittenAreNamed(h, mid, c, written, handle);
      var rolled := UndoWrites(handle.replaced, handle.created, written);
      if rolled || written == [] {
        UndoneGivesBack(h, mid, params, c, written, handle);
      }
      OwnGivenBack(h, mid, params, c, written, handle, Since(old(faults), faults));
      MoreFaults(h, params, was, old(faults), faults);
      r := Failed(|written|, rolled, handle);
    }

    /** Verify what is stored, then tell GitHub the secret; a desync must be allowed or be none. */
    method AskGitHub(c: Credentials, rotated: bool, allowHookDesync: bool) returns (settled: bool, hookSynced: bool)
      requires authenticate(c.appId, c.pem) == Some(c.appId)
      modifies this`hooks, this`faults
      ensures old(faults) <= faults
      ensures faults == old(faults) && IsStored(c.appId) ==> settled && hookSynced
      ensures settled ==> hookSynced || allowHookDesync || !rotated
      ensures hooks == if settled && hookSynced then old(hooks)[c.appId := c.webhookSecret] else old(hooks)
    {
      settled, hookSynced := false, false;
      var verified := VerifyStored(c.appId);
      if !verified {
        return;
      }
      hookSynced := UpdateAppHookConfig(c.appId, c.pem, c.webhookSecret);
      settled := hookSynced || !rotated || allowHookDesync;
    }

    /** The second half: everything is written; settle it with GitHub, or undo it. */
    method SettleRelink(ghost was: seq<Fault>, ghost h: Params, c: Credentials, handle: Handle, written: seq<Param>, rotated: bool, allowHookDesync: bool)
      returns (r: Outcome)
      requires Valid() && (forall p :: p in h ==> h[p] != []) && Describes(h, handle)
      requires Distinct(written) && (forall p :: p in written <==> IsCredential(p)) && Written(h, params, c, written)
      requires authenticate(c.appId, c.pem) == Some(c.appId) && was <= faults
      modifies this
      ensures Valid() && !r.Rejected? && r.handle == handle && old(faults) <= faults
      ensures faults == old(faults) ==> r.Relinked? && r.hookSynced
      ensures r.Failed? ==> GivesOwnBack(h, params, Since(was, faults))
      ensures r.Failed? ==> hooks == old(hooks) && LeftWell(h, params, r)
      ensures r.Relinked? ==>
                && OnTop(h, params, c)
                && hooks == (if r.hookSynced then old(hooks)[c.appId := c.webhookSecret] else old(hooks))
                && (r.hookSynced || allowHookDesync || !rotated)
    {
      WrittenStores(h, params, c, written);
      var settled, hookSynced := AskGitHub(c, rotated, allowHookDesync);
      if !settled {
        r := UndoRelink(was, h, c, handle, written);
        return;
      }
      WrittenIsSubmitted(h, params, c, written);
      ghost var mid := params;
      var slugged := PutParam(AppSlug, slugOf(c.appId));
      SlugKeeps(h, mid, params, c);
      r := Relinked(handle, hookSynced);
    }

    /**
     * Replace the App's credentials, or leave every value as it was.
     *
     * A failure whose undo succeeded (or that wrote nothing) gives back every value and deletes what
     * was created. GitHub's hook secret only changes with a relink that succeeds, and a relink that
     * succeeds without syncing it either kept the secret or was told to accept the desync.
     *
     * When no call fails and the submitted key is the submitted App's, the relink succeeds and the hook
     * is synced. When it fails, every credential none of whose own calls failed has its old value again.
     */
    method RelinkAction(c: Credentials, allowHookDesync: bool) returns (r: Outcome)
      requires Valid()
      modifies this
      ensures Valid() && old(faults) <= faults
      ensures faults == old(faults) ==>
                if authenticate(c.appId, c.pem) == Some(c.appId) then r.Relinked? && r.hookSynced else r.Rejected?
      ensures r.Failed? ==> GivesOwnBack(old(params), params, Since(old(faults), faults))
      ensures r.Rejected? ==> params == old(params) && hooks == old(hooks)
      ensures !r.Rejected? ==> Describes(old(params), r.handle)
      ensures r.Failed? ==> hooks == old(hooks) && SameParam(old(params), params, AppSlug)
      ensures r.Failed? && (r.rolledBack || r.written == 0) ==> SameValues(old(params), params)
      ensures r.Relinked? ==>
                && Submitted(old(params), params, c)
                && authenticate(c.appId, c.pem) == Some(c.appId)
                && hooks == (if r.hookSynced then old(hooks)[c.appId := c.webhookSecret] else old(hooks))
                && (r.hookSynced || allowHookDesync || Current(old(params), WebhookSecret) == Some(c.webhookSecret))
      ensures (old(InAgreement(params, hooks)) && Current(old(params), AppId) == Some(c.appId) && !allowHookDesync
               && (r.Failed? ==> r.rolledBack || r.written == 0)) ==> InAgreement(params, hooks)
    {
      r := ReplaceCredentials(c, allowHookDesync);
      AgreementKept(old(params), old(hooks), params, hooks, c, allowHookDesync, r);
      if r.Relinked? {
        OnTopIsSubmitted(old(params), params, c);
      }
    }

    method ReplaceCredentials(c: Credentials, allowHookDesync: bool) returns (r: Outcome)
      requires Valid()
      modifies this
      ensures Valid() && old(faults) <= faults
      ensures faults == old(faults) ==>
                if authenticate(c.appId, c.pem) == Some(c.appId) then r.Relinked? && r.hookSynced else r.Rejected?
      ensures r.Failed? ==> GivesOwnBack(old(params), params, Since(old(faults), faults))
      ensures r.Relinked? ==> authenticate(c.appId, c.pem) == Some(c.appId)
      ensures !r.Rejected? ==> Describes(old(params), r.handle)
      ensures CameTo(old(params), old(hooks), params, hooks, c, allowHookDesync, r)
    {
      var app := GetAppIdentity(c.appId, c.pem);
      if app != Some(c.appId) {
        return Rejected;
      }
      CredentialsListed();
      var snapshot := Snapshot(CREDENTIALS);
      if snapshot.None? {
        return Rejected;
      }
      var current := GetParam(WebhookSecret);
      var written := WriteCredentials(c, CREDENTIALS);
      if |written| < |CREDENTIALS| {
        r := UndoRelink(old(faults), old(params), c, snapshot.value, written);
      } else {
        r := SettleRelink(old(faults), old(params), c, snapshot.value, written, current != Some(c.webhookSecret), allowHookDesync);
      }
    }

    /** Phase 1 of a rollback: every historical value is read before anything is written. */
    method StageVersions(names: seq<Param>, snapshot: map<Param, nat>) returns (staged: Option<seq<string>>)
      requires forall p :: p in names ==> p in snapshot
      modifies this`faults
      ensures old(faults) <= faults
      ensures staged.Some? <==> faults == old(faults) && forall p :: p in names ==> Names(params, snapshot, p)
      ensures staged.Some? ==> StagedFrom(params, names, staged.value, snapshot)
    {
      var values: seq<string> := [];
      for i := 0 to |names|
        invariant |values| == i && faults == old(faults)
        invariant forall p :: p in names[..i] ==> Names(params, snapshot, p)
        invariant forall k :: 0 <= k < i ==>
                    1 <= snapshot[names[k]] <= |History(params, names[k])|
                    && values[k] == History(params, names[k])[snapshot[names[k]] - 1]
      {
        var value := GetParamVersion(names[i], snapshot[names[i]]);
        if value.None? {
          assert names[i] in names;
          return None;
        }
        assert names[..i + 1] == names[..i] + [names[i]];
        values := values + [value.value];
      }
      assert names[..|names|] == names;
      return Some(values);
    }

    /** Phase 2: put the staged values back. */
    method PutStaged(names: seq<Param>, values: seq<string>) returns (ok: bool)
      requires Valid() && Distinct(names) && |values| == |names|
      modifies this`params, this`faults
      ensures Valid() && old(faults) <= faults && (ok <==> faults == old(faults))
      ensures forall p :: p !in names ==> SameParam(old(params), params, p)
      ensures forall i :: 0 <= i < |names| ==>
                SameParam(old(params), params, names[i])
                || (names[i] in params && params[names[i]] == History(old(params), names[i]) + [values[i]])
      ensures ok ==> forall i :: 0 <= i < |names| ==>
                names[i] in params && params[names[i]] == History(old(params), names[i]) + [values[i]]
    {
      for i := 0 to |names|
        invariant Valid() && faults == old(faults)
        invariant forall p :: p !in names[..i] ==> SameParam(old(params), params, p)
        invariant forall k :: 0 <= k < i ==>
                    names[k] in params && params[names[k]] == History(old(params), names[k]) + [values[k]]
      {
        assert names[..i + 1] == names[..i] + [names[i]];
        assert names[i] !in names[..i];
        var put := PutParam(names[i], values[i]);
        if !put {
          assert forall k :: i <= k < |names| ==> names[k] !in names[..i];
          return false;
        }
      }
      ok := true;
    }

    /** Phase 3: delete what the relink created; stops at the first failure. */
    method RemoveAll(remove: seq<Param>) returns (ok: bool)
      requires Valid()
      modifies this`params, this`faults
      ensures Valid() && old(faults) <= faults && (ok <==> faults == old(faults))
      ensures forall p :: p in remove ==> p !in params || SameParam(old(params), params, p)
      ensures forall p :: p !in remove ==> SameParam(old(params), params, p)
      ensures ok ==> forall p :: p in remove ==> p !in params
    {
      for i := 0 to |remove|
        invariant Valid() && faults == old(faults)
        invariant forall p :: p in remove ==> p !in params || SameParam(old(params), params, p)
        invariant forall p :: p !in remove ==> SameParam(old(params), params, p)
        invariant forall p :: p in remove[..i] ==> p !in params
      {
        assert remove[..i + 1] == remove[..i] + [remove[i]];
        var deleted := DeleteParam(remove[i]);
        if !deleted {
          return false;
        }
      }
      assert remove[..|remove|] == remove;
      ok := true;
    }

    /**
     * Restore the named versions and remove the named parameters. A history read that fails aborts
     * before anything is touched; a parameter in neither list is never touched. When no call fails it
     * succeeds exactly when every named version exists, and a write that fails leaves every parameter
     * as it was, put back, or removed.
     */
    method RestoreVersions(names: seq<Param>, snapshot: map<Param, nat>, remove: seq<Param>) returns (r: RestoreOutcome)
      requires Valid() && Distinct(names) && (forall p :: p in names <==> p in snapshot)
      modifies this`params, this`faults
      ensures Valid() && old(faults) <= faults
      ensures faults == old(faults) && !r.NothingNamed? ==>
                if forall p :: p in names ==> Names(old(params), snapshot, p) then r.Restored? else r.ReadFailed?
      ensures r.WriteFailed? ==> forall p ::
                SameParam(old(params), params, p) || PutBackIn(old(params), params, snapshot, p) || (p in remove && p !in params)
      ensures r.NothingNamed? <==> names == [] && remove == []
      ensures r.NothingNamed? || r.ReadFailed? ==> params == old(params)
      ensures forall p :: p !in names && p !in remove ==> SameParam(old(params), params, p)
      ensures r.Restored? ==> RolledBack(old(params), params, snapshot, remove)
    {
      if names == [] && remove == [] {
        return NothingNamed;
      }
      var staged := StageVersions(names, snapshot);
      if staged.None? {
        return ReadFailed;
      }
      var put := PutStaged(names, staged.value);
      ghost var mid := params;
      StagedOrSame(old(params), mid, names, staged.value, snapshot);
      if !put {
        return WriteFailed;
      }
      var removed := RemoveAll(remove);
      if !removed {
        RemovedOrSame(old(params), mid, params, snapshot, remove);
        return WriteFailed;
      }
      AllPutBack(old(params), mid, params, names, staged.value, snapshot, remove);
      r := Restored;
    }

    /**
     * The operator's rollback: restore, then point GitHub at the restored secret if the restored
     * key still authenticates. Reporting the hook synced means the two sides agree.
     */
    method RollbackAction(names: seq<Param>, snapshot: map<Param, nat>, remove: seq<Param>)
      returns (r: RestoreOutcome, hookSynced: bool)
      requires Valid() && Distinct(names) && (forall p :: p in names <==> p in snapshot)
      requires forall p :: p in names || p in remove ==> IsCredential(p)
      modifies this
      ensures Valid() && old(faults) <= faults
      ensures r.NothingNamed? <==> names == [] && remove == []
      ensures faults == old(faults) && !r.NothingNamed? ==>
                if forall p :: p in names ==> Names(old(params), snapshot, p) then r.Restored? else r.ReadFailed?
      ensures faults == old(faults) && r.Restored? && Authenticates() ==> hookSynced
      ensures r.NothingNamed? || r.ReadFailed? ==> params == old(params) && hooks == old(hooks)
      ensures !r.Restored? ==> !hookSynced && hooks == old(hooks)
      ensures forall p :: IsCredential(p) && p !in names && p !in remove ==> SameParam(old(params), params, p)
      ensures r.Restored? ==> forall p :: IsCredential(p) ==> RolledBackAt(old(params), params, snapshot, remove, p)
      ensures hookSynced ==>
                && Current(params, AppId).Some? && Current(params, AppPem).Some? && Current(params, WebhookSecret).Some?
                && var app := authenticate(Current(params, AppId).value, Current(params, AppPem).value);
                   app.Some? && hooks == old(hooks)[app.value := Current(params, WebhookSecret).value]
    {
      r := RestoreVersions(names, snapshot, remove);
      hookSynced := false;
      if r.Restored? {
        ghost var restored := params;
        hookSynced := ResyncHook();
        SameCredentials(old(params), restored, params, snapshot, remove);
      }
    }

    /** The stored key authenticates, and there is a secret to tell GitHub. */
    ghost predicate Authenticates() reads this {
      && Current(params, AppId).Some? && Current(params, AppPem).Some? && Current(params, WebhookSecret).Some?
      && authenticate(Current(params, AppId).value, Current(params, AppPem).value).Some?
    }

    /** Point the slug and GitHub's hook at what the stored key authenticates as; no credential changes. */
    method ResyncHook() returns (hookSynced: bool)
      requires Valid()
      modifies this
      ensures old(faults) <= faults && (faults == old(faults) && Authenticates() ==> hookSynced)
      ensures Valid() && forall p :: IsCredential(p) ==> SameParam(old(params), params, p)
      ensures !hookSynced ==> hooks == old(hooks)
      ensures hookSynced ==>
                && Current(params, AppId).Some? && Current(params, AppPem).Some? && Current(params, WebhookSecret).Some?
                && var app := authenticate(Current(params, AppId).value, Current(params, AppPem).value);
                   app.Some? && hooks == old(hooks)[app.value := Current(params, WebhookSecret).value]
    {
      var id := GetParam(AppId);
      var pem := GetParam(AppPem);
      if id.None? || pem.None? {
        return false;
      }
      var app := GetAppIdentity(id.value, pem.value);
      if app.None? {
        return false;
      }
      var slugged := PutParam(AppSlug, slugOf(app.value));
      assert Current(params, AppId) == id && Current(params, AppPem) == pem;
      var secret := GetParam(WebhookSecret);
      if secret.None? {
        return false;
      }
      hookSynced := UpdateAppHookConfig(id.value, pem.value, secret.value);
    }
  }

  lemma SameCredentials(h: Params, mid: Params, h': Params, snapshot: map<Param, nat>, remove: seq<Param>)
    requires RolledBack(h, mid, snapshot, remove) && forall p :: IsCredential(p) ==> SameParam(mid, h', p)
    ensures forall p :: IsCredential(p) ==> RolledBackAt(h, h', snapshot, remove, p)
  {
    forall p | IsCredential(p) ensures RolledBackAt(h, h', snapshot, remove, p) {
      assert RolledBackAt(h, mid, snapshot, remove, p) && SameParam(mid, h', p);
    }
  }

  // ---- across a relink and a rollback -------------------------------------------------------------------

  /** What an outcome says of the parameters and of GitHub. */
  ghost predicate CameTo(
    h: Params, hooks: map<string, string>, h': Params, hooks': map<string, string>, c: Credentials, allowHookDesync: bool, r: Outcome)
  {
    match r
    case Rejected => h' == h && hooks' == hooks
    case Failed(_, _, _) => hooks' == hooks && LeftWell(h, h', r)
    case Relinked(_, hookSynced) =>
      && OnTop(h, h', c)
      && hooks' == (if hookSynced then hooks[c.appId := c.webhookSecret] else hooks)
      && (hookSynced || allowHookDesync || Current(h, WebhookSecret) == Some(c.webhookSecret))
  }

  lemma AgreementKept(
    h: Params, hooks: map<string, string>, h': Params, hooks': map<string, string>, c: Credentials, allowHookDesync: bool, r: Outcome)
    requires CameTo(h, hooks, h', hooks', c, allowHookDesync, r)
    ensures (InAgreement(h, hooks) && Current(h, AppId) == Some(c.appId) && !allowHookDesync
             && (r.Failed? ==> r.rolledBack || r.written == 0)) ==> InAgreement(h', hooks')
  {
    if r.Relinked? && InAgreement(h, hooks) && Current(h, AppId) == Some(c.appId) {
      RelinkKeepsAgreement(h, hooks, h', hooks', c, r.hookSynced);
    }
  }

  /** An unchanged App stays in agreement with GitHub through a relink that kept or synced its secret. */
  lemma RelinkKeepsAgreement(h: Params, hooks: map<string, string>, h': Params, hooks': map<string, string>, c: Credentials, hookSynced: bool)
    requires InAgreement(h, hooks) && Current(h, AppId) == Some(c.appId)
    requires forall p :: IsCredential(p) ==> p in h' && h'[p] == History(h, p) + [ValueOf(c, p)]
    requires hooks' == if hookSynced then hooks[c.appId := c.webhookSecret] else hooks
    ensures InAgreement(h', hooks') <==> hookSynced || Current(h, WebhookSecret) == Some(c.webhookSecret)
  {
    assert Current(h', AppId) == Some(c.appId);
    assert Current(h', WebhookSecret) == Some(c.webhookSecret);
  }

  /** `h` before the relink, `now` at the rollback, `h'` after it: each history was only added to since. */
  ghost predicate OnlyExtended(h: Params, now: Params) {
    forall p :: IsCredential(p) && p in h ==> p in now && h[p] <= now[p]
  }

  /** Rolling back with the handle a relink returned gives back every value from before it. */
  lemma HandleRestores(h: Params, now: Params, h': Params, handle: Handle, p: Param)
    requires (forall q :: q in h ==> h[q] != []) && Describes(h, handle) && OnlyExtended(h, now) && IsCredential(p)
    requires RolledBackAt(now, h', handle.replaced, handle.created, p)
    ensures Current(h', p) == Current(h, p)
  {
    if p in h {
      assert now[p][|h[p]| - 1] == h[p][|h[p]| - 1];
    }
  }

  // ---- a handle kept while the store moved on -----------------------------------------------------------

  /** One change to the store after the snapshot a handle was taken from. */
  datatype Change = Wrote(name: Param, value: string) | Removed(name: Param)

  function Apply(h: Params, change: Change): Params {
    match change
    case Wrote(p, value) => Put(h, p, value)
    case Removed(p) => h - {p}
  }

  function ApplyAll(h: Params, changes: seq<Change>): Params {
    if changes == [] then h else Apply(ApplyAll(h, changes[..|changes| - 1]), changes[|changes| - 1])
  }

  lemma Snoc(h: Params, changes: seq<Change>, change: Change)
    ensures ApplyAll(h, changes + [change]) == Apply(ApplyAll(h, changes), change)
  {
    assert (changes + [change])[..|changes|] == changes;
  }

  /** The same parameters written and removed in the same order, with whatever values. */
  ghost predicate SameShape(changes: seq<Change>, others: seq<Change>) {
    |others| == |changes| && forall i :: 0 <= i < |changes| ==>
      others[i].name == changes[i].name && others[i].Wrote? == changes[i].Wrote?
  }

  /** A rollback with the handle finds the version it names, and puts the old value of `p` back. */
  ghost predicate GivesBack(h: Params, now: Params, handle: Handle, p: Param) {
    && (p in handle.replaced ==> handle.replaced[p] <= |History(now, p)|)
    && forall h' :: RolledBackAt(now, h', handle.replaced, handle.created, p) ==> Current(h', p) == Current(h, p)
  }

  lemma {:induction false} NeverRemovedExtends(h: Params, changes: seq<Change>, p: Param)
    requires p in h && Removed(p) !in changes
    ensures var now := ApplyAll(h, changes); p in now && h[p] <= now[p]
  {
    if changes != [] {
      NeverRemovedExtends(h, changes[..|changes| - 1], p);
    }
  }

  lemma Grows(h: Params, change: Change, p: Param)
    requires change != Removed(p)
    ensures History(Apply(h, change), p) == if change.Wrote? && change.name == p then History(h, p) + [change.value] else History(h, p)
  {
  }

  /** After a removal the history holds only values written since. */
  lemma {:induction false} RemovedForgets(h: Params, changes: seq<Change>, p: Param, value: string)
    requires Removed(p) in changes && forall c :: c in changes && c.Wrote? ==> c.value == value
    ensures forall x :: x in History(ApplyAll(h, changes), p) ==> x == value
  {
    var front, last := changes[..|changes| - 1], changes[|changes| - 1];
    assert changes == front + [last];
    assert last in changes;
    if last != Removed(p) {
      assert Removed(p) in front;
      RemovedForgets(h, front, p, value);
      Grows(ApplyAll(h, front), last, p);
    }
  }

  function Overwritten(changes: seq<Change>, value: string): (r: seq<Change>)
    ensures SameShape(changes, r) && forall c :: c in r && c.Wrote? ==> c.value == value
  {
    seq(|changes|, i requires 0 <= i < |changes| =>
      if changes[i].Wrote? then Wrote(changes[i].name, value) else changes[i])
  }

  lemma OtherValueMisleads(h: Params, now: Params, handle: Handle, p: Param, other: string)
    requires p in h && h[p] != [] && Describes(h, handle) && IsCredential(p) && other != h[p][|h[p]| - 1]
    requires forall x :: x in History(now, p) ==> x == other
    ensures !GivesBack(h, now, handle, p)
  {
    var n := |h[p]|;
    if n <= |History(now, p)| {
      var versions := History(now, p);
      assert versions[n - 1] in versions;
      var h' := Put(now, p, other);
      assert RolledBackAt(now, h', handle.replaced, handle.created, p);
      assert Current(h', p) != Current(h, p);
    }
  }

  /** The handle names a version number, and numbering restarts with a parameter removed and written again. */
  lemma RemovedMisleads(h: Params, changes: seq<Change>, handle: Handle, p: Param)
    requires p in h && h[p] != [] && Describes(h, handle) && IsCredential(p) && Removed(p) in changes
    ensures exists others :: SameShape(changes, others) && !GivesBack(h, ApplyAll(h, others), handle, p)
  {
    var kept := h[p][|h[p]| - 1];
    var others := Overwritten(changes, kept + "x");
    var i :| 0 <= i < |changes| && changes[i] == Removed(p);
    assert others[i] == Removed(p);
    RemovedForgets(h, others, p, kept + "x");
    assert kept + "x" != kept;
    OtherValueMisleads(h, ApplyAll(h, others), handle, p, kept + "x");
    assert SameShape(changes, others) && !GivesBack(h, ApplyAll(h, others), handle, p);
  }

  /**
   * Exactly how long a handle may be kept. Whatever was written and removed since the snapshot, and
   * whatever the values, rolling back gives the old value of `p` back if and only if `p` did not exist
   * or was never removed since.
   */
  lemma HandleRestoresIff(h: Params, changes: seq<Change>, handle: Handle, p: Param)
    requires (forall q :: q in h ==> h[q] != []) && Describes(h, handle) && IsCredential(p)
    ensures (forall others :: SameShape(changes, others) ==> GivesBack(h, ApplyAll(h, others), handle, p)) <==>
            p !in h || Removed(p) !in changes
  {
    if p in h && Removed(p) in changes {
      RemovedMisleads(h, changes, handle, p);
    } else {
      forall others | SameShape(changes, others) ensures GivesBack(h, ApplyAll(h, others), handle, p) {
        if p in h {
          assert Removed(p) !in others;
          NeverRemovedExtends(h, others, p);
          assert ApplyAll(h, others)[p][|h[p]| - 1] == h[p][|h[p]| - 1];
        }
      }
    }
  }

  lemma Recreated(h: Params, p: Param, first: string, second: string, third: string)
    ensures ApplyAll(h, [Wrote(p, first)] + [Removed(p)] + [Wrote(p, second)] + [Wrote(p, third)]) == h[p := [second, third]]
  {
    var none: seq<Change> := [];
    var steps := [Wrote(p, first)];
    assert none + steps == steps;
    Snoc(h, none, Wrote(p, first));
    Snoc(h, steps, Removed(p));
    Snoc(h, steps + [Removed(p)], Wrote(p, second));
    Snoc(h, steps + [Removed(p)] + [Wrote(p, second)], Wrote(p, third));
    var gone := Put(h, p, first) - {p};
    var nothing: seq<string> := [];
    assert History(gone, p) == nothing && nothing + [second] == [second];
    assert Put(gone, p, second)[p] == [second] && [second] + [third] == [second, third];
    assert Put(Put(gone, p, second), p, third) == h[p := [second, third]];
  }

  /** The instance: the secret "a" was replaced, removed, and set to "b" and then "a"; rolling back gives "b". */
  lemma HandleMisledByRecreation()
    ensures var h, handle := map[WebhookSecret := ["a"]], Handle(map[WebhookSecret := 1], [AppId, AppPem, ClientId, ClientSecret]);
            var now := map[WebhookSecret := ["b", "a"]];
            && Describes(h, handle)
            && now == ApplyAll(h, [Wrote(WebhookSecret, "c")] + [Removed(WebhookSecret)] + [Wrote(WebhookSecret, "b")] + [Wrote(WebhookSecret, "a")])
            && RolledBackAt(now, Put(now, WebhookSecret, "b"), handle.replaced, handle.created, WebhookSecret)
            && Current(Put(now, WebhookSecret, "b"), WebhookSecret) == Some("b")
  {
    var created := [AppId, AppPem, ClientId, ClientSecret];
    assert created[0] == AppId && created[1] == AppPem && created[2] == ClientId && created[3] == ClientSecret;
    Recreated(map[WebhookSecret := ["a"]], WebhookSecret, "c", "b", "a");
    assert Put(map[WebhookSecret := ["b", "a"]], WebhookSecret, "b")[WebhookSecret] == ["b", "a"] + ["b"];
  }
}
