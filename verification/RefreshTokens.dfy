/**
 Refresh-token rotation: the service over the repository's records, with every database call free to fail. Revocation
 follows the repository's query, which reaches the root of a chain and its direct children only.
 */
module RefreshTokens {
  import opened Prelude

  datatype Token = Token(
    token: string, user: string, device: string, access: string, createdAt: int, expiresAt: int,
    used: bool, revoked: bool, rotationCount: int, parent: Option<string>)

  type Store = map<string, Token>

  datatype AuthError = DatabaseError | UnknownToken | SessionExpired

  const MAX_ROTATION_COUNT := 100
  const DAY := 24 * 3600
  const LIFETIME := 30 * DAY

  predicate Live(t: Token) {
    !t.used && !t.revoked
  }

  // ---------- the repository ----------

  /** `validate_extended_refresh_token`. */
  function Validate(store: Store, token: string, now: int): Option<Token> {
    if token in store && Live(store[token]) && !(now > store[token].expiresAt) then Some(store[token]) else None
  }

  function MarkUsed(store: Store, token: string): Store {
    if token in store then store[token := store[token].(used := true)] else store
  }

  /** `UPDATE ... SET revoked = true WHERE token = $root OR parent_token = $root`. */
  function RevokeFromRoot(store: Store, root: string): Store {
    RevokeWhere(store, (t: Token) => t.token == root || t.parent == Some(root))
  }

  function RevokeWhere(store: Store, selected: Token -> bool): (r: Store)
    ensures r.Keys == store.Keys
  {
    map k | k in store :: if selected(store[k]) then store[k].(revoked := true) else store[k]
  }

  /** `DELETE ... WHERE expires_at < now OR (used = true AND created_at < now - 7d)`. */
  function DeleteExpired(store: Store, now: int): Store {
    map k | k in store && !(store[k].expiresAt < now || (store[k].used && store[k].createdAt < now - 7 * DAY)) ::
      store[k]
  }

  // ---------- the forest ----------

  /**
   Records are filed under their token, counts are bounded, and a stored parent is one rotation earlier for the same
   user and device.
   */
  ghost predicate Forest(store: Store) {
    forall k :: k in store ==>
      && store[k].token == k
      && 0 <= store[k].rotationCount <= MAX_ROTATION_COUNT
      && (store[k].parent.None? <==> store[k].rotationCount == 0)
      && (HasParent(store, k) ==>
            var p := store[store[k].parent.value];
            p.user == store[k].user && p.device == store[k].device && p.rotationCount + 1 == store[k].rotationCount)
  }

  predicate HasParent(store: Store, k: string)
    requires k in store
  {
    store[k].parent.Some? && store[k].parent.value in store
  }

  /** Where the walk over parents ends: the oldest ancestor still stored. */
  function Root(store: Store, k: string): (r: string)
    requires Forest(store) && k in store
    ensures r in store && !HasParent(store, r)
    ensures store[r].rotationCount <= store[k].rotationCount
    ensures store[r].rotationCount == store[k].rotationCount ==> r == k
    ensures store[r].user == store[k].user && store[r].device == store[k].device
    decreases store[k].rotationCount
  {
    if HasParent(store, k) then Root(store, store[k].parent.value) else k
  }

  /** A walk that a failing lookup may stop early. */
  function WalkEnd(store: Store, k: string, failAt: Option<nat>): (r: string)
    requires Forest(store) && k in store
    ensures r in store && Root(store, r) == Root(store, k)
    ensures failAt.None? ==> r == Root(store, k)
    decreases store[k].rotationCount
  {
    if failAt == Some(0) || !HasParent(store, k) then k
    else WalkEnd(store, store[k].parent.value, if failAt.Some? then Some(failAt.value - 1) else None)
  }

  /** Records only dropped, or marked used or revoked. */
  ghost predicate OnlyMarked(store: Store, next: Store) {
    && next.Keys <= store.Keys
    && forall k :: k in next ==>
         next[k] == store[k].(used := next[k].used, revoked := next[k].revoked) && (store[k].used ==> next[k].used)
  }

  lemma ForestAt(store: Store, k: string)
    requires Forest(store) && k in store
    ensures store[k].token == k && 0 <= store[k].rotationCount <= MAX_ROTATION_COUNT
    ensures HasParent(store, k) ==> store[store[k].parent.value].rotationCount + 1 == store[k].rotationCount
  {
  }

  lemma MarkingKeepsForest(store: Store, next: Store)
    requires Forest(store) && OnlyMarked(store, next)
    ensures Forest(next)
  {
  }

  lemma RevocationKeepsForest(store: Store, root: string)
    requires Forest(store)
    ensures Forest(RevokeFromRoot(store, root))
  {
  }

  /** A record for a new root or for the next rotation of a stored token. */
  ghost predicate Extends(store: Store, t: Token) {
    && Unseen(store, t.token) && 0 <= t.rotationCount <= MAX_ROTATION_COUNT
    && match t.parent
       case None => t.rotationCount == 0
       case Some(p) =>
         && p in store && store[p].user == t.user && store[p].device == t.device
         && store[p].rotationCount + 1 == t.rotationCount
  }

  lemma ExtendingKeepsForest(store: Store, t: Token)
    requires Forest(store) && Extends(store, t)
    ensures Forest(store[t.token := t])
  {
  }

  // ---------- the service ----------

  /**
   Which calls of one operation fail; a failing call has no effect. With `markMisses`, the update that marks a token
   as used selects no record, which is not an error.
   */
  datatype Faults = Faults(
    access: bool, validate: bool, store: bool, mark: bool, markMisses: bool, session: bool, get: bool,
    walk: Option<nat>, revoke: bool)

  const NO_FAULTS := Faults(false, false, false, false, false, false, false, None, false)

  datatype Outcome<T> = Outcome(result: Result<T, AuthError>, store: Store)

  /** A token string never seen before. */
  predicate Unseen(store: Store, token: string) {
    token !in store && forall k :: k in store ==> store[k].parent != Some(token)
  }

  function Create(store: Store, user: string, device: string, token: string, access: string, now: int, f: Faults)
    : Outcome<string>
  {
    if f.access || f.store then Outcome(Failure(DatabaseError), store)
    else
      var next := store[token := Token(token, user, device, access, now, now + LIFETIME, false, false, 0, None)];
      Outcome(if f.session then Failure(DatabaseError) else Success(token), next)
  }

  function Revoke(store: Store, token: string, f: Faults): Outcome<()>
    requires Forest(store)
  {
    if f.get then Outcome(Failure(DatabaseError), store)
    else if token !in store then Outcome(Failure(UnknownToken), store)
    else if f.revoke then Outcome(Failure(DatabaseError), store)
    else Outcome(Success(()), RevokeFromRoot(store, WalkEnd(store, token, f.walk)))
  }

  /** The clock is read to validate the old token and again to date the new one. */
  function Refresh(store: Store, token: string, newToken: string, access: string, checkedAt: int, now: int, f: Faults)
    : Outcome<string>
    requires Forest(store)
  {
    if f.validate then Outcome(Failure(DatabaseError), store)
    else
      match Validate(store, token, checkedAt)
      case None => Outcome(Failure(UnknownToken), store)
      case Some(prior) =>
        if prior.rotationCount >= MAX_ROTATION_COUNT then
          var revoked := Revoke(store, token, f);
          Outcome(Failure(if revoked.result.Failure? then revoked.result.error else SessionExpired), revoked.store)
        else if f.access || f.store then Outcome(Failure(DatabaseError), store)
        else
          var child := Token(newToken, prior.user, prior.device, access, now, now + LIFETIME, false, false,
                             prior.rotationCount + 1, Some(prior.token));
          var stored := store[newToken := child];
          if f.mark then Outcome(Failure(DatabaseError), stored)
          else
            Outcome(if f.session then Failure(DatabaseError) else Success(newToken),
                    if f.markMisses then stored else MarkUsed(stored, prior.token))
  }

  class RefreshTokenService {
    var tokens: Store

    ghost predicate Valid()
      reads this
    {
      Forest(tokens)
    }

    constructor ()
      ensures Valid() && tokens == map[]
    {
      tokens := map[];
    }

    method CreateInitialTokens(user: string, device: string, token: string, access: string, now: int, f: Faults)
      returns (r: Result<string, AuthError>)
      requires Valid() && Unseen(tokens, token)
      modifies this
      ensures Valid() && Outcome(r, tokens) == Create(old(tokens), user, device, token, access, now, f)
    {
      if f.access || f.store {
        return Failure(DatabaseError);
      }
      tokens := tokens[token := Token(token, user, device, access, now, now + LIFETIME, false, false, 0, None)];
      if f.session {
        return Failure(DatabaseError);
      }
      return Success(token);
    }

    method RefreshTokens(token: string, newToken: string, access: string, checkedAt: int, now: int, f: Faults)
      returns (r: Result<string, AuthError>)
      requires Valid() && Unseen(tokens, newToken)
      modifies this
      ensures Valid() && Outcome(r, tokens) == Refresh(old(tokens), token, newToken, access, checkedAt, now, f)
    {
      hide RevokeFromRoot, Root, Forest;
      RefreshKeepsForest(tokens, token, newToken, access, checkedAt, now, f);
      if f.validate {
        return Failure(DatabaseError);
      }
      var found := Validate(tokens, token, checkedAt);
      if found.None? {
        return Failure(UnknownToken);
      }
      var prior := found.value;
      if prior.rotationCount >= MAX_ROTATION_COUNT {
        var revoked := RevokeRefreshToken(token, f);
        return Failure(if revoked.Failure? then revoked.error else SessionExpired);
      }
      if f.access || f.store {
        return Failure(DatabaseError);
      }
      tokens := tokens[newToken := Token(newToken, prior.user, prior.device, access, now, now + LIFETIME, false, false,
                                      prior.rotationCount + 1, Some(prior.token))];
      if f.mark {
        return Failure(DatabaseError);
      }
      if !f.markMisses {
        tokens := MarkUsed(tokens, prior.token);
      }
      if f.session {
        return Failure(DatabaseError);
      }
      return Success(newToken);
    }

    method RevokeRefreshToken(token: string, f: Faults) returns (r: Result<(), AuthError>)
      requires Valid()
      modifies this
      ensures Valid() && Outcome(r, tokens) == Revoke(old(tokens), token, f)
    {
      hide Root;
      if f.get {
        return Failure(DatabaseError);
      }
      if token !in tokens {
        return Failure(UnknownToken);
      }
      var steps;
      r, steps := RevokeTokenChain(tokens[token], f);
    }

    /** `revoke_token_chain`: the walk ends within `rotation_count` steps. */
    method RevokeTokenChain(token: Token, f: Faults) returns (r: Result<(), AuthError>, steps: nat)
      requires Valid() && token.token in tokens && tokens[token.token] == token
      modifies this
      ensures Valid() && steps <= token.rotationCount
      ensures r == if f.revoke then Failure(DatabaseError) else Success(())
      ensures tokens ==
              if f.revoke then old(tokens)
              else RevokeFromRoot(old(tokens), WalkEnd(old(tokens), token.token, f.walk))
    {
      hide Root, Forest, RevokeFromRoot, RevokeWhere;
      var current := token;
      steps := 0;
      ForestAt(tokens, token.token);
      while current.parent.Some?
        invariant current.token in tokens && tokens[current.token] == current && tokens == old(tokens)
        invariant steps + current.rotationCount == token.rotationCount
        invariant f.walk.Some? ==> steps <= f.walk.value
        invariant WalkEnd(tokens, token.token, f.walk) ==
                  WalkEnd(tokens, current.token, if f.walk.Some? then Some(f.walk.value - steps) else None)
        decreases current.rotationCount
      {
        var parent := current.parent.value;
        if f.walk == Some(steps) || parent !in tokens {
          break;
        }
        ForestAt(tokens, current.token);
        ForestAt(tokens, parent);
        current := tokens[parent];
        steps := steps + 1;
      }
      ForestAt(tokens, current.token);
      if f.revoke {
        return Failure(DatabaseError), steps;
      }
      RevocationKeepsForest(tokens, current.token);
      tokens := RevokeFromRoot(tokens, current.token);
      return Success(()), steps;
    }
  }

  // ---------- runs ----------

  datatype Op =
    | CreateOp(user: string, device: string, newToken: string, access: string, now: int, faults: Faults)
    | RefreshOp(token: string, newToken: string, access: string, checkedAt: int, now: int, faults: Faults)
    | RevokeOp(token: string, faults: Faults)
    | RevokeUserOp(user: string)
    | RevokeDeviceOp(user: string, device: string)
    | CleanupOp(now: int)

  ghost predicate Enabled(store: Store, op: Op) {
    match op
    case CreateOp(_, _, newToken, _, _, _) => Unseen(store, newToken)
    case RefreshOp(_, newToken, _, _, _, _) => Unseen(store, newToken)
    case _ => true
  }

  function Apply(store: Store, op: Op): Store
    requires Forest(store)
  {
    match op
    case CreateOp(user, device, newToken, access, now, f) => Create(store, user, device, newToken, access, now, f).store
    case RefreshOp(token, newToken, access, checkedAt, now, f) =>
      Refresh(store, token, newToken, access, checkedAt, now, f).store
    case RevokeOp(token, f) => Revoke(store, token, f).store
    case RevokeUserOp(user) => RevokeWhere(store, (t: Token) => t.user == user)
    case RevokeDeviceOp(user, device) => RevokeWhere(store, (t: Token) => t.user == user && t.device == device)
    case CleanupOp(now) => DeleteExpired(store, now)
  }

  /** The stores a run visits; `Apply` says what an operation does to a forest, where the walk over parents ends. */
  ghost predicate IsRun(run: seq<Store>, ops: seq<Op>) {
    && |run| == |ops| + 1 && run[0] == map[]
    && forall i :: 0 <= i < |ops| ==>
         Enabled(run[i], ops[i]) && (Forest(run[i]) ==> run[i + 1] == Apply(run[i], ops[i]))
  }

  /** Whatever fails midway, an operation leaves a forest. */
  lemma ApplyKeepsForest(store: Store, op: Op)
    requires Forest(store) && Enabled(store, op)
    ensures Forest(Apply(store, op))
  {
    hide Root, WalkEnd, Forest;
    match op
    case CreateOp(user, device, newToken, access, now, f) =>
      ExtendingKeepsForest(store, Token(newToken, user, device, access, now, now + LIFETIME, false, false, 0, None));
    case RefreshOp(token, newToken, access, checkedAt, now, f) =>
      RefreshKeepsForest(store, token, newToken, access, checkedAt, now, f);
    case _ =>
      MarkingKeepsForest(store, Apply(store, op));
  }

  lemma RevokeKeepsForest(store: Store, token: string, f: Faults)
    requires Forest(store)
    ensures Forest(Revoke(store, token, f).store)
  {
    hide Root, WalkEnd, Forest, RevokeFromRoot;
    if token in store {
      RevocationKeepsForest(store, WalkEnd(store, token, f.walk));
    }
  }

  lemma RefreshKeepsForest(store: Store, token: string, newToken: string, access: string, checkedAt: int, now: int,
                           f: Faults)
    requires Forest(store) && Unseen(store, newToken)
    ensures Forest(Refresh(store, token, newToken, access, checkedAt, now, f).store)
  {
    hide Root, WalkEnd, Forest, RevokeWhere;
    var next := Refresh(store, token, newToken, access, checkedAt, now, f).store;
    if newToken in next {
      var child := next[newToken];
      ForestAt(store, token);
      ExtendingKeepsForest(store, child);
      MarkingKeepsForest(store[newToken := child], next);
    } else if next != store {
      ForestAt(store, token);
      RevokeKeepsForest(store, token, f);
    }
  }

  // ---------- families ----------

  /** Every stored parent was used up by its only child. */
  ghost predicate Linear(store: Store) {
    && (forall k :: k in store && HasParent(store, k) ==> store[store[k].parent.value].used)
    && (forall a, b :: a in store && b in store && store[a].parent.Some? && store[a].parent == store[b].parent ==>
          a == b)
  }

  predicate NoFaults(op: Op) {
    match op
    case CreateOp(_, _, _, _, _, f) => f == NO_FAULTS
    case RefreshOp(_, _, _, _, _, f) => f == NO_FAULTS
    case RevokeOp(_, f) => f == NO_FAULTS
    case _ => true
  }

  lemma MarkingKeepsLinear(store: Store, next: Store)
    requires Linear(store) && OnlyMarked(store, next)
    ensures Linear(next)
  {
  }

  /** Without failures, operations keep every chain linear. */
  lemma ApplyKeepsLinear(store: Store, op: Op)
    requires Forest(store) && Linear(store) && Enabled(store, op) && NoFaults(op)
    ensures Linear(Apply(store, op))
  {
    hide Root, WalkEnd, Linear;
    match op
    case CreateOp(user, device, newToken, access, now, f) =>
      RootKeepsLinear(store, Apply(store, op)[newToken]);
    case RefreshOp(token, newToken, access, checkedAt, now, f) =>
      RefreshKeepsLinear(store, token, newToken, access, checkedAt, now);
    case _ =>
      MarkingKeepsLinear(store, Apply(store, op));
  }

  lemma RootKeepsLinear(store: Store, t: Token)
    requires Linear(store) && Unseen(store, t.token) && t.parent.None?
    ensures Linear(store[t.token := t])
  {
  }

  lemma RefreshKeepsLinear(store: Store, token: string, newToken: string, access: string, checkedAt: int, now: int)
    requires Forest(store) && Linear(store) && Unseen(store, newToken)
    ensures Linear(Refresh(store, token, newToken, access, checkedAt, now, NO_FAULTS).store)
  {
    hide Root, WalkEnd;
    var next := Refresh(store, token, newToken, access, checkedAt, now, NO_FAULTS).store;
    if newToken in next {
      assert next[newToken].parent == Some(token) && Live(store[token]) && next[token].used;
      forall k | k in store
        ensures store[k].parent != Some(token)
      {
        assert HasParent(store, k) ==> store[store[k].parent.value].used;
      }
      forall k | k in next && HasParent(next, k)
        ensures next[next[k].parent.value].used
      {
        assert k != newToken ==> HasParent(store, k);
      }
    } else {
      MarkingKeepsLinear(store, next);
    }
  }

  lemma {:induction false} ChainOrder(store: Store, a: string, b: string)
    requires Forest(store) && Linear(store) && a in store && b in store
    requires Root(store, a) == Root(store, b) && store[a].rotationCount <= store[b].rotationCount
    ensures a == b || store[a].used
    decreases store[b].rotationCount
  {
    if HasParent(store, b) {
      var pb := store[b].parent.value;
      if store[a].rotationCount < store[b].rotationCount {
        ChainOrder(store, a, pb);
      } else if HasParent(store, a) {
        var pa := store[a].parent.value;
        SameCountSameToken(store, pa, pb);
      }
    }
  }

  /** A family has one token for each rotation count. */
  lemma {:induction false} SameCountSameToken(store: Store, a: string, b: string)
    requires Forest(store) && Linear(store) && a in store && b in store
    requires Root(store, a) == Root(store, b) && store[a].rotationCount == store[b].rotationCount
    ensures a == b
    decreases store[b].rotationCount
  {
    if HasParent(store, a) && HasParent(store, b) {
      SameCountSameToken(store, store[a].parent.value, store[b].parent.value);
    }
  }

  /** At most one token of a family is neither used nor revoked. */
  lemma AtMostOneLive(store: Store, a: string, b: string)
    requires Forest(store) && Linear(store) && a in store && b in store
    requires Root(store, a) == Root(store, b) && Live(store[a]) && Live(store[b])
    ensures a == b
  {
    if store[a].rotationCount <= store[b].rotationCount {
      ChainOrder(store, a, b);
    } else {
      ChainOrder(store, b, a);
    }
  }

  /** Every store of a run, whatever failed in it, is a forest. */
  lemma {:induction false} RunsAreForests(run: seq<Store>, ops: seq<Op>, i: nat)
    requires IsRun(run, ops) && i < |run|
    ensures Forest(run[i])
  {
    if i > 0 {
      RunsAreForests(run, ops, i - 1);
      ApplyKeepsForest(run[i - 1], ops[i - 1]);
    }
  }

  lemma {:induction false} FaultlessRunsAreLinear(run: seq<Store>, ops: seq<Op>, i: nat)
    requires IsRun(run, ops) && i < |run| && forall j :: 0 <= j < |ops| ==> NoFaults(ops[j])
    ensures Forest(run[i]) && Linear(run[i])
  {
    RunsAreForests(run, ops, i);
    if i > 0 {
      FaultlessRunsAreLinear(run, ops, i - 1);
      ApplyKeepsLinear(run[i - 1], ops[i - 1]);
    }
  }

  /**
   In every store of a run without failures, cleanups or not, the tokens with the same oldest stored ancestor hold at
   most one live one.
   */
  lemma OneLiveTokenPerFamily(run: seq<Store>, ops: seq<Op>, i: nat)
    requires IsRun(run, ops) && i < |run| && forall j :: 0 <= j < |ops| ==> NoFaults(ops[j])
    ensures Forest(run[i])
    ensures forall a, b ::
      a in run[i] && b in run[i] && Root(run[i], a) == Root(run[i], b) && Live(run[i][a]) && Live(run[i][b]) ==> a == b
  {
    hide Root;
    FaultlessRunsAreLinear(run, ops, i);
    forall a, b | a in run[i] && b in run[i] && Root(run[i], a) == Root(run[i], b) && Live(run[i][a]) && Live(run[i][b])
      ensures a == b
    {
      AtMostOneLive(run[i], a, b);
    }
  }

  // ---------- logins ----------

  predicate Draws(op: Op) {
    op.CreateOp? || op.RefreshOp?
  }

  /** Token strings are new UUIDs, also after a cleanup has removed the old ones. */
  ghost predicate NeverRepeats(ops: seq<Op>) {
    forall i, j :: 0 <= i < j < |ops| && Draws(ops[i]) && Draws(ops[j]) ==> ops[i].newToken != ops[j].newToken
  }

  /** A login's first token stands for it; a successor belongs to the login of the token it replaces. */
  ghost function LoginsAfter(logins: map<string, string>, op: Op): map<string, string> {
    match op
    case CreateOp(_, _, newToken, _, _, _) => logins[newToken := newToken]
    case RefreshOp(token, newToken, _, _, _, _) =>
      if token in logins then logins[newToken := logins[token]] else logins
    case _ => logins
  }

  /** The login of every token drawn, kept when a cleanup removes its record. */
  ghost function Logins(ops: seq<Op>): map<string, string> {
    if ops == [] then map[] else LoginsAfter(Logins(ops[..|ops| - 1]), ops[|ops| - 1])
  }

  /** A first token is its own login; another one has the login of its parent, stored or not. */
  ghost predicate HasLogin(t: Token, logins: map<string, string>) {
    && t.token in logins
    && match t.parent
       case None => logins[t.token] == t.token
       case Some(p) => p in logins && logins[p] == logins[t.token]
  }

  ghost predicate Tracked(store: Store, logins: map<string, string>) {
    && (forall k :: k in store ==> store[k].token == k && HasLogin(store[k], logins))
    && (forall k :: k in logins ==> logins[k] in logins)
  }

  /** All tokens of the login have been used. */
  ghost predicate AllUsed(store: Store, logins: map<string, string>, login: string) {
    forall k :: k in store && k in logins && logins[k] == login ==> store[k].used
  }

  /** All tokens of each login but one have been used. */
  ghost predicate Spent(store: Store, logins: map<string, string>) {
    forall a, b ::
      a in store && b in store && a in logins && b in logins && logins[a] == logins[b] ==>
        a == b || store[a].used || store[b].used
  }

  lemma {:induction false} LoginsWereDrawn(ops: seq<Op>, k: string)
    requires k in Logins(ops)
    ensures exists j :: 0 <= j < |ops| && Draws(ops[j]) && ops[j].newToken == k
  {
    var front, last := ops[..|ops| - 1], ops[|ops| - 1];
    if Draws(last) && last.newToken == k {
      assert ops[|ops| - 1].newToken == k;
    } else {
      LoginsWereDrawn(front, k);
      var j :| 0 <= j < |front| && Draws(front[j]) && front[j].newToken == k;
      assert ops[j] == front[j];
    }
  }

  lemma DrawingKeepsLogins(store: Store, logins: map<string, string>, op: Op)
    requires Tracked(store, logins) && (Draws(op) ==> op.newToken !in logins)
    ensures Tracked(store, LoginsAfter(logins, op))
    ensures Spent(store, logins) ==> Spent(store, LoginsAfter(logins, op))
  {
    var next := LoginsAfter(logins, op);
    assert forall k :: k in logins ==> k in next && next[k] == logins[k];
    forall k | k in store
      ensures HasLogin(store[k], next)
    {
      assert HasLogin(store[k], logins);
    }
  }

  lemma MarkingKeepsLogins(store: Store, next: Store, logins: map<string, string>)
    requires Tracked(store, logins) && OnlyMarked(store, next)
    ensures Tracked(next, logins)
    ensures Spent(store, logins) ==> Spent(next, logins)
  {
    forall k | k in next
      ensures HasLogin(next[k], logins)
    {
      assert HasLogin(store[k], logins);
    }
  }

  lemma AddingKeepsLogins(store: Store, logins: map<string, string>, t: Token)
    requires Tracked(store, logins) && HasLogin(t, logins)
    ensures Tracked(store[t.token := t], logins)
    ensures Spent(store, logins) && AllUsed(store, logins, logins[t.token]) ==> Spent(store[t.token := t], logins)
  {
    hide HasLogin;
    assert t.token in logins by { LoginKnown(t, logins); }
  }

  lemma LoginKnown(t: Token, logins: map<string, string>)
    requires HasLogin(t, logins)
    ensures t.token in logins
  {
  }

  lemma CreateKeepsLogins(store: Store, logins: map<string, string>, op: Op)
    requires Forest(store) && Tracked(store, logins) && op.CreateOp? && op.newToken !in logins
    ensures Tracked(Apply(store, op), LoginsAfter(logins, op))
    ensures Spent(store, logins) ==> Spent(Apply(store, op), LoginsAfter(logins, op))
  {
    hide Forest, Tracked, Spent;
    DrawingKeepsLogins(store, logins, op);
    var next := Apply(store, op);
    if next != store {
      assert next[op.newToken].token == op.newToken;
      NewLoginIsEmpty(store, logins, op);
      AddingKeepsLogins(store, LoginsAfter(logins, op), next[op.newToken]);
    }
  }

  lemma NewLoginIsEmpty(store: Store, logins: map<string, string>, op: Op)
    requires Tracked(store, logins) && op.CreateOp? && op.newToken !in logins
    ensures AllUsed(store, LoginsAfter(logins, op), op.newToken)
  {
    forall k | k in store
      ensures k in logins && logins[k] in logins
    {
      LoginKnown(store[k], logins);
    }
  }

  /** The only unused token of a login is refreshed, and so none is left beside its successor. */
  lemma MarkingSpendsLogin(store: Store, logins: map<string, string>, op: Op)
    requires Tracked(store, logins) && Spent(store, logins) && op.RefreshOp? && op.newToken !in logins
    requires op.token in store && !store[op.token].used && op.token in logins
    ensures AllUsed(MarkUsed(store, op.token), LoginsAfter(logins, op), logins[op.token])
  {
    forall k | k in store
      ensures k in logins
    {
      LoginKnown(store[k], logins);
    }
  }

  /** A refresh that stores a successor marks the old token, unless that call fails, and adds the successor. */
  lemma RefreshMarksThenAdds(store: Store, op: Op) returns (marked: Store, child: Token)
    requires Forest(store) && op.RefreshOp? && op.newToken !in store && op.newToken in Apply(store, op)
    ensures child.token == op.newToken && child.parent == Some(op.token)
    ensures Apply(store, op) == marked[op.newToken := child]
    ensures op.token in store && !store[op.token].used && OnlyMarked(store, marked)
    ensures NoFaults(op) ==> marked == MarkUsed(store, op.token)
  {
    hide Root, WalkEnd, Forest;
    ForestAt(store, op.token);
    child := Apply(store, op)[op.newToken];
    marked := if op.faults.mark || op.faults.markMisses then store else MarkUsed(store, op.token);
  }

  lemma RefreshKeepsLogins(store: Store, logins: map<string, string>, op: Op)
    requires Forest(store) && Tracked(store, logins) && op.RefreshOp? && op.newToken !in logins
    ensures Tracked(Apply(store, op), LoginsAfter(logins, op))
    ensures Spent(store, logins) && NoFaults(op) ==> Spent(Apply(store, op), LoginsAfter(logins, op))
  {
    hide Forest, Tracked, Spent, AllUsed, Apply, OnlyMarked, MarkUsed;
    var next, logins' := Apply(store, op), LoginsAfter(logins, op);
    DrawingKeepsLogins(store, logins, op);
    StoredIsKnown(store, logins, op.newToken);
    if op.newToken in next {
      var marked, child := RefreshMarksThenAdds(store, op);
      StoredIsKnown(store, logins, op.token);
      MarkingKeepsLogins(store, marked, logins');
      AddingKeepsLogins(marked, logins', child);
      if Spent(store, logins) && NoFaults(op) {
        MarkingSpendsLogin(store, logins, op);
      }
    } else {
      RefusedRefreshMarks(store, op);
      MarkingKeepsLogins(store, next, logins');
    }
  }

  lemma StoredIsKnown(store: Store, logins: map<string, string>, k: string)
    requires Tracked(store, logins)
    ensures k in store ==> k in logins
  {
  }

  lemma RefusedRefreshMarks(store: Store, op: Op)
    requires Forest(store) && op.RefreshOp? && op.newToken !in Apply(store, op)
    ensures OnlyMarked(store, Apply(store, op))
  {
    hide Root, WalkEnd, Forest;
    if op.token in store {
      ForestAt(store, op.token);
    }
  }

  lemma {:induction false} RunsTrackLogins(run: seq<Store>, ops: seq<Op>, i: nat)
    requires IsRun(run, ops) && NeverRepeats(ops) && i < |run|
    ensures Tracked(run[i], Logins(ops[..i]))
    ensures (forall j :: 0 <= j < |ops| ==> NoFaults(ops[j])) ==> Spent(run[i], Logins(ops[..i]))
  {
    hide Forest, Tracked, Spent, Apply;
    if i == 0 {
      EmptyTracksLogins();
    } else {
      RunsTrackLogins(run, ops, i - 1);
      RunsAreForests(run, ops, i - 1);
      var store, logins, op := run[i - 1], Logins(ops[..i - 1]), ops[i - 1];
      assert ops[..i][..i - 1] == ops[..i - 1];
      if Draws(op) && op.newToken in logins {
        LoginsWereDrawn(ops[..i - 1], op.newToken);
      }
      if op.CreateOp? {
        CreateKeepsLogins(store, logins, op);
      } else if op.RefreshOp? {
        RefreshKeepsLogins(store, logins, op);
      } else {
        OthersOnlyMark(store, op);
        MarkingKeepsLogins(store, run[i], logins);
      }
    }
  }

  lemma EmptyTracksLogins()
    ensures Tracked(map[], map[]) && Spent(map[], map[])
  {
  }

  lemma OthersOnlyMark(store: Store, op: Op)
    requires Forest(store) && !Draws(op)
    ensures OnlyMarked(store, Apply(store, op))
  {
    hide Root, WalkEnd, Forest;
  }

  lemma SpentAt(store: Store, logins: map<string, string>, a: string, b: string)
    requires Tracked(store, logins) && Spent(store, logins) && a in store && b in store && logins[a] == logins[b]
    requires !store[a].used && !store[b].used
    ensures a == b
  {
  }

  lemma {:induction false} FamilyHasOneLogin(store: Store, logins: map<string, string>, k: string)
    requires Forest(store) && Tracked(store, logins) && k in store
    ensures logins[Root(store, k)] == logins[k]
    decreases store[k].rotationCount
  {
    if HasParent(store, k) {
      FamilyHasOneLogin(store, logins, store[k].parent.value);
    }
  }

  /**
   In every store of a run without failures a login has at most one live token, however many of its records cleanups
   have removed in between; and a family is always part of one login.
   */
  lemma OneLiveTokenPerLogin(run: seq<Store>, ops: seq<Op>, i: nat)
    requires IsRun(run, ops) && NeverRepeats(ops) && i < |run| && forall j :: 0 <= j < |ops| ==> NoFaults(ops[j])
    ensures Forest(run[i]) && Tracked(run[i], Logins(ops[..i]))
    ensures var logins := Logins(ops[..i]);
            && (forall k :: k in run[i] ==> logins[Root(run[i], k)] == logins[k])
            && (forall a, b ::
                  a in run[i] && b in run[i] && logins[a] == logins[b] && Live(run[i][a]) && Live(run[i][b]) ==> a == b)
  {
    hide Root, Logins, Forest, Spent;
    RunsAreForests(run, ops, i);
    RunsTrackLogins(run, ops, i);
    var store, logins := run[i], Logins(ops[..i]);
    forall k | k in store
      ensures logins[Root(store, k)] == logins[k]
    {
      FamilyHasOneLogin(store, logins, k);
    }
    forall a, b | a in store && b in store && logins[a] == logins[b] && Live(store[a]) && Live(store[b])
      ensures a == b
    {
      SpentAt(store, logins, a, b);
    }
  }

  // ---------- families without cleanup ----------

  /** No parent was ever removed. */
  ghost predicate Rooted(store: Store) {
    forall k :: k in store && store[k].parent.Some? ==> HasParent(store, k)
  }

  /** The walk from any token then ends at a token of rotation count zero. */
  lemma RootIsOriginal(store: Store, k: string)
    requires Forest(store) && Rooted(store) && k in store
    ensures store[Root(store, k)].rotationCount == 0
  {
  }

  /** Nothing but new records and marks, and no new record under a missing parent's name. */
  ghost predicate Grows(store: Store, next: Store) {
    && (forall k :: k in store ==> k in next && next[k].parent == store[k].parent)
    && (forall k :: k in next && k !in store ==> Unseen(store, k))
  }

  lemma {:induction false} GrowthKeepsRoot(store: Store, next: Store, k: string)
    requires Forest(store) && Forest(next) && Grows(store, next) && k in store
    ensures Root(next, k) == Root(store, k)
    decreases store[k].rotationCount
  {
    assert HasParent(next, k) <==> HasParent(store, k);
    if HasParent(store, k) {
      GrowthKeepsRoot(store, next, store[k].parent.value);
    }
  }

  /**
   Outside cleanup, a token's family never changes, whatever fails, and a refreshed token's successor joins its
   family.
   */
  lemma FamiliesAreStable(store: Store, op: Op)
    requires Forest(store) && Rooted(store) && Enabled(store, op) && !op.CleanupOp?
    ensures Forest(Apply(store, op)) && Rooted(Apply(store, op))
    ensures forall k :: k in store ==> k in Apply(store, op) && Root(Apply(store, op), k) == Root(store, k)
    ensures op.RefreshOp? && op.newToken in Apply(store, op) ==>
              op.token in store && Root(Apply(store, op), op.newToken) == Root(store, op.token)
  {
    hide Root, WalkEnd;
    ApplyKeepsForest(store, op);
    var next := Apply(store, op);
    OperationsGrow(store, op);
    forall k | k in store
      ensures k in next && Root(next, k) == Root(store, k)
    {
      GrowthKeepsRoot(store, next, k);
    }
    if op.RefreshOp? && op.newToken in next {
      RefreshedParent(store, op);
      RootOfChild(next, op.newToken);
    }
  }

  /** Over a run without cleanup, whatever fails, every token keeps its family and its root is an original login. */
  lemma {:induction false} FamiliesNeverChange(run: seq<Store>, ops: seq<Op>, i: nat, j: nat)
    requires IsRun(run, ops) && i <= j < |run| && forall n :: 0 <= n < |ops| ==> !ops[n].CleanupOp?
    ensures Forest(run[i]) && Forest(run[j])
    ensures forall k :: k in run[i] ==> k in run[j] && Root(run[j], k) == Root(run[i], k)
    ensures forall k :: k in run[j] ==> run[j][Root(run[j], k)].rotationCount == 0
    decreases j
  {
    hide Root, Forest, Rooted, Apply;
    RunsAreForests(run, ops, i);
    RunsAreForests(run, ops, j);
    RunsAreRooted(run, ops, j);
    forall k | k in run[j]
      ensures run[j][Root(run[j], k)].rotationCount == 0
    {
      RootIsOriginal(run[j], k);
    }
    if i < j {
      FamiliesNeverChange(run, ops, i, j - 1);
      RunsAreRooted(run, ops, j - 1);
      FamiliesAreStable(run[j - 1], ops[j - 1]);
    }
  }

  lemma {:induction false} RunsAreRooted(run: seq<Store>, ops: seq<Op>, i: nat)
    requires IsRun(run, ops) && i < |run| && forall n :: 0 <= n < |ops| ==> !ops[n].CleanupOp?
    ensures Forest(run[i]) && Rooted(run[i])
  {
    RunsAreForests(run, ops, i);
    if i > 0 {
      RunsAreRooted(run, ops, i - 1);
      OperationsGrow(run[i - 1], ops[i - 1]);
    }
  }

  lemma RootOfChild(store: Store, k: string)
    requires Forest(store) && k in store && HasParent(store, k)
    ensures Root(store, k) == Root(store, store[k].parent.value)
  {
  }

  lemma RefreshedParent(store: Store, op: Op)
    requires Forest(store) && Enabled(store, op) && op.RefreshOp? && op.newToken in Apply(store, op)
    ensures op.token in store && Apply(store, op)[op.newToken].parent == Some(op.token)
    ensures HasParent(Apply(store, op), op.newToken)
  {
  }

  lemma OperationsGrow(store: Store, op: Op)
    requires Forest(store) && Rooted(store) && Enabled(store, op) && !op.CleanupOp?
    ensures Grows(store, Apply(store, op)) && Rooted(Apply(store, op))
  {
    hide Root, WalkEnd, Forest;
    match op
    case CreateOp(_, _, _, _, _, _) =>
    case RefreshOp(token, newToken, access, checkedAt, now, f) =>
      RefreshGrows(store, token, newToken, access, checkedAt, now, f);
    case _ =>
  }

  lemma RefreshGrows(store: Store, token: string, newToken: string, access: string, checkedAt: int, now: int, f: Faults)
    requires Forest(store) && Rooted(store) && Unseen(store, newToken)
    ensures Grows(store, Refresh(store, token, newToken, access, checkedAt, now, f).store)
    ensures Rooted(Refresh(store, token, newToken, access, checkedAt, now, f).store)
  {
    hide Root, WalkEnd, Forest;
    if token in store {
      ForestAt(store, token);
    }
  }

  // ---------- what revocation reaches ----------

  /** No token of `k`'s family can be used any more. */
  ghost predicate FamilyDead(store: Store, next: Store, k: string)
    requires Forest(store) && k in store && next.Keys == store.Keys
  {
    forall m :: m in store && Root(store, m) == Root(store, k) ==> !Live(next[m])
  }

  lemma DirectChildren(store: Store, m: string)
    requires Forest(store) && m in store
    ensures store[m].rotationCount <= store[Root(store, m)].rotationCount + 1 <==>
            m == Root(store, m) || store[m].parent == Some(Root(store, m))
  {
  }

  /**
   Revoking any token of a family leaves none of it live exactly when every live member is the root or one rotation
   after it: the repository's query reaches no further.
   */
  lemma RevokeReach(store: Store, k: string)
    requires Forest(store) && k in store
    ensures FamilyDead(store, Revoke(store, k, NO_FAULTS).store, k) <==>
            forall m :: m in store && Root(store, m) == Root(store, k) && Live(store[m]) ==>
              store[m].rotationCount <= store[Root(store, k)].rotationCount + 1
  {
    hide Root, Forest, Revoke;
    RevokeKeys(store, k);
    forall m | m in store && Root(store, m) == Root(store, k)
      ensures Live(Revoke(store, k, NO_FAULTS).store[m]) <==>
              Live(store[m]) && store[m].rotationCount > store[Root(store, k)].rotationCount + 1
    {
      RevokeExact(store, k, m);
    }
  }

  lemma RevokeKeys(store: Store, k: string)
    requires Forest(store) && k in store
    ensures Revoke(store, k, NO_FAULTS).store.Keys == store.Keys
  {
    hide Root, Forest;
  }

  lemma ReachedIsFamily(store: Store, root: string, m: string)
    requires Forest(store) && root in store && m in store && (m == root || store[m].parent == Some(root))
    ensures Root(store, m) == Root(store, root)
  {
    hide Forest;
    ForestAt(store, m);
  }

  /** Whatever fails, a revocation leaves every other family as it was. */
  lemma RevokeSparesOthers(store: Store, k: string, m: string, f: Faults)
    requires Forest(store) && k in store && m in store && Root(store, m) != Root(store, k)
    ensures m in Revoke(store, k, f).store && Revoke(store, k, f).store[m] == store[m]
  {
    hide Root, WalkEnd;
    var end := WalkEnd(store, k, f.walk);
    if m == end || store[m].parent == Some(end) {
      ReachedIsFamily(store, end, m);
    }
  }

  /**
   The exact effect of a revocation on every record: a member of the family at most one rotation after the root is
   marked revoked, with no other field changed, and nothing happens to any other record of the store.
   */
  lemma RevokeExact(store: Store, k: string, m: string)
    requires Forest(store) && k in store && m in store
    ensures var next := Revoke(store, k, NO_FAULTS).store;
            && next.Keys == store.Keys
            && next[m] == if Root(store, m) == Root(store, k)
                             && store[m].rotationCount <= store[Root(store, k)].rotationCount + 1
                          then store[m].(revoked := true) else store[m]
  {
    hide Root;
    if Root(store, m) != Root(store, k) {
      RevokeSparesOthers(store, k, m, NO_FAULTS);
    } else {
      DirectChildren(store, m);
      ForestAt(store, m);
    }
  }

  ghost predicate SameLogin(logins: map<string, string>, a: string, b: string) {
    a in logins && b in logins && logins[a] == logins[b]
  }

  /** At every step of every run, whatever fails, revoking a token changes no token of another login. */
  lemma RevocationStaysInLogin(run: seq<Store>, ops: seq<Op>, i: nat, m: string)
    requires IsRun(run, ops) && NeverRepeats(ops) && i < |ops| && ops[i].RevokeOp? && m in run[i]
    requires !SameLogin(Logins(ops[..i]), ops[i].token, m)
    ensures m in run[i + 1] && run[i + 1][m] == run[i][m]
  {
    hide Root, Logins, Forest, Revoke;
    RunsAreForests(run, ops, i);
    RunsTrackLogins(run, ops, i);
    var store, logins, k := run[i], Logins(ops[..i]), ops[i].token;
    if k in store {
      FamilyHasOneLogin(store, logins, k);
      FamilyHasOneLogin(store, logins, m);
      RevokeSparesOthers(store, k, m, ops[i].faults);
    } else {
      UnknownRevokesNothing(store, k, ops[i].faults);
    }
  }

  lemma UnknownRevokesNothing(store: Store, k: string, f: Faults)
    requires Forest(store) && k !in store
    ensures Revoke(store, k, f).store == store
  {
  }

  /** Past that, the live token goes on being refreshed: `revoke_refresh_token` does not stop it. */
  lemma RevokedFamilyCanRotate(store: Store, k: string, m: string, newToken: string, access: string, checkedAt: int,
                               now: int)
    requires Forest(store) && k in store && m in store && Root(store, m) == Root(store, k) && Live(store[m])
    requires store[Root(store, k)].rotationCount + 1 < store[m].rotationCount < MAX_ROTATION_COUNT
    requires checkedAt <= store[m].expiresAt
    ensures Forest(Revoke(store, k, NO_FAULTS).store)
    ensures Refresh(Revoke(store, k, NO_FAULTS).store, m, newToken, access, checkedAt, now, NO_FAULTS).result ==
            Success(newToken)
  {
    hide Root, WalkEnd, Forest;
    RevokeKeepsForest(store, k, NO_FAULTS);
    DirectChildren(store, m);
    ForestAt(store, m);
  }

  /** A walk whose lookup fails after some steps stops that many rotations back, or at the root before that. */
  lemma {:induction false} WalkStopsAt(store: Store, k: string, steps: nat)
    requires Forest(store) && k in store
    ensures store[WalkEnd(store, k, Some(steps))].rotationCount ==
            var back, root := store[k].rotationCount - steps, store[Root(store, k)].rotationCount;
            if back > root then back else root
    decreases steps
  {
    ForestAt(store, k);
    if steps > 0 && HasParent(store, k) {
      WalkStopsAt(store, store[k].parent.value, steps - 1);
    }
  }

  /** What a revocation answers: success exactly when the token is known and neither lookup nor update fails. */
  lemma RevokeAnswers(store: Store, k: string, f: Faults)
    requires Forest(store)
    ensures Revoke(store, k, f).result ==
            if !f.get && k in store && !f.revoke then Success(())
            else Failure(if !f.get && k !in store then UnknownToken else DatabaseError)
    ensures Revoke(store, k, f).result.Failure? ==> Revoke(store, k, f).store == store
  {
    hide Forest, Root, WalkEnd;
  }

  /** A refresh that fails before it stores the successor changes nothing. */
  lemma EarlyFailureChangesNothing(store: Store, token: string, newToken: string, access: string, checkedAt: int,
                                   now: int, f: Faults)
    requires Forest(store) && (token in store ==> store[token].rotationCount < MAX_ROTATION_COUNT)
    requires f.validate || f.access || f.store
    ensures var r := Refresh(store, token, newToken, access, checkedAt, now, f);
            && r.store == store
            && r.result == Failure(if f.validate || Validate(store, token, checkedAt).Some? then DatabaseError
                                   else UnknownToken)
  {
    hide Forest;
  }

  /**
   A refresh that fails only to create the session has rotated all the same: the caller gets an error, the old token
   never works again, and the successor it was never told is live.
   */
  lemma LostSuccessor(store: Store, token: string, newToken: string, access: string, checkedAt: int, now: int,
                      later: int)
    requires Forest(store) && Unseen(store, newToken)
    requires Refresh(store, token, newToken, access, checkedAt, now, NO_FAULTS).result.Success?
    ensures var r := Refresh(store, token, newToken, access, checkedAt, now, NO_FAULTS.(session := true));
            && r.result == Failure(DatabaseError)
            && r.store == Refresh(store, token, newToken, access, checkedAt, now, NO_FAULTS).store
            && Validate(r.store, token, later).None? && newToken in r.store && Live(r.store[newToken])
  {
    hide Forest;
    ForestAt(store, token);
  }

  /** The other two revocations mark exactly the records of the user, or of the user's device, and nothing else. */
  lemma BulkRevocationExact(store: Store, user: string, device: string, k: string)
    requires Forest(store) && k in store
    ensures var next := Apply(store, RevokeUserOp(user));
            k in next && next[k] == if store[k].user == user then store[k].(revoked := true) else store[k]
    ensures var next := Apply(store, RevokeDeviceOp(user, device));
            k in next &&
            next[k] == if store[k].user == user && store[k].device == device then store[k].(revoked := true)
                       else store[k]
  {
    hide Forest;
  }

  /** A login's token is the user's and the device's, works for thirty days, and leaves the other tokens alone. */
  lemma LoginWorks(store: Store, user: string, device: string, token: string, access: string, now: int, later: int)
    ensures var r := Create(store, user, device, token, access, now, NO_FAULTS);
            && r.result == Success(token) && r.store.Keys == store.Keys + {token}
            && (Validate(r.store, token, later).Some? <==> later <= now + 30 * 24 * 3600)
            && r.store[token].token == token && r.store[token].user == user && r.store[token].device == device
            && r.store[token].access == access && r.store[token].createdAt == now
            && r.store[token].rotationCount == 0 && r.store[token].parent == None
            && forall k :: k in store && k != token ==> r.store[k] == store[k]
  {
  }

  /** A successor is its parent's user's and device's, one rotation on; of the other records only its parent changes. */
  lemma SuccessorInherits(store: Store, token: string, newToken: string, access: string, checkedAt: int, now: int)
    requires Forest(store) && Unseen(store, newToken)
    requires Refresh(store, token, newToken, access, checkedAt, now, NO_FAULTS).result.Success?
    ensures var next := Refresh(store, token, newToken, access, checkedAt, now, NO_FAULTS).store;
            && next.Keys == store.Keys + {newToken} && token in store
            && next[newToken] == Token(newToken, store[token].user, store[token].device, access, now,
                                       now + 30 * 24 * 3600, false, false, store[token].rotationCount + 1, Some(token))
            && next[token] == store[token].(used := true)
            && forall k :: k in store && k != token ==> next[k] == store[k]
  {
    hide Forest;
    ForestAt(store, token);
  }

  /**
   A cleanup removes exactly the expired records and those used and created more than a week ago, and so no token that
   would validate at its time or later.
   */
  lemma CleanupExact(store: Store, now: int, k: string, later: int)
    ensures var next := DeleteExpired(store, now);
            && (k in next <==>
                && k in store && now <= store[k].expiresAt
                && (store[k].used ==> now - 7 * 24 * 3600 <= store[k].createdAt))
            && (k in next ==> next[k] == store[k])
            && (later >= now ==> Validate(next, k, later) == Validate(store, k, later))
  {
  }

  /**
   The definition read back: without failures a refresh succeeds exactly for a stored, live, unexpired token below the
   rotation limit.
   */
  lemma RefreshSucceedsExactly(store: Store, token: string, newToken: string, access: string, checkedAt: int, now: int)
    requires Forest(store)
    ensures Refresh(store, token, newToken, access, checkedAt, now, NO_FAULTS).result == Success(newToken) <==>
            && token in store && !store[token].used && !store[token].revoked && checkedAt <= store[token].expiresAt
            && store[token].rotationCount < 100
  {
  }

  /**
   A token works once: after a successful refresh it is refused at any time, and its successor is valid for its
   lifetime.
   */
  lemma TokensWorkOnce(store: Store, token: string, newToken: string, access: string, checkedAt: int, now: int,
                       later: int)
    requires Forest(store) && Unseen(store, newToken)
    requires Refresh(store, token, newToken, access, checkedAt, now, NO_FAULTS).result.Success?
    ensures var next := Refresh(store, token, newToken, access, checkedAt, now, NO_FAULTS).store;
            && Validate(next, token, later).None?
            && (Validate(next, newToken, later).Some? <==> later <= now + LIFETIME)
  {
  }

  /** When marking the old token fails, both it and its successor stay live: the single-live rule needs that call. */
  lemma FailedMarkForks(store: Store, token: string, newToken: string, access: string, checkedAt: int, now: int)
    requires Forest(store) && Unseen(store, newToken) && Validate(store, token, checkedAt).Some?
    requires store[token].rotationCount < MAX_ROTATION_COUNT
    ensures var next := Refresh(store, token, newToken, access, checkedAt, now, NO_FAULTS.(mark := true)).store;
            && Forest(next) && token in next && newToken in next && Live(next[token]) && Live(next[newToken])
            && Root(next, newToken) == Root(next, token)
  {
  }

  /**
   When the marking update selects no record, the refresh succeeds and the old token still works: it can be refreshed
   again, and its successor is live beside it.
   */
  lemma MissedMarkForks(store: Store, token: string, newToken: string, access: string, checkedAt: int, now: int)
    requires Forest(store) && Unseen(store, newToken) && Validate(store, token, checkedAt).Some?
    requires store[token].rotationCount < MAX_ROTATION_COUNT
    ensures var r := Refresh(store, token, newToken, access, checkedAt, now, NO_FAULTS.(markMisses := true));
            && r.result == Success(newToken) && Forest(r.store) && token in r.store && newToken in r.store
            && Live(r.store[newToken]) && Root(r.store, newToken) == Root(r.store, token)
            && forall later :: Validate(r.store, token, later) == Validate(store, token, later)
  {
  }

  /** The definition read back: at the rotation limit nothing is created, whatever fails. */
  lemma RotationStopsAtLimit(store: Store, token: string, newToken: string, access: string, checkedAt: int, now: int,
                             f: Faults)
    requires Forest(store) && token in store && store[token].rotationCount >= MAX_ROTATION_COUNT
    ensures Refresh(store, token, newToken, access, checkedAt, now, f).result.Failure?
    ensures Refresh(store, token, newToken, access, checkedAt, now, f).store.Keys == store.Keys
  {
  }

  /**
   A refresh at the rotation limit reports an expired session. It leaves the family dead exactly when every live member
   is at most one rotation after the oldest stored one, and the presented token itself goes on validating exactly when
   it is further on than that.
   */
  lemma LimitLeavesTokenLive(store: Store, token: string, newToken: string, access: string, checkedAt: int, now: int)
    requires Forest(store) && Validate(store, token, checkedAt).Some?
    requires store[token].rotationCount >= MAX_ROTATION_COUNT
    ensures var r := Refresh(store, token, newToken, access, checkedAt, now, NO_FAULTS);
            && r.result == Failure(SessionExpired) && r.store.Keys == store.Keys
            && (FamilyDead(store, r.store, token) <==>
                forall m :: m in store && Root(store, m) == Root(store, token) && Live(store[m]) ==>
                  store[m].rotationCount <= store[Root(store, token)].rotationCount + 1)
            && (Validate(r.store, token, checkedAt).Some? <==>
                store[token].rotationCount > store[Root(store, token)].rotationCount + 1)
  {
    hide Root, Forest;
    ForestAt(store, token);
    RevokeReach(store, token);
    DirectChildren(store, token);
  }

  /** In a run without failures the token at the limit is its family's only live one, so it decides. */
  lemma LimitInFaultlessRuns(run: seq<Store>, ops: seq<Op>, i: nat, token: string, newToken: string, access: string,
                             checkedAt: int, now: int)
    requires IsRun(run, ops) && i < |run| && forall j :: 0 <= j < |ops| ==> NoFaults(ops[j])
    requires Validate(run[i], token, checkedAt).Some? && run[i][token].rotationCount >= MAX_ROTATION_COUNT
    ensures Forest(run[i])
    ensures var r := Refresh(run[i], token, newToken, access, checkedAt, now, NO_FAULTS);
            && r.store.Keys == run[i].Keys
            && (FamilyDead(run[i], r.store, token) <==>
                run[i][token].rotationCount <= run[i][Root(run[i], token)].rotationCount + 1)
  {
    hide Root, Forest, IsRun, Refresh;
    OneLiveTokenPerFamily(run, ops, i);
    LimitLeavesTokenLive(run[i], token, newToken, access, checkedAt, now);
  }

  /** A login and two refreshes; revoking the first token leaves the third one live. */
  lemma RevocationMissesThirdToken()
    ensures var s1 := Create(map[], "@u", "D", "a", "", 0, NO_FAULTS).store;
            Forest(s1) && var s2 := Refresh(s1, "a", "b", "", 1, 1, NO_FAULTS).store;
            Forest(s2) && var s3 := Refresh(s2, "b", "c", "", 2, 2, NO_FAULTS).store;
            Forest(s3) && var s4 := Revoke(s3, "a", NO_FAULTS).store;
            "c" in s4 && Live(s4["c"])
  {
    var s1 := Create(map[], "@u", "D", "a", "", 0, NO_FAULTS).store;
    assert Forest(s1);
    var s2 := Refresh(s1, "a", "b", "", 1, 1, NO_FAULTS).store;
    RefreshKeepsForest(s1, "a", "b", "", 1, 1, NO_FAULTS);
    var s3 := Refresh(s2, "b", "c", "", 2, 2, NO_FAULTS).store;
    RefreshKeepsForest(s2, "b", "c", "", 2, 2, NO_FAULTS);
    assert s3["a"].parent == None && s3["c"].parent == Some("b");
    assert Root(s3, "a") == "a";
  }
}
