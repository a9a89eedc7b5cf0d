/**
 User-Interactive Authentication: sessions, flows and stages. The outcome of each external check (password, CAPTCHA,
 email token) is part of the attempt; repository failures are part of the call.
 */
module Uia {
  import opened Prelude

  const PASSWORD := "m.login.password"
  const CAPTCHA := "m.login.recaptcha"
  const EMAIL := "m.login.email.identity"
  const TERMS := "m.login.terms"

  datatype Session = Session(
    id: string, user: Option<string>, flows: seq<seq<string>>, completedStages: seq<string>,
    authData: map<string, bool>, expiresAt: int, completed: bool)

  /** What the stage's verifier says; a malformed request or a failing verifier is an error. */
  datatype Check = Passed | Rejected | Errored

  datatype Attempt = Attempt(authType: string, check: Check)

  datatype Reply =
    | Completed
    | InvalidSession
    | SessionExpired
    | UpdateFailed
    | MoreStagesNeeded
    | AuthenticationFailed
    | AuthenticationError

  type Store = map<string, Session>

  predicate Known(stage: string) {
    stage == PASSWORD || stage == CAPTCHA || stage == EMAIL || stage == TERMS
  }

  /** The flag a stage leaves in `auth_data`. */
  function Flag(stage: string): string
    requires Known(stage)
  {
    if stage == PASSWORD then "password_verified"
    else if stage == CAPTCHA then "captcha_verified"
    else if stage == EMAIL then "email_verified"
    else "terms_accepted"
  }

  /** Terms need no check; the other stages succeed when theirs passes. */
  predicate Succeeds(a: Attempt) {
    a.authType == TERMS || (Known(a.authType) && a.check == Passed)
  }

  /** `process_auth_stage`: whether the stage completed, and the session with it recorded. */
  function ProcessStage(s: Session, a: Attempt): Result<(bool, Session), ()> {
    if !Known(a.authType) then Failure(())
    else if Succeeds(a) then
      Success((true, Recorded(s, a.authType, Flag(a.authType))))
    else if a.check == Rejected then Success((false, s))
    else Failure(())
  }

  /** A stage pushed and its flag set. */
  function Recorded(s: Session, stage: string, flag: string): Session {
    s.(completedStages := s.completedStages + [stage], authData := s.authData[flag := true])
  }

  predicate FlowDone(flow: seq<string>, stages: seq<string>) {
    forall i :: 0 <= i < |flow| ==> flow[i] in stages
  }

  /** `is_flow_completed`: any flow has all of its stages. */
  predicate FlowCompleted(s: Session) {
    exists f :: 0 <= f < |s.flows| && FlowDone(s.flows[f], s.completedStages)
  }

  /** `process_auth`: the reply and the stored sessions. */
  function Process(store: Store, id: string, a: Attempt, now: int, getFails: bool, updateFails: bool): (Reply, Store) {
    if getFails || id !in store then (InvalidSession, store)
    else if now > store[id].expiresAt then (SessionExpired, store)
    else
      match ProcessStage(store[id], a)
      case Failure(_) => (AuthenticationError, store)
      case Success((stageCompleted, s)) =>
        if !stageCompleted then (AuthenticationFailed, store)
        else
          var done := FlowCompleted(s);
          var s' := if done then s.(completed := true) else s;
          if updateFails then (UpdateFailed, store)
          else (if done then Completed else MoreStagesNeeded, store[s'.id := s'])
  }

  class UiaService {
    var sessions: Store

    constructor ()
      ensures sessions == map[]
    {
      sessions := map[];
    }

    method ProcessAuth(id: string, a: Attempt, now: int, getFails: bool, updateFails: bool) returns (reply: Reply)
      modifies this
      ensures (reply, sessions) == Process(old(sessions), id, a, now, getFails, updateFails)
    {
      if getFails || id !in sessions {
        return InvalidSession;
      }
      var session := sessions[id];
      if now > session.expiresAt {
        return SessionExpired;
      }
      if a.authType == PASSWORD {
        if a.check != Passed {
          return if a.check == Rejected then AuthenticationFailed else AuthenticationError;
        }
        session := Recorded(session, PASSWORD, "password_verified");
      } else if a.authType == CAPTCHA {
        if a.check != Passed {
          return if a.check == Rejected then AuthenticationFailed else AuthenticationError;
        }
        session := Recorded(session, CAPTCHA, "captcha_verified");
      } else if a.authType == EMAIL {
        if a.check != Passed {
          return if a.check == Rejected then AuthenticationFailed else AuthenticationError;
        }
        session := Recorded(session, EMAIL, "email_verified");
      } else if a.authType == TERMS {
        session := Recorded(session, TERMS, "terms_accepted");
      } else {
        return AuthenticationError;
      }
      var done := FlowCompleted(session);
      if done {
        session := session.(completed := true);
      }
      if updateFails {
        return UpdateFailed;
      }
      sessions := sessions[session.id := session];
      return if done then Completed else MoreStagesNeeded;
    }

    /**
     `start_session`: the repository files the session under an id and an expiry of its own; the service returns others.
     */
    method StartSession(user: Option<string>, flows: seq<seq<string>>, repositoryId: string, storedUntil: int,
                        id: string, returnedUntil: int, createFails: bool)
      returns (r: Result<Session, ()>)
      modifies this
      ensures r == if createFails then Failure(()) else Success(NewSession(id, user, flows, returnedUntil))
      ensures sessions ==
              if createFails then old(sessions)
              else old(sessions)[repositoryId := NewSession(repositoryId, user, flows, storedUntil)]
    {
      if createFails {
        return Failure(());
      }
      sessions := sessions[repositoryId := Session(repositoryId, user, flows, [], map[], storedUntil, false)];
      return Success(Session(id, user, flows, [], map[], returnedUntil, false));
    }
  }

  function NewSession(id: string, user: Option<string>, flows: seq<seq<string>>, expiresAt: int): Session {
    Session(id, user, flows, [], map[], expiresAt, false)
  }

  // ---------- runs ----------

  datatype Op =
    | Start(user: Option<string>, flows: seq<seq<string>>, repositoryId: string, storedUntil: int, id: string,
            returnedUntil: int, createFails: bool)
    | Auth(session: string, attempt: Attempt, now: int, getFails: bool, updateFails: bool)
    | Cleanup(now: int)

  function Apply(store: Store, op: Op): Store {
    match op
    case Start(user, flows, repositoryId, storedUntil, _, _, createFails) =>
      if createFails then store else store[repositoryId := NewSession(repositoryId, user, flows, storedUntil)]
    case Auth(id, a, now, getFails, updateFails) => Process(store, id, a, now, getFails, updateFails).1
    case Cleanup(now) => map k | k in store && !(store[k].expiresAt < now) :: store[k]
  }

  /** The repository's ids are new UUIDs. */
  ghost predicate IsRun(run: seq<Store>, ops: seq<Op>) {
    && |run| == |ops| + 1 && run[0] == map[]
    && (forall i :: 0 <= i < |ops| ==> run[i + 1] == Apply(run[i], ops[i]))
    && (forall i, j :: 0 <= i < j < |ops| && ops[i].Start? && ops[j].Start? ==>
          ops[i].repositoryId != ops[j].repositoryId)
  }

  /**
   Filed under its id, completed exactly when a stage was recorded and a flow is done, and flagged for exactly the
   known stages recorded.
   */
  ghost predicate Sound(s: Session, id: string) {
    && s.id == id
    && (s.completed <==> s.completedStages != [] && FlowCompleted(s))
    && (forall i :: 0 <= i < |s.completedStages| ==>
          && Known(s.completedStages[i])
          && Flag(s.completedStages[i]) in s.authData && s.authData[Flag(s.completedStages[i])])
    && (forall flag :: flag in s.authData ==>
          exists i :: 0 <= i < |s.completedStages| && Known(s.completedStages[i]) && Flag(s.completedStages[i]) == flag)
  }

  /** Nothing but a successful, timely and persisted attempt changes a stored session, and only the one it names. */
  lemma OnlySuccessChanges(store: Store, id: string, a: Attempt, now: int, getFails: bool, updateFails: bool)
    requires forall k :: k in store ==> store[k].id == k
    ensures var (reply, next) := Process(store, id, a, now, getFails, updateFails);
            && (reply == Completed || reply == MoreStagesNeeded <==>
                id in store && now <= store[id].expiresAt && Succeeds(a) && !getFails && !updateFails)
            && (reply != Completed && reply != MoreStagesNeeded ==> next == store)
            && (forall k :: k in store && k != id ==> k in next && next[k] == store[k])
            && (reply == Completed ==> next[id].completed)
  {
  }

  /** The flow asks for nothing but these stages. */
  ghost predicate AsksOnly(flow: seq<string>, stages: set<string>) {
    forall x :: x in flow ==> x in stages
  }

  /** Some flow asks for nothing but the stages recorded and the one just passed. */
  ghost predicate CompletesFlow(s: Session, stage: string) {
    exists f :: 0 <= f < |s.flows| && AsksOnly(s.flows[f], (set x | x in s.completedStages) + {stage})
  }

  /** The stage has a check, and a request without one or with a failing one is an error. */
  predicate Checked(stage: string) {
    stage == "m.login.password" || stage == "m.login.recaptcha" || stage == "m.login.email.identity"
  }

  /**
   Which reply answers which attempt. An attempt that passes its check, or accepts the terms, in time and is stored
   completes the session exactly when it completes a flow.
   */
  lemma RepliesExact(store: Store, id: string, a: Attempt, now: int, getFails: bool, updateFails: bool)
    ensures var reply := Process(store, id, a, now, getFails, updateFails).0;
            var found := !getFails && id in store;
            var timely := found && now <= store[id].expiresAt;
            var passes := timely && (a.authType == "m.login.terms" || (Checked(a.authType) && a.check == Passed));
            && (reply == InvalidSession <==> !found)
            && (reply == SessionExpired <==> found && !timely)
            && (reply == AuthenticationFailed <==> timely && Checked(a.authType) && a.check == Rejected)
            && (reply == AuthenticationError <==>
                && timely && a.authType != "m.login.terms"
                && (!Checked(a.authType) || a.check == Errored))
            && (reply == UpdateFailed <==> passes && updateFails)
            && (reply == Completed <==> passes && !updateFails && CompletesFlow(store[id], a.authType))
            && (reply == MoreStagesNeeded <==> passes && !updateFails && !CompletesFlow(store[id], a.authType))
  {
    if id in store && Known(a.authType) {
      RecordedFlow(store[id], a.authType);
    }
  }

  lemma RecordedFlow(s: Session, stage: string)
    requires Known(stage)
    ensures FlowCompleted(Recorded(s, stage, Flag(stage))) <==> CompletesFlow(s, stage)
  {
    var t := Recorded(s, stage, Flag(stage));
    assert t.flows == s.flows && t.completedStages == s.completedStages + [stage];
    forall f | 0 <= f < |s.flows|
      ensures FlowDone(t.flows[f], t.completedStages) <==>
              AsksOnly(s.flows[f], (set x | x in s.completedStages) + {stage})
    {
      assert forall i :: 0 <= i < |s.flows[f]| ==> s.flows[f][i] in s.flows[f];
    }
  }

  /** What an accepted attempt leaves: its stage and its flag are added, and completion if it completes a flow. */
  lemma AcceptedIsRecorded(store: Store, id: string, a: Attempt, now: int, getFails: bool, updateFails: bool)
    requires id in store && store[id].id == id
    ensures var (reply, next) := Process(store, id, a, now, getFails, updateFails);
            reply == Completed || reply == MoreStagesNeeded ==>
              && next.Keys == store.Keys
              && next[id].completedStages == store[id].completedStages + [a.authType]
              && next[id].completed == (store[id].completed || CompletesFlow(store[id], a.authType))
              && next[id].authData ==
                 store[id].authData[if a.authType == "m.login.password" then "password_verified"
                                    else if a.authType == "m.login.recaptcha" then "captcha_verified"
                                    else if a.authType == "m.login.email.identity" then "email_verified"
                                    else "terms_accepted" := true]
              && (next[id].user, next[id].flows, next[id].expiresAt) ==
                 (store[id].user, store[id].flows, store[id].expiresAt)
  {
    if Known(a.authType) {
      hide FlowCompleted, CompletesFlow;
      RecordedFlow(store[id], a.authType);
    }
  }

  lemma MoreStagesKeepFlow(s: Session, t: Session)
    requires FlowCompleted(s) && t.flows == s.flows && forall x :: x in s.completedStages ==> x in t.completedStages
    ensures FlowCompleted(t)
  {
  }

  lemma RecordingIsSound(s: Session, id: string, stage: string)
    requires Sound(s, id) && Known(stage)
    ensures var t := Recorded(s, stage, Flag(stage));
            Sound(if FlowCompleted(t) then t.(completed := true) else t, id)
  {
    hide FlowCompleted, Known, Flag;
    var stages := s.completedStages + [stage];
    var t := Recorded(s, stage, Flag(stage));
    if s.completed {
      MoreStagesKeepFlow(s, t);
    }
    assert stages[|s.completedStages|] == stage;
    forall flag | flag in t.authData
      ensures exists i :: 0 <= i < |stages| && Known(stages[i]) && Flag(stages[i]) == flag
    {
      if flag != Flag(stage) {
        var i :| 0 <= i < |s.completedStages| && Known(s.completedStages[i]) && Flag(s.completedStages[i]) == flag;
        assert stages[i] == s.completedStages[i];
      }
    }
    if FlowCompleted(t) {
      MoreStagesKeepFlow(t, t.(completed := true));
    }
  }

  /** Every stored session of every run is sound. */
  lemma {:induction false} SessionsAreSound(run: seq<Store>, ops: seq<Op>, n: nat)
    requires IsRun(run, ops) && n < |run|
    ensures forall k :: k in run[n] ==> Sound(run[n][k], k)
  {
    hide Sound;
    if n > 0 {
      SessionsAreSound(run, ops, n - 1);
      var before, op := run[n - 1], ops[n - 1];
      assert run[n] == Apply(before, op);
      match op
      case Start(user, flows, repositoryId, storedUntil, _, _, _) =>
        NewIsSound(repositoryId, user, flows, storedUntil);
      case Auth(id, a, now, getFails, updateFails) =>
        if id in before {
          assert before[id].id == id by { IdOfSound(before[id], id); }
          if Known(a.authType) {
            RecordingIsSound(before[id], id, a.authType);
          }
        }
      case Cleanup(_) =>
    }
  }

  lemma NewIsSound(id: string, user: Option<string>, flows: seq<seq<string>>, expiresAt: int)
    ensures Sound(NewSession(id, user, flows, expiresAt), id)
  {
  }

  lemma IdOfSound(s: Session, id: string)
    requires Sound(s, id)
    ensures s.id == id
  {
  }

  /** Operation `i` was a successful, timely and persisted attempt at the stage in the session. */
  ghost predicate PassedAt(run: seq<Store>, ops: seq<Op>, i: int, id: string, stage: string) {
    && 0 <= i < |ops| < |run| && ops[i].Auth? && ops[i].session == id && ops[i].attempt.authType == stage
    && Succeeds(ops[i].attempt) && !ops[i].getFails && !ops[i].updateFails
    && id in run[i] && ops[i].now <= run[i][id].expiresAt
  }

  /** Every recorded stage came from a successful check in that session. */
  lemma {:induction false} StagesWerePassed(run: seq<Store>, ops: seq<Op>, n: nat, id: string, stage: string)
    requires IsRun(run, ops) && n < |run| && id in run[n] && stage in run[n][id].completedStages
    ensures exists i :: i < n && PassedAt(run, ops, i, id, stage)
  {
    hide FlowCompleted, Flag;
    if n > 0 {
      SessionsAreSound(run, ops, n - 1);
      var before, op := run[n - 1], ops[n - 1];
      assert run[n] == Apply(before, op);
      if id in before && stage in before[id].completedStages {
        StagesWerePassed(run, ops, n - 1, id, stage);
      } else {
        assert PassedAt(run, ops, n - 1, id, stage);
      }
    }
  }

  /** A completed session stays completed for as long as it is stored. */
  lemma {:induction false} CompletionIsKept(run: seq<Store>, ops: seq<Op>, m: nat, n: nat, id: string)
    requires IsRun(run, ops) && m <= n < |run| && id in run[m] && run[m][id].completed
    ensures id in run[n] ==> run[n][id].completed
  {
    if m < n {
      CompletionIsKept(run, ops, m, n - 1, id);
      SessionsAreSound(run, ops, n - 1);
      assert run[n] == Apply(run[n - 1], ops[n - 1]);
      StoredWasStarted(run, ops, m, id);
    }
  }

  /** Operation `i` started the session filed under `id`, and no cleanup between it and `n` found it expired. */
  ghost predicate StillStored(ops: seq<Op>, i: int, n: int, id: string) {
    && 0 <= i < n <= |ops| && ops[i].Start? && !ops[i].createFails && ops[i].repositoryId == id
    && forall j :: i < j < n && ops[j].Cleanup? ==> ops[j].now <= ops[i].storedUntil
  }

  lemma AttemptsKeepExpiry(store: Store, id: string, a: Attempt, now: int, getFails: bool, updateFails: bool)
    requires forall k :: k in store ==> store[k].id == k
    ensures var next := Process(store, id, a, now, getFails, updateFails).1;
            next.Keys == store.Keys && forall k :: k in store ==> next[k].expiresAt == store[k].expiresAt
  {
    hide FlowCompleted, Known, Flag;
  }

  lemma StepKeepsStored(run: seq<Store>, ops: seq<Op>, n: nat, id: string)
    requires IsRun(run, ops) && n < |ops| && !(ops[n].Start? && !ops[n].createFails && ops[n].repositoryId == id)
    ensures id in run[n + 1] <==> id in run[n] && (ops[n].Cleanup? ==> ops[n].now <= run[n][id].expiresAt)
    ensures id in run[n + 1] ==> run[n + 1][id].expiresAt == run[n][id].expiresAt
  {
    hide Process, Sound;
    SessionsAreSound(run, ops, n);
    assert run[n + 1] == Apply(run[n], ops[n]);
    if ops[n].Auth? {
      forall k | k in run[n]
        ensures run[n][k].id == k
      {
        IdOfSound(run[n][k], k);
      }
      AttemptsKeepExpiry(run[n], ops[n].session, ops[n].attempt, ops[n].now, ops[n].getFails, ops[n].updateFails);
    }
  }

  lemma {:induction false} StoredWasStarted(run: seq<Store>, ops: seq<Op>, n: nat, id: string)
    requires IsRun(run, ops) && n < |run| && id in run[n]
    ensures exists i :: StillStored(ops, i, n, id) && run[n][id].expiresAt == ops[i].storedUntil
  {
    hide Process;
    if n > 0 {
      assert run[n] == Apply(run[n - 1], ops[n - 1]);
      if ops[n - 1].Start? && !ops[n - 1].createFails && ops[n - 1].repositoryId == id {
        assert StillStored(ops, n - 1, n, id);
      } else {
        StepKeepsStored(run, ops, n - 1, id);
        StoredWasStarted(run, ops, n - 1, id);
        var i :| StillStored(ops, i, n - 1, id) && run[n - 1][id].expiresAt == ops[i].storedUntil;
        assert StillStored(ops, i, n, id);
      }
    }
  }

  lemma {:induction false} StartedIsStored(run: seq<Store>, ops: seq<Op>, i: int, n: nat, id: string)
    requires IsRun(run, ops) && n < |run| && StillStored(ops, i, n, id)
    ensures id in run[n] && run[n][id].expiresAt == ops[i].storedUntil
  {
    hide Process;
    assert run[n] == Apply(run[n - 1], ops[n - 1]);
    if i < n - 1 {
      StartedIsStored(run, ops, i, n - 1, id);
      StepKeepsStored(run, ops, n - 1, id);
    }
  }

  /**
   At any point of a run, an attempt under an id is answered with an invalid session exactly when the lookup fails or
   the repository has no session filed under that id: it started none, or a cleanup has found it expired.
   */
  lemma InvalidSessionExactly(run: seq<Store>, ops: seq<Op>, n: nat, id: string, a: Attempt, now: int, getFails: bool,
                              updateFails: bool)
    requires IsRun(run, ops) && n < |run|
    ensures id in run[n] <==> exists i :: StillStored(ops, i, n, id)
    ensures Process(run[n], id, a, now, getFails, updateFails).0 == InvalidSession <==>
            getFails || !exists i :: StillStored(ops, i, n, id)
  {
    hide FlowCompleted, ProcessStage, StillStored, IsRun;
    if id in run[n] {
      StoredWasStarted(run, ops, n, id);
    }
    if i :| StillStored(ops, i, n, id) {
      StartedIsStored(run, ops, i, n, id);
    }
  }

  /**
   So an id that the repository never chose, such as the one `start_session` returns, names no session: every attempt
   under it is answered with an invalid session and changes nothing.
   */
  lemma ReturnedIdIsUnknown(run: seq<Store>, ops: seq<Op>, n: nat, id: string, a: Attempt, now: int, getFails: bool,
                            updateFails: bool)
    requires IsRun(run, ops) && n < |run|
    requires forall i :: 0 <= i < |ops| && ops[i].Start? ==> ops[i].repositoryId != id
    ensures Process(run[n], id, a, now, getFails, updateFails) == (InvalidSession, run[n])
  {
    InvalidSessionExactly(run, ops, n, id, a, now, getFails, updateFails);
  }

  lemma FirstStage(s: Session, stage: string)
    requires s.completedStages == []
    ensures CompletesFlow(s, stage) <==> exists f :: 0 <= f < |s.flows| && AsksOnly(s.flows[f], {stage})
  {
    assert (set x | x in s.completedStages) + {stage} == {stage};
  }

  /**
   A session is started and a stage passed in time, with no failures: under the returned id the attempt is an invalid
   session, while the very same attempt under the repository's id is accepted, and completes the session exactly when
   some flow asks for no other stage.
   */
  lemma StartThenAuth(start: Op, a: Attempt, now: int)
    requires start.Start? && !start.createFails && start.id != start.repositoryId
    requires Succeeds(a) && now <= start.storedUntil
    ensures var stored := Apply(map[], start);
            && IsRun([map[], stored, stored], [start, Auth(start.id, a, now, false, false)])
            && Process(stored, start.id, a, now, false, false) == (InvalidSession, stored)
            && Process(stored, start.repositoryId, a, now, false, false).0 ==
               if exists f :: 0 <= f < |start.flows| && AsksOnly(start.flows[f], {a.authType})
               then Completed else MoreStagesNeeded
  {
    var stored := Apply(map[], start);
    var run, ops := [map[], stored, stored], [start, Auth(start.id, a, now, false, false)];
    assert run[1] == Apply(run[0], ops[0]) && run[2] == Apply(run[1], ops[1]);
    RepliesExact(stored, start.repositoryId, a, now, false, false);
    FirstStage(stored[start.repositoryId], a.authType);
    ReturnedIdIsUnknown(run, ops, 1, start.id, a, now, false, false);
  }
}
