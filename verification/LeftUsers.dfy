/**
 Left-user tracking in client sync. The membership task inserts into a shared set; the device task drains it, filters
 out users who still share a joined room, and reports the rest. The tasks interleave between these steps.
 */
module LeftUsers {
  import opened Prelude

  datatype MembershipState = Join | Leave | Ban | Invite | Knock

  datatype Membership = Membership(room: string, user: string, state: MembershipState)

  datatype QueryError = QueryError

  /** The answers of the membership queries that one filtering makes. */
  datatype Queries = Queries(
    mine: Result<seq<Membership>, QueryError>,
    membersOf: string -> Result<seq<Membership>, QueryError>)

  predicate Departs(m: Membership) {
    m.state == Leave || m.state == Ban
  }

  // ---------- filtering ----------

  /** The user is a joined member of the room, as far as its query shows. */
  ghost predicate JoinedIn(q: Queries, room: string, user: string) {
    q.membersOf(room).Success? &&
    exists j :: 0 <= j < |q.membersOf(room).value| &&
                q.membersOf(room).value[j].state == Join && q.membersOf(room).value[j].user == user
  }

  /** The queries show a room that we and the user have joined. */
  ghost predicate Shares(q: Queries, user: string) {
    q.mine.Success? &&
    exists i :: 0 <= i < |q.mine.value| && q.mine.value[i].state == Join && JoinedIn(q, q.mine.value[i].room, user)
  }

  /** The candidates, in order, without those who share a room. */
  ghost function Away(q: Queries, candidates: seq<string>): seq<string> {
    if candidates == [] then []
    else
      var rest := Away(q, candidates[..|candidates| - 1]);
      var user := candidates[|candidates| - 1];
      if Shares(q, user) then rest else rest + [user]
  }

  lemma {:induction false} AwayMembers(q: Queries, candidates: seq<string>, user: string)
    ensures user in Away(q, candidates) <==> user in candidates && !Shares(q, user)
  {
    if candidates != [] {
      AwayMembers(q, candidates[..|candidates| - 1], user);
      assert candidates == candidates[..|candidates| - 1] + [candidates[|candidates| - 1]];
    }
  }

  /** `filter_truly_left_users`: a failed room query is skipped. */
  method FilterTrulyLeftUsers(q: Queries, candidates: seq<string>) returns (r: Result<seq<string>, QueryError>)
    ensures r.Failure? <==> q.mine.Failure?
    ensures r.Success? ==> r.value == Away(q, candidates)
  {
    if q.mine.Failure? {
      return Failure(q.mine.error);
    }
    var rooms := q.mine.value;
    var shared: set<string> := {};
    for i := 0 to |rooms|
      invariant forall u :: u in shared <==>
        exists k :: 0 <= k < i && rooms[k].state == Join && JoinedIn(q, rooms[k].room, u)
    {
      if rooms[i].state == Join {
        var answer := q.membersOf(rooms[i].room);
        if answer.Success? {
          var before := shared;
          for j := 0 to |answer.value|
            invariant forall u :: u in shared <==>
              u in before || exists n :: 0 <= n < j && answer.value[n].state == Join && answer.value[n].user == u
          {
            if answer.value[j].state == Join {
              shared := shared + {answer.value[j].user};
            }
          }
          assert forall u :: u in shared <==> u in before || JoinedIn(q, rooms[i].room, u);
        }
      }
    }
    assert forall u :: u in shared <==> Shares(q, u);
    var kept: seq<string> := [];
    for i := 0 to |candidates|
      invariant kept == Away(q, candidates[..i])
    {
      assert candidates[..i + 1][..i] == candidates[..i];
      if candidates[i] !in shared {
        kept := kept + [candidates[i]];
      }
    }
    assert candidates[..|candidates|] == candidates;
    return Success(kept);
  }

  /** The `left` list of a device-list update: unfiltered when the rooms could not be fetched. */
  ghost function Report(q: Queries, drained: seq<string>): seq<string> {
    if q.mine.Failure? then drained else Away(q, drained)
  }

  /** More of `q`'s queries fail in `worse`; the others answer the same. */
  ghost predicate Worse(q: Queries, worse: Queries) {
    && (worse.mine == q.mine || worse.mine.Failure?)
    && forall room :: worse.membersOf(room) == q.membersOf(room) || worse.membersOf(room).Failure?
  }

  lemma FailuresHideSharing(q: Queries, worse: Queries, user: string)
    requires Worse(q, worse) && Shares(worse, user)
    ensures Shares(q, user)
  {
  }

  /** A failed query can only add reported users, never drop one. */
  lemma FailuresOnlyAdd(q: Queries, worse: Queries, drained: seq<string>, user: string)
    requires Worse(q, worse) && user in Report(q, drained)
    ensures user in Report(worse, drained)
  {
    AwayMembers(q, drained, user);
    AwayMembers(worse, drained, user);
    if worse.mine.Success? && Shares(worse, user) {
      FailuresHideSharing(q, worse, user);
    }
  }

  // ---------- the shared set ----------

  /** The list holds exactly the set's users, each once. */
  ghost predicate Lists(users: seq<string>, members: set<string>) {
    (forall u :: u in users <==> u in members) && forall i, j :: 0 <= i < j < |users| ==> users[i] != users[j]
  }

  class LiveQuerySync {
    var leftUsers: set<string>

    constructor ()
      ensures leftUsers == {}
    {
      leftUsers := {};
    }

    /** The membership task's step. */
    method TrackMembership(m: Membership)
      modifies this
      ensures leftUsers == if Departs(m) then old(leftUsers) + {m.user} else old(leftUsers)
    {
      if m.state == Leave || m.state == Ban {
        leftUsers := leftUsers + {m.user};
      }
    }

    /** The device task's first step: take the users and clear the set under one lock. */
    method DrainLeftUsers() returns (users: seq<string>)
      modifies this
      ensures leftUsers == {} && Lists(users, old(leftUsers))
    {
      users := [];
      var rest := leftUsers;
      while rest != {}
        invariant rest <= leftUsers && leftUsers == old(leftUsers) && Lists(users, leftUsers - rest)
        decreases rest
      {
        var u :| u in rest;
        users := users + [u];
        rest := rest - {u};
      }
      leftUsers := {};
    }
  }

  // ---------- interleavings ----------

  datatype Step =
    | Member(membership: Membership)
    | Drain(users: seq<string>)
    | Emit(queries: Queries)

  /** The shared set, what the device task holds between draining and emitting, and the reports sent. */
  datatype State = State(pending: set<string>, inFlight: Option<seq<string>>, reports: seq<seq<string>>)

  const IDLE := State({}, None, [])

  ghost predicate Enabled(s: State, step: Step) {
    match step
    case Member(_) => true
    case Drain(users) => s.inFlight.None? && Lists(users, s.pending)
    case Emit(_) => s.inFlight.Some?
  }

  ghost function Next(s: State, step: Step): State
    requires Enabled(s, step)
  {
    match step
    case Member(m) => if Departs(m) then s.(pending := s.pending + {m.user}) else s
    case Drain(users) => s.(pending := {}, inFlight := Some(users))
    case Emit(q) => s.(inFlight := None, reports := s.reports + [Report(q, s.inFlight.value)])
  }

  ghost predicate IsRun(run: seq<State>, steps: seq<Step>) {
    && |run| == |steps| + 1 && run[0] == IDLE
    && forall i :: 0 <= i < |steps| ==> Enabled(run[i], steps[i]) && run[i + 1] == Next(run[i], steps[i])
  }

  /** Step `i` saw the user leave or be banned. */
  ghost predicate DepartsAt(steps: seq<Step>, i: int, user: string) {
    0 <= i < |steps| && steps[i].Member? && Departs(steps[i].membership) && steps[i].membership.user == user
  }

  ghost predicate NoDrain(steps: seq<Step>, from: int, to: int) {
    forall j :: 0 <= from <= j < to <= |steps| ==> !steps[j].Drain?
  }

  /** A user is pending exactly when they departed since the last drain. */
  lemma {:induction false} PendingExact(run: seq<State>, steps: seq<Step>, n: nat, user: string)
    requires IsRun(run, steps) && n < |run|
    ensures user in run[n].pending <==> exists i :: i < n && DepartsAt(steps, i, user) && NoDrain(steps, i, n)
  {
    if n > 0 {
      PendingExact(run, steps, n - 1, user);
      assert run[n] == Next(run[n - 1], steps[n - 1]);
      if steps[n - 1].Drain? {
        assert forall i :: i < n && DepartsAt(steps, i, user) ==> !NoDrain(steps, i, n);
      } else if user in run[n - 1].pending {
        var i :| i < n - 1 && DepartsAt(steps, i, user) && NoDrain(steps, i, n - 1);
        assert NoDrain(steps, i, n);
      } else if DepartsAt(steps, n - 1, user) {
        assert NoDrain(steps, n - 1, n);
      } else {
        forall i | i < n && DepartsAt(steps, i, user) && NoDrain(steps, i, n)
          ensures i < n - 1 && NoDrain(steps, i, n - 1)
        {
        }
      }
    }
  }

  lemma {:induction false} HeldUntilEmitted(run: seq<State>, steps: seq<Step>, drain: nat, n: nat)
    requires IsRun(run, steps) && drain < n < |run| && steps[drain].Drain?
    requires forall j :: drain < j < n ==> !steps[j].Emit?
    ensures run[n].inFlight == Some(steps[drain].users)
  {
    assert run[n] == Next(run[n - 1], steps[n - 1]);
    if n > drain + 1 {
      HeldUntilEmitted(run, steps, drain, n - 1);
    }
  }

  /**
   Nobody is lost or invented. The report sent after a drain names exactly the users who departed since the drain
   before it, except those whom its queries show in a joined room with us.
   */
  lemma ReportExact(run: seq<State>, steps: seq<Step>, drain: nat, emit: nat, user: string)
    requires IsRun(run, steps) && drain < emit < |steps| && steps[drain].Drain? && steps[emit].Emit?
    requires forall j :: drain < j < emit ==> !steps[j].Emit?
    ensures |run[emit + 1].reports| == |run[emit].reports| + 1
    ensures user in run[emit + 1].reports[|run[emit].reports|] <==>
            && (exists i :: i < drain && DepartsAt(steps, i, user) && NoDrain(steps, i, drain))
            && !Shares(steps[emit].queries, user)
  {
    HeldUntilEmitted(run, steps, drain, emit);
    PendingExact(run, steps, drain, user);
    AwayMembers(steps[emit].queries, steps[drain].users, user);
    assert run[emit + 1] == Next(run[emit], steps[emit]);
    assert Enabled(run[drain], steps[drain]);
  }
}
