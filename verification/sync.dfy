/** The one-directional reconciler of sync/sync.go: every GitHub enterprise
    member whose e-mail the Azure group check rejects gets a `Delete`
    action; the actions are then applied in order, skipped in dry-run, and
    a failed delete does not stop the rest. */
module Sync {
  import opened Types
  import GitHubRoster

  type GitHubUser = GitHubRoster.GitHubUser

  /** `ActionType`: `Delete` is its only value. */
  datatype ActionType = Delete

  datatype Action = Action(actionType: ActionType, displayName: string, email: string, login: string, id: string)

  /** The three results the loop reads from the membership check:
      `(inAzure, name, err)` with `name` a possibly nil `*string`. */
  datatype MemberAnswer = MemberAnswer(inGroup: bool, name: Option<string>, err: Option<Error>)

  /** The membership check, asked with a GitHub user's e-mail. */
  type MembershipCheck = string -> MemberAnswer

  /** `DeleteUser(ctx, id)`: `Some(err)` when the removal fails. */
  type DeleteCall = string -> Option<Error>

  /** What the plan loop makes of one user. `NilDeref` is the panic of
      dereferencing a nil `name`. */
  datatype Step = Abort(err: Error) | Emit(action: Action) | Stay | NilDeref

  /** What a run did: the error returned; the planned actions; the ids
      passed to `DeleteUser`, in call order; the two counters logged. */
  datatype SyncReport = SyncReport(err: Option<Error>, actions: seq<Action>, deleteCalls: seq<string>, delete: nat, stay: nat)

  /** `*name` when `name` is non-nil, the empty string otherwise. */
  function NameOrEmpty(name: Option<string>): string
  {
    if name.Some? then name.value else ""
  }

  function DeleteAction(u: GitHubUser, name: Option<string>): Action
  {
    Action(Delete, NameOrEmpty(name), u.Email, u.Login, u.ID)
  }

  /** The loop body as written: the in-group branch logs `*name`, which
      panics when the check answered in-group with a nil name. */
  function PlanStepAsWritten(u: GitHubUser, a: MemberAnswer): (s: Step)
    ensures s.Abort? <==> a.err.Some?
    ensures s.Abort? ==> s.err == a.err.value
    ensures s == NilDeref <==> a.err.None? && a.inGroup && a.name.None?
    ensures s.Emit? <==> a.err.None? && !a.inGroup
    ensures s.Emit? ==> s.action.email == u.Email && s.action.id == u.ID && s.action.login == u.Login
  {
    if a.err.Some? then Abort(a.err.value)
    else if !a.inGroup then Emit(DeleteAction(u, a.name))
    else if a.name.None? then NilDeref
    else Stay
  }

  /** An in-group answer without a display name crashes the loop as written. */
  lemma InGroupWithoutNamePanics(u: GitHubUser)
    ensures PlanStepAsWritten(u, MemberAnswer(true, None, None)) == NilDeref
  {
  }

  /** The loop body with the log argument guarded: it never panics, keeps
      every in-group user, and otherwise does what the written body does. */
  function PlanStep(u: GitHubUser, a: MemberAnswer): (s: Step)
    ensures s != NilDeref
    ensures s == Stay <==> a.err.None? && a.inGroup
    ensures PlanStepAsWritten(u, a) != NilDeref ==> s == PlanStepAsWritten(u, a)
  {
    if a.err.Some? then Abort(a.err.value)
    else if !a.inGroup then Emit(DeleteAction(u, a.name))
    else Stay
  }

  /** The listing the loop walks: the result of `gh.Users`, whose error is
      never looked at, so a failed listing is the nil slice. */
  function Listed(listing: Result<seq<GitHubUser>>): (users: seq<GitHubUser>)
    ensures listing.Success? ==> users == listing.value
    ensures listing.Failure? ==> users == []
  {
    if listing.Success? then listing.value else []
  }

  /** The check rejects the user's e-mail. */
  function Rejects(check: MembershipCheck): GitHubUser -> bool
  {
    (u: GitHubUser) => !check(u.Email).inGroup
  }

  /** The reference plan: one `Delete` per rejected user, in listing order. */
  function PlannedActions(users: seq<GitHubUser>, check: MembershipCheck): seq<Action>
  {
    var rejected := Filter(users, Rejects(check));
    seq(|rejected|, i requires 0 <= i < |rejected| =>
      DeleteAction(rejected[i], check(rejected[i].Email).name))
  }

  function Ids(actions: seq<Action>): seq<string>
  {
    seq(|actions|, i requires 0 <= i < |actions| => actions[i].id)
  }

  /** Planning distributes over concatenation: later users' actions come later. */
  lemma PlannedActionsAppend(a: seq<GitHubUser>, b: seq<GitHubUser>, check: MembershipCheck)
    ensures PlannedActions(a + b, check) == PlannedActions(a, check) + PlannedActions(b, check)
  {
    FilterAppend(a, b, Rejects(check));
  }

  /** `a` deletes `u`, whom the check rejected: it carries the user's id,
      e-mail and login, and the name the check returned or "". */
  predicate DeletesRejected(a: Action, u: GitHubUser, check: MembershipCheck)
  {
    && !check(u.Email).inGroup
    && a == Action(Delete, NameOrEmpty(check(u.Email).name), u.Email, u.Login, u.ID)
  }

  /** Every planned action is a rejected user's, carrying its id, e-mail
      and login and the check's name (or ""); every rejected user has one. */
  lemma {:induction false} PlannedActionsAreRejectedUsers(users: seq<GitHubUser>, check: MembershipCheck)
    ensures forall k | 0 <= k < |PlannedActions(users, check)| ::
              exists j | 0 <= j < |users| :: DeletesRejected(PlannedActions(users, check)[k], users[j], check)
    ensures forall j | 0 <= j < |users| && !check(users[j].Email).inGroup ::
              DeleteAction(users[j], check(users[j].Email).name) in PlannedActions(users, check)
  {
    var rejected := Filter(users, Rejects(check));
    var plan := PlannedActions(users, check);
    forall k | 0 <= k < |plan|
      ensures exists j | 0 <= j < |users| :: DeletesRejected(plan[k], users[j], check)
    {
      assert rejected[k] in users && Rejects(check)(rejected[k]);
      var j :| 0 <= j < |users| && users[j] == rejected[k];
      assert !check(users[j].Email).inGroup;
      assert plan[k] == DeleteAction(users[j], check(users[j].Email).name);
      assert DeletesRejected(plan[k], users[j], check);
    }
    forall j | 0 <= j < |users| && !check(users[j].Email).inGroup
      ensures DeleteAction(users[j], check(users[j].Email).name) in plan
    {
      assert Rejects(check)(users[j]);
      var k :| 0 <= k < |rejected| && rejected[k] == users[j];
      assert plan[k] == DeleteAction(users[j], check(users[j].Email).name);
    }
  }

  /** One more user extends the plan by its action, if the check rejects it. */
  lemma PlannedActionsStep(users: seq<GitHubUser>, i: nat, check: MembershipCheck)
    requires i < |users|
    ensures PlannedActions(users[..i + 1], check) ==
              PlannedActions(users[..i], check) +
              (if check(users[i].Email).inGroup then [] else [DeleteAction(users[i], check(users[i].Email).name)])
  {
    assert users[..i + 1] == users[..i] + [users[i]];
    PlannedActionsAppend(users[..i], [users[i]], check);
    assert [users[i]][1..] == [];
  }

  /** How the loop of sync.go:36-61 as written ends: the first check error,
      the nil-dereference panic, or the plan with its two counters. */
  datatype PlanOutcome = Failed(err: Error) | Panicked | Planned(actions: seq<Action>, delete: nat, stay: nat)

  /** One pass of the loop body as written after `prev`: a loop that has
      failed or panicked stays so. */
  function Advance(prev: PlanOutcome, u: GitHubUser, a: MemberAnswer): PlanOutcome
  {
    match prev
    case Planned(actions, delete, stay) =>
      (match PlanStepAsWritten(u, a)
       case Abort(e) => Failed(e)
       case NilDeref => Panicked
       case Emit(x) => Planned(actions + [x], delete + 1, stay)
       case Stay => Planned(actions, delete, stay + 1))
    case halted => halted
  }

  /** The loop as written, over a prefix of the listing. */
  function PlanAsWritten(users: seq<GitHubUser>, check: MembershipCheck): PlanOutcome
    decreases |users|
  {
    if |users| == 0 then Planned([], 0, 0)
    else
      var u := users[|users| - 1];
      Advance(PlanAsWritten(users[..|users| - 1], check), u, check(u.Email))
  }

  /** A loop that has failed or panicked on a prefix ends that way. */
  lemma {:induction false} HaltedStays(users: seq<GitHubUser>, i: nat, check: MembershipCheck)
    requires i <= |users| && !PlanAsWritten(users[..i], check).Planned?
    ensures PlanAsWritten(users, check) == PlanAsWritten(users[..i], check)
    decreases |users| - i
  {
    if i < |users| {
      assert users[..i + 1][..i] == users[..i];
      HaltedStays(users, i + 1, check);
    } else {
      assert users[..i] == users;
    }
  }

  /** Without check errors the loop as written never fails. */
  lemma {:induction false} NoErrorNoFailure(users: seq<GitHubUser>, check: MembershipCheck)
    requires forall j | 0 <= j < |users| :: check(users[j].Email).err.None?
    ensures !PlanAsWritten(users, check).Failed?
    decreases |users|
  {
    if |users| > 0 {
      NoErrorNoFailure(users[..|users| - 1], check);
    }
  }

  /** The loop as written over one more user. */
  lemma PlanAsWrittenSnoc(users: seq<GitHubUser>, i: nat, check: MembershipCheck)
    requires i < |users|
    ensures PlanAsWritten(users[..i + 1], check) ==
              Advance(PlanAsWritten(users[..i], check), users[i], check(users[i].Email))
  {
    var p := users[..i + 1];
    assert p[..i] == users[..i] && p[i] == users[i];
  }

  /** The crash of the sync.go:58 finding on a whole listing: an in-group
      answer without a name, reached before any check error, panics. */
  lemma PanicsAt(users: seq<GitHubUser>, i: nat, check: MembershipCheck)
    requires i < |users|
    requires forall j | 0 <= j < i :: check(users[j].Email).err.None?
    requires check(users[i].Email) == MemberAnswer(true, None, None)
    ensures PlanAsWritten(users, check) == Panicked
  {
    var front := users[..i];
    assert forall j | 0 <= j < i :: front[j] == users[j];
    NoErrorNoFailure(front, check);
    PlanAsWrittenSnoc(users, i, check);
    HaltedStays(users, i + 1, check);
  }

  /** User `i` is the first whose check answers an error. */
  predicate FirstError(users: seq<GitHubUser>, check: MembershipCheck, i: int)
  {
    && 0 <= i < |users|
    && check(users[i].Email).err.Some?
    && forall j | 0 <= j < i :: check(users[j].Email).err.None?
  }

  /** There is at most one first error. */
  lemma FirstErrorUnique(users: seq<GitHubUser>, check: MembershipCheck, i: int, k: int)
    requires FirstError(users, check, i) && FirstError(users, check, k)
    ensures i == k
  {
  }

  /** A loop as written that runs to the end saw no check error and made
      the reference plan, with counters that add up to the listing. */
  lemma {:induction false} PlanAsWrittenPlanned(users: seq<GitHubUser>, check: MembershipCheck)
    ensures var w := PlanAsWritten(users, check);
            w.Planned? ==>
              && (forall j | 0 <= j < |users| :: check(users[j].Email).err.None?)
              && w.actions == PlannedActions(users, check)
              && w.delete == |w.actions| && w.delete + w.stay == |users|
    decreases |users|
  {
    if |users| > 0 {
      var n := |users| - 1;
      var front := users[..n];
      PlanAsWrittenPlanned(front, check);
      PlanAsWrittenSnoc(users, n, check);
      assert users[..n + 1] == users;
      var w := PlanAsWritten(users, check);
      var prev := PlanAsWritten(front, check);
      if w.Planned? {
        assert prev.Planned?;
        var u := users[n];
        var a := check(u.Email);
        assert a.err.None? && (a.inGroup ==> a.name.Some?);
        forall j | 0 <= j < |users|
          ensures check(users[j].Email).err.None?
        {
          if j < n {
            assert front[j] == users[j];
          }
        }
        PlannedActionsStep(users, n, check);
        if a.inGroup {
          assert w == Planned(prev.actions, prev.delete, prev.stay + 1);
          assert PlannedActions(users, check) == PlannedActions(front, check);
        } else {
          assert w == Planned(prev.actions + [DeleteAction(u, a.name)], prev.delete + 1, prev.stay);
          assert PlannedActions(users, check) == PlannedActions(front, check) + [DeleteAction(u, a.name)];
        }
      }
    }
  }

  /** A loop as written that fails returns the first check error. */
  lemma {:induction false} PlanAsWrittenFailed(users: seq<GitHubUser>, check: MembershipCheck)
    ensures var w := PlanAsWritten(users, check);
            w.Failed? ==> exists i :: FirstError(users, check, i) && check(users[i].Email).err == Some(w.err)
    decreases |users|
  {
    if |users| > 0 {
      var n := |users| - 1;
      var front := users[..n];
      PlanAsWrittenSnoc(users, n, check);
      assert users[..n + 1] == users;
      assert forall j | 0 <= j < n :: front[j] == users[j];
      match PlanAsWritten(front, check)
      case Failed(e) =>
        PlanAsWrittenFailed(front, check);
        var i :| FirstError(front, check, i) && check(front[i].Email).err == Some(e);
        assert FirstError(users, check, i);
      case Panicked =>
      case Planned(_, _, _) =>
        PlanAsWrittenPlanned(front, check);
        if check(users[n].Email).err.Some? {
          assert FirstError(users, check, n);
        }
    }
  }

  /** The loop of sync.go:36-61 over `users`, on the guarded body: stops at
      the first check error; otherwise one action per rejected user and the
      two counters. */
  method Plan(users: seq<GitHubUser>, check: MembershipCheck)
    returns (err: Option<Error>, actions: seq<Action>, delete: nat, stay: nat)
    ensures err.Some? <==> exists i | 0 <= i < |users| :: check(users[i].Email).err.Some?
    ensures err.Some? ==>
              exists i | 0 <= i < |users| ::
                && check(users[i].Email).err == err
                && forall j | 0 <= j < i :: check(users[j].Email).err.None?
    ensures err.None? ==> actions == PlannedActions(users, check)
    ensures err.None? ==> delete == |actions| && delete + stay == |users|
  {
    actions, delete, stay := [], 0, 0;
    var i := 0;
    while i < |users|
      invariant 0 <= i <= |users|
      invariant forall j | 0 <= j < i :: check(users[j].Email).err.None?
      invariant actions == PlannedActions(users[..i], check)
      invariant delete == |actions| && delete + stay == i
    {
      var u := users[i];
      var answer := check(u.Email);
      PlannedActionsStep(users, i, check);
      match PlanStep(u, answer) {
        case Abort(e) =>
          assert answer.err == Some(e);
          return Some(e), actions, delete, stay;
        case Emit(a) =>
          assert a == DeleteAction(u, answer.name) && !answer.inGroup;
          actions := actions + [a];
          delete := delete + 1;
        case Stay =>
          stay := stay + 1;
      }
      i := i + 1;
    }
    assert users[..i] == users;
    err := None;
  }

  /** The guarded loop ends exactly as the loop as written does, whenever
      the latter does not panic: both are pinned down by the first check
      error, or else by the reference plan. */
  lemma GuardedAgreesWithWritten(users: seq<GitHubUser>, check: MembershipCheck,
                                 err: Option<Error>, actions: seq<Action>, delete: nat, stay: nat)
    requires err.Some? <==> exists i | 0 <= i < |users| :: check(users[i].Email).err.Some?
    requires err.Some? ==>
               exists i | 0 <= i < |users| ::
                 && check(users[i].Email).err == err
                 && forall j | 0 <= j < i :: check(users[j].Email).err.None?
    requires err.None? ==> actions == PlannedActions(users, check)
    requires err.None? ==> delete == |actions| && delete + stay == |users|
    ensures PlanAsWritten(users, check) != Panicked ==>
              PlanAsWritten(users, check) == if err.Some? then Failed(err.value) else Planned(actions, delete, stay)
  {
    PlanAsWrittenPlanned(users, check);
    PlanAsWrittenFailed(users, check);
    match PlanAsWritten(users, check)
    case Panicked =>
    case Failed(e) =>
      var i :| FirstError(users, check, i) && check(users[i].Email).err == Some(e);
      var k :| 0 <= k < |users| && check(users[k].Email).err == err
               && forall j | 0 <= j < k :: check(users[j].Email).err.None?;
      FirstErrorUnique(users, check, i, k);
    case Planned(_, _, _) =>
  }

  /** The loop of sync.go:63-84: in dry-run no `DeleteUser` call at all;
      otherwise one call per action, in order, whatever each call returns.
      The result is the sequence of ids passed to `DeleteUser`. */
  method Apply(actions: seq<Action>, dryRun: bool, deleteUser: DeleteCall) returns (calls: seq<string>)
    ensures dryRun ==> calls == []
    ensures !dryRun ==> calls == Ids(actions)
  {
    calls := [];
    var k := 0;
    while k < |actions|
      invariant 0 <= k <= |actions|
      invariant calls == if dryRun then [] else Ids(actions[..k])
    {
      var a := actions[k];
      if a.actionType == Delete {
        if !dryRun {
          calls := calls + [a.id];
          var err := deleteUser(a.id);
          // a failed delete is skipped: the loop goes on with the next action
        }
      }
      assert actions[..k + 1] == actions[..k] + [a];
      k := k + 1;
    }
    assert actions[..k] == actions;
  }

  /** `Sync`: list the roster (its error is ignored), plan, and apply. A
      check error is returned before any delete; reaching the end returns
      nil whatever the deletes did. */
  method Sync(listing: Result<seq<GitHubUser>>, check: MembershipCheck, dryRun: bool, deleteUser: DeleteCall)
    returns (report: SyncReport)
    ensures report.err.Some? <==>
              exists i | 0 <= i < |Listed(listing)| :: check(Listed(listing)[i].Email).err.Some?
    ensures report.err.Some? ==>
              exists i | 0 <= i < |Listed(listing)| ::
                && check(Listed(listing)[i].Email).err == report.err
                && forall j | 0 <= j < i :: check(Listed(listing)[j].Email).err.None?
    ensures report.err.Some? ==> report.deleteCalls == []
    ensures report.err.None? ==> report.actions == PlannedActions(Listed(listing), check)
    ensures report.err.None? ==>
              report.delete == |report.actions| && report.delete + report.stay == |Listed(listing)|
    ensures dryRun ==> report.deleteCalls == []
    ensures !dryRun && report.err.None? ==> report.deleteCalls == Ids(report.actions)
    ensures PlanAsWritten(Listed(listing), check) != Panicked ==>
              PlanAsWritten(Listed(listing), check) ==
                if report.err.Some? then Failed(report.err.value)
                else Planned(report.actions, report.delete, report.stay)
  {
    var githubUsers := Listed(listing);
    var err, actions, delete, stay := Plan(githubUsers, check);
    GuardedAgreesWithWritten(githubUsers, check, err, actions, delete, stay);
    if err.Some? {
      return SyncReport(err, actions, [], delete, stay);
    }
    var calls := Apply(actions, dryRun, deleteUser);
    return SyncReport(None, actions, calls, delete, stay);
  }
}
