/** The older roster variant of github/github.go: `Users` has a value
    receiver, so whatever `loadMembers` stores lands in a copy and the
    caller's `GitHub` never caches a listing. Its users carry no node id. */
module GitHubRosterValue {
  import opened Types
  import opened EnterpriseQuery
  import GitHubRoster

  /** A roster member of this variant: login and SAML name id only. */
  datatype GitHubUser = GitHubUser(Login: string, Email: string)

  datatype GitHub = GitHub(config: GitHubRoster.Config, userlist: Option<seq<GitHubUser>>)

  /** A value-receiver call: the caller's state after it, and the result. */
  datatype Call = Call(caller: GitHub, result: Result<seq<GitHubUser>>)

  /** `New`: the configuration kept, no listing cached. */
  function New(config: GitHubRoster.Config): (g: GitHub)
    ensures g.config == config && g.userlist.None?
  {
    GitHub(config, None)
  }

  /** The users of a run of pages, edge by edge, in page order. */
  function UsersOf(pages: seq<Page>): seq<GitHubUser>
  {
    var edges := AllEdges(pages);
    seq(|edges|, i requires 0 <= i < |edges| => GitHubUser(edges[i].login, edges[i].nameId))
  }

  /** `loadMembers` on the receiver's copy: the listing of a completed walk,
      or the first query error. */
  function LoadMembers(answers: seq<Result<Page>>): (r: Result<seq<GitHubUser>>)
    requires EndsPaging(answers)
    ensures r.Failure? <==> QueryAll(answers).err.Some?
    ensures r.Failure? ==> r.error == QueryAll(answers).err.value
    ensures r.Success? ==>
              |r.value| == |AllEdges(QueryAll(answers).pages)|
              && forall i | 0 <= i < |r.value| ::
                   r.value[i].Login == AllEdges(QueryAll(answers).pages)[i].login
                   && r.value[i].Email == AllEdges(QueryAll(answers).pages)[i].nameId
  {
    var w := QueryAll(answers);
    match w.err
    case Some(e) => Failure(e)
    case None => Success(UsersOf(w.pages))
  }

  /** `Users`: the copy loads while its `userlist` is nil, and the copy is
      discarded on return, so the caller is unchanged. */
  function Users(g: GitHub, answers: seq<Result<Page>>): (c: Call)
    requires g.userlist.None? ==> EndsPaging(answers)
    ensures c.caller == g
    ensures g.userlist.Some? ==> c.result == Success(g.userlist.value)
    ensures g.userlist.None? ==> c.result == LoadMembers(answers)
  {
    var copy := g;
    match copy.userlist
    case Some(list) => Call(g, Success(list))
    case None => Call(g, LoadMembers(answers))
  }

  /** `DeleteUser` of this variant is a stub that reports success. */
  function DeleteUser(g: GitHub, user: GitHubUser): (err: Option<Error>)
    ensures err.None?
  {
    None
  }

  /** `DryRun`: the configured switch. */
  function DryRun(g: GitHub): (dryRun: bool)
    ensures dryRun == g.config.DryRun
  {
    g.config.DryRun
  }

  /** Nothing ever caches: after any number of calls a fresh client is still
      empty, and the next call's result depends on that call's answers only. */
  lemma {:induction false} EveryCallReloads(config: GitHubRoster.Config, runs: seq<seq<Result<Page>>>, next: seq<Result<Page>>)
    requires forall k | 0 <= k < |runs| :: EndsPaging(runs[k])
    requires EndsPaging(next)
    ensures AfterCalls(New(config), runs).userlist.None?
    ensures Users(AfterCalls(New(config), runs), next).result == LoadMembers(next)
  {
    AfterCallsKeepsCaller(New(config), runs);
  }

  /** The caller's state after calling `Users` once per answer sequence. */
  function AfterCalls(g: GitHub, runs: seq<seq<Result<Page>>>): GitHub
    requires g.userlist.None? ==> forall k | 0 <= k < |runs| :: EndsPaging(runs[k])
  {
    if |runs| == 0 then g else AfterCalls(Users(g, runs[0]).caller, runs[1..])
  }

  lemma {:induction false} AfterCallsKeepsCaller(g: GitHub, runs: seq<seq<Result<Page>>>)
    requires g.userlist.None? ==> forall k | 0 <= k < |runs| :: EndsPaging(runs[k])
    ensures AfterCalls(g, runs) == g
  {
    if |runs| > 0 {
      AfterCallsKeepsCaller(Users(g, runs[0]).caller, runs[1..]);
    }
  }

  /** Unlike github/user.go, two calls on one client can disagree: a second
      call with a different server answer returns the new listing. */
  lemma SecondCallSeesNewListing(config: GitHubRoster.Config, e1: Edge, e2: Edge)
    requires e1.login != e2.login
    ensures var a := [Success(Page("", "", "", [e1], false, ""))];
            var b := [Success(Page("", "", "", [e2], false, ""))];
            && EndsPaging(a) && EndsPaging(b)
            && Users(Users(New(config), a).caller, b).result != Users(New(config), a).result
  {
    var pa := Page("", "", "", [e1], false, "");
    var pb := Page("", "", "", [e2], false, "");
    assert StopsPaging([Success(pa)][0]);
    assert StopsPaging([Success(pb)][0]);
    assert [pa][1..] == [] && [pb][1..] == [];
    assert AllEdges([pa]) == [e1];
    assert AllEdges([pb]) == [e2];
    assert QueryAll([Success(pa)]).pages == [pa];
    assert QueryAll([Success(pb)]).pages == [pb];
    assert LoadMembers([Success(pa)]).value[0].Login == e1.login;
    assert LoadMembers([Success(pb)]).value[0].Login == e2.login;
  }
}
