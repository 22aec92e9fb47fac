/** The GitHub enterprise roster as github/user.go reads it: a memoised
    member listing kept in the `GitHub` value behind a pointer receiver,
    so a load persists in the caller's state. */
module GitHubRoster {
  import opened Types
  import opened EnterpriseQuery

  datatype Config = Config(Enterprise: string, Token: string, DryRun: bool)

  /** A roster member: node id, login, and the SAML name id used as e-mail. */
  datatype GitHubUser = GitHubUser(ID: string, Login: string, Email: string)

  /** `userlist == None` is Go's nil slice: nothing has been loaded yet. */
  datatype GitHub = GitHub(config: Config, userlist: Option<seq<GitHubUser>>, enterpriseId: string)

  /** The outcome of a pointer-receiver call: the caller's state afterwards
      and the `([]GitHubUser, error)` pair. */
  datatype Call = Call(state: GitHub, result: Result<seq<GitHubUser>>)

  /** `New`: no listing loaded, no enterprise id known. */
  function New(config: Config): (g: GitHub)
    ensures g.config == config && g.userlist.None?
  {
    GitHub(config, None, "")
  }

  function UserOf(e: Edge): GitHubUser
  {
    GitHubUser(e.userId, e.login, e.nameId)
  }

  /** The users of a run of pages, edge by edge, in page order. */
  function UsersOf(pages: seq<Page>): seq<GitHubUser>
  {
    var edges := AllEdges(pages);
    seq(|edges|, i requires 0 <= i < |edges| => UserOf(edges[i]))
  }

  /** `loadMembers`: query page after page; every answered page overwrites
      `enterpriseId`; a query error returns at once, leaving `userlist`
      as it was; a completed run stores the list, empty or not. */
  function LoadMembers(g: GitHub, answers: seq<Result<Page>>): (c: Call)
    requires EndsPaging(answers)
    ensures c.state.config == g.config
    ensures c.result.Failure? <==> QueryAll(answers).err.Some?
    ensures c.result.Failure? ==> c.result.error == QueryAll(answers).err.value
    ensures c.result.Failure? ==> c.state.userlist == g.userlist
    ensures c.result.Success? ==> c.state.userlist == Some(c.result.value)
    ensures c.result.Success? ==>
              |c.result.value| == |AllEdges(QueryAll(answers).pages)|
              && forall i | 0 <= i < |c.result.value| ::
                   var e := AllEdges(QueryAll(answers).pages)[i];
                   c.result.value[i] == GitHubUser(e.userId, e.login, e.nameId)
    ensures var pages := QueryAll(answers).pages;
            c.state.enterpriseId == if |pages| == 0 then g.enterpriseId
                                    else pages[|pages| - 1].enterpriseId
  {
    var w := QueryAll(answers);
    var eid := if |w.pages| == 0 then g.enterpriseId else w.pages[|w.pages| - 1].enterpriseId;
    match w.err
    case Some(e) => Call(g.(enterpriseId := eid), Failure(e))
    case None =>
      var users := UsersOf(w.pages);
      Call(g.(enterpriseId := eid, userlist := Some(users)), Success(users))
  }

  /** `Users`: load only while nothing is cached; afterwards hand out the
      cached list. `answers` is consulted only when a load happens. */
  function Users(g: GitHub, answers: seq<Result<Page>>): (c: Call)
    requires g.userlist.None? ==> EndsPaging(answers)
    ensures g.userlist.Some? ==> c == Call(g, Success(g.userlist.value))
    ensures g.userlist.None? ==> c == LoadMembers(g, answers)
    ensures c.result.Success? ==> c.state.userlist == Some(c.result.value)
    ensures c.result.Failure? ==> c.state.userlist.None?
  {
    match g.userlist
    case Some(list) => Call(g, Success(list))
    case None => LoadMembers(g, answers)
  }

  /** `DryRun`: the configured switch, whatever has been loaded. */
  function DryRun(g: GitHub): (dryRun: bool)
    ensures dryRun == g.config.DryRun
  {
    g.config.DryRun
  }

  /** `EnterpriseId`: the id the last load stored, "" before any load. */
  function EnterpriseId(g: GitHub): (id: string)
    ensures id == g.enterpriseId
  {
    g.enterpriseId
  }

  /** `InviteUser` is a stub: value receiver, so it cannot change the
      caller's state, and it reports success without doing anything. */
  function InviteUser(g: GitHub, email: string, name: string): (err: Option<Error>)
    ensures err.None?
  {
    None
  }

  /** Once a load has succeeded, every later call returns the same list and
      leaves the state alone, whatever the server would now answer. */
  lemma UsersMemoised(g: GitHub, first: seq<Result<Page>>, later: seq<Result<Page>>)
    requires g.userlist.None? ==> EndsPaging(first)
    requires Users(g, first).result.Success?
    ensures Users(Users(g, first).state, later) == Users(g, first)
  {
  }

  /** A failed load caches nothing, so the next call queries again and
      behaves exactly like a first call on a state with nothing cached. */
  lemma FailedLoadRetries(g: GitHub, first: seq<Result<Page>>, next: seq<Result<Page>>)
    requires g.userlist.None? && EndsPaging(first) && EndsPaging(next)
    requires Users(g, first).result.Failure?
    ensures Users(Users(g, first).state, next).result == Users(g, next).result
  {
  }

  /** An enterprise with no external identities is cached as an empty,
      non-nil list after one page. */
  lemma EmptyRosterIsCached(g: GitHub, p: Page)
    requires g.userlist.None? && p.edges == [] && !p.hasNextPage
    ensures EndsPaging([Success(p)]) && Users(g, [Success(p)]).state.userlist == Some([])
  {
    assert StopsPaging([Success(p)][0]);
    assert QueryAll([Success(p)]).pages == [p];
    assert [p][1..] == [];
    assert AllEdges([p]) == [];
  }

  /** The dry-run flag is the configured one, before and after any load. */
  lemma DryRunIsConfigured(config: Config, answers: seq<Result<Page>>)
    requires EndsPaging(answers)
    ensures DryRun(New(config)) == config.DryRun
    ensures DryRun(Users(New(config), answers).state) == config.DryRun
  {
  }

  /** `EnterpriseId` reports the id from the last page the load read, also
      when a later query failed. */
  lemma {:induction false} EnterpriseIdOfLastPage(g: GitHub, p: Page, e: Error)
    requires g.userlist.None? && p.hasNextPage
    ensures EndsPaging([Success(p), Failure(e)])
    ensures EnterpriseId(Users(g, [Success(p), Failure(e)]).state) == p.enterpriseId
    ensures Users(g, [Success(p), Failure(e)]).result == Failure(e)
  {
    var answers := [Success(p), Failure(e)];
    assert StopsPaging(answers[1]);
    assert answers[1..] == [Failure(e)];
    assert StopsPaging(answers[1..][0]);
  }
}
