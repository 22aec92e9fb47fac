/** The Azure AD group as azure/azure.go reads it: a memoised member
    listing behind a pointer receiver, and the exact-match membership test
    built on it. */
module AzureGroup {
  import opened Types

  datatype Config = Config(AzureTenantId: string, AzureClientId: string, AzureClientSecret: string, AzureGroup: string)

  datatype AzureUser = AzureUser(Email: string, DisplayName: string)

  /** `users == None` is Go's nil slice: nothing has been loaded yet. */
  datatype Azure = Azure(config: Config, users: Option<seq<AzureUser>>)

  /** A group member as the Graph SDK hands it to the iterator callback. */
  datatype GraphUser = GraphUser(mail: string, displayName: string)

  /** What the Graph API does for one load: the first members request
      fails; or the page iterator cannot be built; or the iterator delivers
      members (a nil entry is a nil `*models.User`) and possibly ends with
      an error. */
  datatype GroupFetch =
    | RequestFailed(err: Error)
    | IteratorFailed(err: Error)
    | Iterated(members: seq<Option<GraphUser>>, iterateErr: Option<Error>)

  /** The outcome of a pointer-receiver call: the caller's state afterwards
      and the result. */
  datatype Call<T> = Call(state: Azure, result: Result<T>)

  const RequestErrorPrefix := "error getting group members: "
  const IteratorErrorPrefix := "error creating page iterator: "

  predicate IsMember(m: Option<GraphUser>)
  {
    m.Some?
  }

  function ToAzureUser(m: Option<GraphUser>): AzureUser
    requires m.Some?
  {
    AzureUser(m.value.mail, m.value.displayName)
  }

  /** The iterator callback: nil members are skipped, the others appended
      in delivery order as {Email: mail, DisplayName: displayName}. */
  function Collect(members: seq<Option<GraphUser>>): (users: seq<AzureUser>)
    ensures |users| <= |members|
    ensures forall i | 0 <= i < |users| ::
              Some(GraphUser(users[i].Email, users[i].DisplayName)) in members
    ensures forall i | 0 <= i < |members| && members[i].Some? :: ToAzureUser(members[i]) in users
  {
    var present := Filter(members, IsMember);
    var users := seq(|present|, i requires 0 <= i < |present| => ToAzureUser(present[i]));
    assert forall i | 0 <= i < |members| && members[i].Some? :: ToAzureUser(members[i]) in users by {
      forall i | 0 <= i < |members| && members[i].Some?
        ensures ToAzureUser(members[i]) in users
      {
        assert IsMember(members[i]);
        var k :| 0 <= k < |present| && present[k] == members[i];
        assert users[k] == ToAzureUser(members[i]);
      }
    }
    users
  }

  /** Members delivered later are listed later. */
  lemma CollectAppend(a: seq<Option<GraphUser>>, b: seq<Option<GraphUser>>)
    ensures Collect(a + b) == Collect(a) + Collect(b)
  {
    FilterAppend(a, b, IsMember);
  }

  /** `Users`: load while the cache is nil. A failed request or iterator
      construction returns a wrapped error and caches nothing; otherwise
      whatever the iterator delivered is cached, even if `Iterate` failed
      and even if it is empty. */
  function Users(az: Azure, fetch: GroupFetch): (c: Call<seq<AzureUser>>)
    ensures c.state.config == az.config
    ensures az.users.Some? ==> c == Call(az, Success(az.users.value))
    ensures az.users.None? && fetch.RequestFailed? ==>
              c == Call(az, Failure(RequestErrorPrefix + fetch.err))
    ensures az.users.None? && fetch.IteratorFailed? ==>
              c == Call(az, Failure(IteratorErrorPrefix + fetch.err))
    ensures az.users.None? && fetch.Iterated? ==>
              c.state.users == Some(Collect(fetch.members)) && c.result == Success(Collect(fetch.members))
  {
    match az.users
    case Some(list) => Call(az, Success(list))
    case None =>
      match fetch
      case RequestFailed(e) => Call(az, Failure(RequestErrorPrefix + e))
      case IteratorFailed(e) => Call(az, Failure(IteratorErrorPrefix + e))
      case Iterated(members, _) =>
        var users := Collect(members);
        Call(az.(users := Some(users)), Success(users))
  }

  /** Some user in `users` has exactly this e-mail. */
  function AnyEmailIs(users: seq<AzureUser>, email: string): (found: bool)
    ensures found <==> exists i | 0 <= i < |users| :: users[i].Email == email
  {
    if |users| == 0 then false
    else if users[0].Email == email then true
    else
      var rest := AnyEmailIs(users[1..], email);
      assert forall i | 1 <= i < |users| :: users[i] == users[1..][i - 1];
      rest
  }

  /** `IsUserInGroup`: a listing error is passed on as (false, err);
      otherwise the answer is whether some listed user's `Email` is
      exactly equal to `email`. */
  function IsUserInGroup(az: Azure, fetch: GroupFetch, email: string): (c: Call<bool>)
    ensures c.state == Users(az, fetch).state
    ensures Users(az, fetch).result.Failure? ==> c.result == Failure(Users(az, fetch).result.error)
    ensures Users(az, fetch).result.Success? ==>
              c.result.Success? &&
              (c.result.value <==> exists u | u in Users(az, fetch).result.value :: u.Email == email)
  {
    var listed := Users(az, fetch);
    match listed.result
    case Failure(e) => Call(listed.state, Failure(e))
    case Success(users) => Call(listed.state, Success(AnyEmailIs(users, email)))
  }

  /** Once a listing is cached, later calls neither refetch nor change it:
      the fetch is ignored. */
  lemma UsersMemoised(az: Azure, first: GroupFetch, later: GroupFetch)
    requires Users(az, first).result.Success?
    ensures Users(Users(az, first).state, later) == Users(az, first)
  {
  }

  /** A failed first fetch leaves the cache nil, so the next call retries
      and behaves like a first call. */
  lemma FailedFetchRetries(az: Azure, first: GroupFetch, next: GroupFetch)
    requires az.users.None? && Users(az, first).result.Failure?
    ensures Users(Users(az, first).state, next) == Users(az, next)
  {
  }

  /** An empty group is cached too: a later call does not fetch again. */
  lemma EmptyGroupIsCached(az: Azure, later: GroupFetch, e: Option<Error>)
    requires az.users.None?
    ensures Users(az, Iterated([], e)).state.users == Some([])
    ensures Users(Users(az, Iterated([], e)).state, later).result == Success([])
  {
  }

  /** An empty member list admits nobody: emptiness is not "allow all". */
  lemma EmptyGroupAdmitsNobody(az: Azure, fetch: GroupFetch, email: string)
    requires Users(az, fetch).result == Success([])
    ensures IsUserInGroup(az, fetch, email).result == Success(false)
  {
  }

  /** The comparison neither folds case nor trims. */
  lemma MatchIsExact(az: Azure)
    requires az.users == Some([AzureUser("alice@example.com", "Alice")])
    ensures IsUserInGroup(az, RequestFailed(""), "alice@example.com").result == Success(true)
    ensures IsUserInGroup(az, RequestFailed(""), "Alice@example.com").result == Success(false)
    ensures IsUserInGroup(az, RequestFailed(""), " alice@example.com").result == Success(false)
  {
    assert "Alice@example.com"[0] != "alice@example.com"[0];
    assert |" alice@example.com"| != |"alice@example.com"|;
  }
}
