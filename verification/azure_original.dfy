/** The first, stand-alone licence audit of azure/original/main.go: it
    splits the enterprise's licensed users by SAML identity, selects the
    ones Azure AD reports inactive, collects private repositories and their
    collaborators, and follows REST pagination through the `Link` header
    (section 3 of RFC 8288) with a deliberately simple parser. */
module LicenceAudit {
  import opened Types
  import opened GoStrings

  datatype User = User(GitHubLogin: string, GitHubName: string, GitHubSAMLNameID: string)

  datatype Repository = Repository(FullName: string, Private: bool, Disabled: bool, Visibility: string)

  datatype Contributor = Contributor(Login: string, RoleName: string)

  datatype RepositoryWithContributors = RepositoryWithContributors(Repo: Repository, Contributor: seq<Contributor>)

  datatype Organization = Organization(Login: string, Description: string)

  // ---------------------------------------------------------------------
  // getNextLink

  /** The relation parameter the parser looks for, quotes included. */
  const NextRel := "rel=\"next\""

  /** The parser either yields a URL ("" meaning "no next page") or panics
      on an out-of-range slice. */
  datatype NextLink = Link(url: string) | SlicePanic

  /** `navLink[1:strings.Index(navLink, ">")]`: Go panics unless the first
      `>` sits at index 1 or later; the URL is what lies between the first
      character and that `>`. Go drops the first byte and this model the
      first character: they differ only when the segment starts with a
      non-ASCII character. */
  function CutAtAngle(t: string): (r: NextLink)
    ensures r.Link? <==> IndexOf(t, '>') >= 1
    ensures r.Link? ==> ('>' !in r.url && 1 + |r.url| < |t| && t[1 + |r.url|] == '>'
                         && r.url == t[1..1 + |r.url|])
  {
    var i := IndexOf(t, '>');
    if i < 1 then SlicePanic
    else
      assert t[1..i] == t[..i][1..];
      Link(t[1..i])
  }

  /** Segment `k` is the first one mentioning `rel="next"`. */
  predicate FirstNextSegment(segments: seq<string>, k: int)
  {
    && 0 <= k < |segments|
    && Contains(segments[k], NextRel)
    && forall j | 0 <= j < k :: !Contains(segments[j], NextRel)
  }

  /** The loop over the comma-separated segments of the header. */
  function NextLinkIn(segments: seq<string>): (r: NextLink)
    ensures (forall k | 0 <= k < |segments| :: !Contains(segments[k], NextRel)) ==> r == Link("")
    ensures r.Link? ==> '>' !in r.url
  {
    if |segments| == 0 then Link("")
    else if Contains(segments[0], NextRel) then CutAtAngle(Trim(segments[0]))
    else
      assert forall k | 1 <= k < |segments| :: segments[k] == segments[1..][k - 1];
      NextLinkIn(segments[1..])
  }

  /** The first segment mentioning `rel="next"` decides, after trimming
      spaces; later segments are never looked at. */
  lemma {:induction false} FirstNextSegmentDecides(segments: seq<string>, k: int)
    requires FirstNextSegment(segments, k)
    ensures NextLinkIn(segments) == CutAtAngle(Trim(segments[k]))
    decreases k
  {
    if k > 0 {
      assert !Contains(segments[0], NextRel);
      assert FirstNextSegment(segments[1..], k - 1) by {
        forall j | 0 <= j < k - 1 ensures !Contains(segments[1..][j], NextRel) {
          assert segments[1..][j] == segments[j + 1];
        }
      }
      FirstNextSegmentDecides(segments[1..], k - 1);
    }
  }

  /** `getNextLink`: split the header at every comma; the first segment
      mentioning `rel="next"` decides; "" when none does. */
  function GetNextLink(header: string): (r: NextLink)
    ensures (forall k | 0 <= k < |Split(header, ',')| :: !Contains(Split(header, ',')[k], NextRel)) ==>
              r == Link("")
    ensures forall k | FirstNextSegment(Split(header, ','), k) ::
              r == CutAtAngle(Trim(Split(header, ',')[k]))
    ensures r.Link? ==> '>' !in r.url
  {
    var segments := Split(header, ',');
    assert forall k | FirstNextSegment(segments, k) :: NextLinkIn(segments) == CutAtAngle(Trim(segments[k])) by {
      forall k | FirstNextSegment(segments, k)
        ensures NextLinkIn(segments) == CutAtAngle(Trim(segments[k]))
      {
        FirstNextSegmentDecides(segments, k);
      }
    }
    NextLinkIn(segments)
  }

  /** The empty header has no next link (it splits to one empty segment). */
  lemma EmptyHeaderHasNoNext()
    ensures GetNextLink("") == Link("")
  {
    assert Split("", ',') == [""];
    assert !OccursAt("", NextRel, 0);
  }

  /** A string that neither starts nor ends with a space trims to itself. */
  lemma TrimUntouched(s: string)
    requires |s| > 0 && s[0] != ' ' && s[|s| - 1] != ' '
    ensures Trim(s) == s
  {
  }

  /** A header of one segment that mentions `rel="next"` is cut after
      trimming. */
  lemma OneNextSegment(h: string)
    requires ',' !in h && Contains(h, NextRel)
    ensures GetNextLink(h) == CutAtAngle(Trim(h))
  {
    SplitWithoutSep(h, ',');
    assert FirstNextSegment([h], 0);
  }

  /** Text ending in `rel="next"` mentions it. */
  lemma EndsWithNextRel(prefix: string)
    ensures Contains(prefix + NextRel, NextRel)
  {
    var h := prefix + NextRel;
    assert h[|prefix|..|prefix| + |NextRel|] == NextRel;
    assert OccursAt(h, NextRel, |prefix|);
  }

  /** The header GitHub sends for a next page. */
  function NextHeader(url: string): string
  {
    "<" + url + ">; " + NextRel
  }

  /** The shape of a next-page header: one segment, trimmed already, and
      its first `>` right after the URL. */
  lemma NextHeaderShape(url: string)
    requires ',' !in url && '>' !in url
    ensures ',' !in NextHeader(url) && Contains(NextHeader(url), NextRel)
    ensures Trim(NextHeader(url)) == NextHeader(url)
    ensures IndexOf(NextHeader(url), '>') == |url| + 1
    ensures NextHeader(url)[1..|url| + 1] == url
  {
    var h := NextHeader(url);
    var tail := ">; " + NextRel;
    var front := "<" + url;
    assert h == front + tail;
    assert h[..|front|] == front;
    assert front[1..] == url;
    assert h[1..|front|] == front[1..];
    assert tail == ">; rel=\"next\"";
    assert ',' !in tail by {
      forall i | 0 <= i < |tail| ensures tail[i] != ',' { }
    }
    EndsWithNextRel("<" + url + ">; ");
    IndexOfIs(h, '>', |url| + 1);
    TrimUntouched(h);
  }

  /** Parsing undoes formatting: a next-page header round-trips to its URL
      whenever the URL holds no comma and no `>`. */
  lemma NextHeaderRoundTrip(url: string)
    requires ',' !in url && '>' !in url
    ensures GetNextLink(NextHeader(url)) == Link(url)
  {
    var h := NextHeader(url);
    NextHeaderShape(url);
    OneNextSegment(h);
  }

  /** A leading space in front of a next segment changes nothing. */
  lemma SpacedSegment(h: string)
    requires ',' !in h && Contains(h, NextRel)
    ensures GetNextLink(" " + h) == GetNextLink(h)
  {
    ContainsAfterPrefix(" ", h, NextRel);
    TrimLeadingSpace(h);
    OneNextSegment(" " + h);
    OneNextSegment(h);
  }

  /** So a next-page header with a leading space still yields its URL. */
  lemma SpacedNextHeader(url: string)
    requires ',' !in url && '>' !in url
    ensures GetNextLink(" " + NextHeader(url)) == Link(url)
  {
    NextHeaderShape(url);
    SpacedSegment(NextHeader(url));
    NextHeaderRoundTrip(url);
  }

  /** With several next segments the first one wins. */
  lemma FirstNextSegmentWins(a: string, b: string)
    requires Contains(a, NextRel) && ',' !in a
    ensures GetNextLink(a + "," + b) == CutAtAngle(Trim(a))
  {
    var h := a + "," + b;
    assert h[..|a|] == a;
    IndexOfIs(h, ',', |a|);
    assert h[|a| + 1..] == b;
    assert FirstNextSegment(Split(h, ','), 0);
  }

  /** A next segment whose `>` comes first panics the parser. */
  lemma AngleFirstPanics(h: string)
    requires ',' !in h && Contains(h, NextRel)
    requires |h| > 0 && h[0] == '>' && h[|h| - 1] != ' '
    ensures GetNextLink(h) == SlicePanic
  {
    OneNextSegment(h);
    TrimUntouched(h);
    IndexOfIs(h, '>', 0);
  }

  /** For instance `>; rel="next"`, a segment that lost its `<url`. */
  lemma LeadingAngleIsSlicePanic()
    ensures GetNextLink(">; " + NextRel) == SlicePanic
  {
    var h := ">; " + NextRel;
    assert h == ">; rel=\"next\"";
    assert ',' !in h by {
      forall i | 0 <= i < |h| ensures h[i] != ',' { }
    }
    EndsWithNextRel(">; ");
    AngleFirstPanics(h);
  }

  // ---------------------------------------------------------------------
  // The licensed-user partition and the removal selection of main

  predicate HasSamlId(u: User)
  {
    u.GitHubSAMLNameID != ""
  }

  predicate LacksSamlId(u: User)
  {
    u.GitHubSAMLNameID == ""
  }

  /** The two halves of the partition: each holds only its kind of user,
      and together they hold every user exactly as often as the input. */
  lemma SamlPartition(licensed: seq<User>)
    ensures multiset(Filter(licensed, HasSamlId)) + multiset(Filter(licensed, LacksSamlId)) == multiset(licensed)
    ensures forall u | u in Filter(licensed, HasSamlId) :: u.GitHubSAMLNameID != ""
    ensures forall u | u in Filter(licensed, LacksSamlId) :: u.GitHubSAMLNameID == ""
  {
    FilterSplits(licensed, HasSamlId, LacksSamlId);
    var saml := Filter(licensed, HasSamlId);
    var outside := Filter(licensed, LacksSamlId);
    forall u | u in saml ensures HasSamlId(u) {
      var j :| 0 <= j < |saml| && saml[j] == u;
    }
    forall u | u in outside ensures LacksSamlId(u) {
      var j :| 0 <= j < |outside| && outside[j] == u;
    }
  }

  /** One more user goes to exactly one of the two halves. */
  lemma PartitionStep(licensed: seq<User>, i: nat)
    requires i < |licensed|
    ensures Filter(licensed[..i + 1], HasSamlId) ==
              Filter(licensed[..i], HasSamlId) + (if licensed[i].GitHubSAMLNameID != "" then [licensed[i]] else [])
    ensures Filter(licensed[..i + 1], LacksSamlId) ==
              Filter(licensed[..i], LacksSamlId) + (if licensed[i].GitHubSAMLNameID == "" then [licensed[i]] else [])
  {
    assert licensed[..i + 1] == licensed[..i] + [licensed[i]];
    FilterSnoc(licensed[..i], licensed[i], HasSamlId);
    FilterSnoc(licensed[..i], licensed[i], LacksSamlId);
  }

  /** The loop of lines 132-138 of `main`: users with a SAML name id are
      the company's, the others outside collaborators; order is kept. */
  method PartitionBySaml(licensed: seq<User>) returns (samlUsers: seq<User>, outsideUsers: seq<User>)
    ensures samlUsers == Filter(licensed, HasSamlId)
    ensures outsideUsers == Filter(licensed, LacksSamlId)
    ensures multiset(samlUsers) + multiset(outsideUsers) == multiset(licensed)
    ensures forall u | u in samlUsers :: u.GitHubSAMLNameID != ""
    ensures forall u | u in outsideUsers :: u.GitHubSAMLNameID == ""
  {
    samlUsers, outsideUsers := [], [];
    var i := 0;
    while i < |licensed|
      invariant 0 <= i <= |licensed|
      invariant samlUsers == Filter(licensed[..i], HasSamlId)
      invariant outsideUsers == Filter(licensed[..i], LacksSamlId)
    {
      var user := licensed[i];
      PartitionStep(licensed, i);
      if user.GitHubSAMLNameID != "" {
        samlUsers := samlUsers + [user];
      } else {
        outsideUsers := outsideUsers + [user];
      }
      i := i + 1;
    }
    assert licensed[..i] == licensed;
    SamlPartition(licensed);
  }

  /** The active check answered "inactive" without error. */
  function Inactive(isActive: string -> Result<bool>): User -> bool
  {
    (u: User) => isActive(u.GitHubSAMLNameID) == Success(false)
  }

  /** Lines 156-168: a user whose check fails is skipped (not removed, not
      fatal); a user reported inactive is selected for removal. */
  method SelectRemovals(samlUsers: seq<User>, isActive: string -> Result<bool>) returns (removeUsers: seq<User>)
    ensures removeUsers == Filter(samlUsers, Inactive(isActive))
    ensures forall u :: u in removeUsers <==> u in samlUsers && isActive(u.GitHubSAMLNameID) == Success(false)
  {
    removeUsers := [];
    var i := 0;
    while i < |samlUsers|
      invariant 0 <= i <= |samlUsers|
      invariant removeUsers == Filter(samlUsers[..i], Inactive(isActive))
    {
      var user := samlUsers[i];
      assert samlUsers[..i + 1] == samlUsers[..i] + [user];
      FilterSnoc(samlUsers[..i], user, Inactive(isActive));
      var active := isActive(user.GitHubSAMLNameID);
      if active.Success? && !active.value {
        removeUsers := removeUsers + [user];
      }
      i := i + 1;
    }
    assert samlUsers[..i] == samlUsers;
    forall u ensures u in removeUsers <==> u in samlUsers && Inactive(isActive)(u) {
      if u in samlUsers && Inactive(isActive)(u) {
        var j :| 0 <= j < |samlUsers| && samlUsers[j] == u;
      }
      if u in removeUsers {
        var j :| 0 <= j < |removeUsers| && removeUsers[j] == u;
      }
    }
  }

  /** `isContributor`: some collaborator's login equals the user's GitHub
      login exactly. */
  function IsContributor(user: User, repo: RepositoryWithContributors): (found: bool)
    ensures found <==> exists i | 0 <= i < |repo.Contributor| :: repo.Contributor[i].Login == user.GitHubLogin
    decreases |repo.Contributor|
  {
    if |repo.Contributor| == 0 then false
    else if repo.Contributor[0].Login == user.GitHubLogin then true
    else
      var rest := RepositoryWithContributors(repo.Repo, repo.Contributor[1..]);
      assert forall i | 1 <= i < |repo.Contributor| :: repo.Contributor[i] == rest.Contributor[i - 1];
      IsContributor(user, rest)
  }

  // ---------------------------------------------------------------------
  // getGithubPrivateReposForOrgs

  predicate IsPrivate(r: Repository)
  {
    r.Private
  }

  /** The repositories of every organisation, organisation by organisation
      (meaningful when every listing succeeded). */
  function AllRepos(orgs: seq<Organization>, reposOf: Organization -> Result<seq<Repository>>): seq<Repository>
  {
    if |orgs| == 0 then []
    else (if reposOf(orgs[0]).Success? then reposOf(orgs[0]).value else []) + AllRepos(orgs[1..], reposOf)
  }

  /** Organisation `i` is the first whose listing fails. */
  predicate FirstFailure(orgs: seq<Organization>, reposOf: Organization -> Result<seq<Repository>>, i: int)
  {
    && 0 <= i < |orgs|
    && reposOf(orgs[i]).Failure?
    && forall j | 0 <= j < i :: reposOf(orgs[j]).Success?
  }

  lemma FirstFailureShift(orgs: seq<Organization>, reposOf: Organization -> Result<seq<Repository>>, i: int)
    requires |orgs| > 0 && reposOf(orgs[0]).Success?
    requires FirstFailure(orgs[1..], reposOf, i)
    ensures FirstFailure(orgs, reposOf, i + 1) && orgs[i + 1] == orgs[1..][i]
  {
    forall j | 0 <= j < i + 1 ensures reposOf(orgs[j]).Success? {
      if j > 0 { assert orgs[j] == orgs[1..][j - 1]; }
    }
  }

  /** `getGithubPrivateReposForOrgs` with `getGitRepos` as `reposOf`: the
      first failing organisation aborts with its error and no result;
      otherwise exactly the private repositories, in org-then-repo order. */
  function PrivateRepos(orgs: seq<Organization>, reposOf: Organization -> Result<seq<Repository>>): (r: Result<seq<Repository>>)
    ensures r.Failure? <==> exists i | 0 <= i < |orgs| :: reposOf(orgs[i]).Failure?
    ensures r.Failure? ==> exists i :: FirstFailure(orgs, reposOf, i) && reposOf(orgs[i]).error == r.error
    ensures r.Success? ==> r.value == Filter(AllRepos(orgs, reposOf), IsPrivate)
  {
    if |orgs| == 0 then Success([])
    else
      match reposOf(orgs[0])
      case Failure(e) =>
        assert FirstFailure(orgs, reposOf, 0);
        Failure(e)
      case Success(repos) =>
        var rest := PrivateRepos(orgs[1..], reposOf);
        assert forall i | 1 <= i < |orgs| :: orgs[i] == orgs[1..][i - 1];
        match rest
        case Failure(e) =>
          var i :| FirstFailure(orgs[1..], reposOf, i) && reposOf(orgs[1..][i]).error == e;
          FirstFailureShift(orgs, reposOf, i);
          Failure(e)
        case Success(privates) =>
          FilterAppend(repos, AllRepos(orgs[1..], reposOf), IsPrivate);
          Success(Filter(repos, IsPrivate) + privates)
  }

  // ---------------------------------------------------------------------
  // getGithubRepoContributors

  /** One HTTP response of the collaborators endpoint: status code, the
      decoded body (a read or JSON error is a `Failure`), the `Link` header. */
  datatype HttpResponse = HttpResponse(status: int, body: Result<seq<Contributor>>, link: string)

  /** How the fetch ends: Go's `([]Contributor, error)` pair, with `None`
      for a nil slice or nil error, or the `getNextLink` panic. */
  datatype Fetched = Returned(contributors: Option<seq<Contributor>>, err: Option<Error>) | LinkPanic

  /** After this answer the loop asks for another page. */
  predicate FollowsNext(answer: Result<HttpResponse>)
  {
    && answer.Success?
    && answer.value.status == 200
    && answer.value.body.Success?
    && GetNextLink(answer.value.link).Link?
    && GetNextLink(answer.value.link).url != ""
  }

  /** The server's answers end the pagination at some point. */
  predicate EndsPagination(answers: seq<Result<HttpResponse>>)
  {
    exists i | 0 <= i < |answers| :: !FollowsNext(answers[i])
  }

  lemma EndsPaginationTail(answers: seq<Result<HttpResponse>>)
    requires EndsPagination(answers) && FollowsNext(answers[0])
    ensures EndsPagination(answers[1..])
  {
    var i :| 0 <= i < |answers| && !FollowsNext(answers[i]);
    assert i != 0;
    assert !FollowsNext(answers[1..][i - 1]);
  }

  /** The position of the last answer the loop reads: the first one after
      which it does not ask for another page. */
  function LastRead(answers: seq<Result<HttpResponse>>): nat
    requires EndsPagination(answers)
  {
    FirstFailing(answers, FollowsNext)
  }

  /** The collaborators one answer contributes: its decoded body, if any. */
  function BodyOf(answer: Result<HttpResponse>): seq<Contributor>
  {
    if answer.Success? && answer.value.body.Success? then answer.value.body.value else []
  }

  /** The collaborators of a run of answers, page after page. */
  function Bodies(answers: seq<Result<HttpResponse>>): seq<Contributor>
  {
    if |answers| == 0 then [] else BodyOf(answers[0]) + Bodies(answers[1..])
  }

  /** The answers the loop reads: up to and including the last one. */
  function ReadAnswers(answers: seq<Result<HttpResponse>>): seq<Result<HttpResponse>>
    requires EndsPagination(answers)
  {
    UpToFirstFailing(answers, FollowsNext)
  }

  /** After an answer that asks for another page, the loop reads that
      answer and then what it reads from the rest. */
  lemma ReadAnswersStep(answers: seq<Result<HttpResponse>>)
    requires EndsPagination(answers) && FollowsNext(answers[0])
    ensures EndsPagination(answers[1..])
    ensures ReadAnswers(answers) == [answers[0]] + ReadAnswers(answers[1..])
  {
    EndsPaginationTail(answers);
    FirstFailingStep(answers, FollowsNext);
  }

  /** The collaborators of the answers read: the first answer's, then the
      rest's when the first asks for another page. */
  lemma BodiesStep(answers: seq<Result<HttpResponse>>)
    requires EndsPagination(answers)
    ensures !FollowsNext(answers[0]) ==> Bodies(ReadAnswers(answers)) == BodyOf(answers[0])
    ensures FollowsNext(answers[0]) ==>
              EndsPagination(answers[1..]) &&
              Bodies(ReadAnswers(answers)) == BodyOf(answers[0]) + Bodies(ReadAnswers(answers[1..]))
  {
    if FollowsNext(answers[0]) {
      ReadAnswersStep(answers);
      var rest := ReadAnswers(answers[1..]);
      assert ([answers[0]] + rest)[1..] == rest;
    } else {
      assert ReadAnswers(answers) == [answers[0]];
      assert Bodies([answers[0]]) == BodyOf(answers[0]) + Bodies([]);
    }
  }

  /** The loop of lines 362-394 as written, from the answer to the current
      GET on, with `acc` the collaborators read so far. A non-200 status
      returns `err`, which is nil at that point. */
  function ContributorsAsWritten(answers: seq<Result<HttpResponse>>, acc: seq<Contributor>): (f: Fetched)
    requires EndsPagination(answers)
    ensures var last := answers[LastRead(answers)];
            f == Returned(None, None) <==> last.Success? && last.value.status != 200
    ensures var last := answers[LastRead(answers)];
            f.Returned? && f.err.Some? <==>
              last.Failure? || (last.value.status == 200 && last.value.body.Failure?)
    ensures var last := answers[LastRead(answers)];
            f == LinkPanic <==>
              last.Success? && last.value.status == 200 && last.value.body.Success?
              && GetNextLink(last.value.link) == SlicePanic
    ensures var last := answers[LastRead(answers)];
            f.Returned? && f.err.Some? ==>
              f.contributors.None? && f.err == Some(if last.Failure? then last.error else last.value.body.error)
    decreases |answers|
  {
    match answers[0]
    case Failure(e) => Returned(None, Some(e))
    case Success(resp) =>
      if resp.status != 200 then Returned(None, None)
      else if resp.body.Failure? then Returned(None, Some(resp.body.error))
      else
        var read := acc + resp.body.value;
        match GetNextLink(resp.link)
        case SlicePanic => LinkPanic
        case Link(next) =>
          if next == "" then Returned(Some(read), None)
          else
            EndsPaginationTail(answers);
            ContributorsAsWritten(answers[1..], read)
  }

  /** A page of collaborators followed by a 404: the function returns
      (nil, nil), so the collaborators already read are dropped and the
      caller sees no error. */
  lemma NonOkPageDropsContributors(c: Contributor)
    ensures var answers := [Success(HttpResponse(200, Success([c]), NextHeader("u"))),
                            Success(HttpResponse(404, Success([]), ""))];
            && EndsPagination(answers)
            && ContributorsAsWritten(answers, []) == Returned(None, None)
  {
    var answers := [Success(HttpResponse(200, Success([c]), NextHeader("u"))),
                    Success(HttpResponse(404, Success([]), ""))];
    NextHeaderRoundTrip("u");
    assert !FollowsNext(answers[1]);
    assert answers[1..] == [answers[1]];
    assert !FollowsNext(answers[1..][0]);
  }

  /** The message the loop logs for a non-200 status. */
  const StatusError := "Unable to read repo contributors"

  /** The loop with the evidently intended error on a non-200 status. */
  function Contributors(answers: seq<Result<HttpResponse>>, acc: seq<Contributor>): (f: Fetched)
    requires EndsPagination(answers)
    ensures f.Returned? ==> (f.contributors.Some? <==> f.err.None?)
    ensures ContributorsAsWritten(answers, acc) != Returned(None, None) ==>
              f == ContributorsAsWritten(answers, acc)
    ensures ContributorsAsWritten(answers, acc) == Returned(None, None) ==>
              f == Returned(None, Some(StatusError))
    decreases |answers|
  {
    match answers[0]
    case Failure(e) => Returned(None, Some(e))
    case Success(resp) =>
      if resp.status != 200 then Returned(None, Some(StatusError))
      else if resp.body.Failure? then Returned(None, Some(resp.body.error))
      else
        var read := acc + resp.body.value;
        match GetNextLink(resp.link)
        case SlicePanic => LinkPanic
        case Link(next) =>
          if next == "" then Returned(Some(read), None)
          else
            EndsPaginationTail(answers);
            Contributors(answers[1..], read)
  }

  /** An answer that asks for another page adds its collaborators and
      hands on to the rest. */
  lemma ContributorsAsWrittenFollows(answers: seq<Result<HttpResponse>>, acc: seq<Contributor>)
    requires EndsPagination(answers) && FollowsNext(answers[0])
    ensures EndsPagination(answers[1..])
    ensures ContributorsAsWritten(answers, acc) ==
              ContributorsAsWritten(answers[1..], acc + answers[0].value.body.value)
  {
    EndsPaginationTail(answers);
  }

  /** The last answer read completes the fetch with its own collaborators. */
  lemma ContributorsAsWrittenLast(answers: seq<Result<HttpResponse>>, acc: seq<Contributor>)
    requires EndsPagination(answers) && !FollowsNext(answers[0])
    ensures var f := ContributorsAsWritten(answers, acc);
            f.Returned? && f.contributors.Some? ==> f.contributors.value == acc + BodyOf(answers[0])
  {
  }

  /** A completed fetch returns what was already read followed by the
      collaborators of every page it read, in page order. */
  lemma {:induction false} ContributorsReadPages(answers: seq<Result<HttpResponse>>, acc: seq<Contributor>)
    requires EndsPagination(answers)
    ensures var f := ContributorsAsWritten(answers, acc);
            f.Returned? && f.contributors.Some? ==> f.contributors.value == acc + Bodies(ReadAnswers(answers))
    decreases |answers|, 1
  {
    if FollowsNext(answers[0]) {
      ReadPagesAfterNext(answers, acc);
    } else {
      BodiesStep(answers);
      ContributorsAsWrittenLast(answers, acc);
    }
  }

  /** The inductive step of `ContributorsReadPages`: an answer that asks for
      another page puts its collaborators before those of the rest. */
  lemma {:induction false} ReadPagesAfterNext(answers: seq<Result<HttpResponse>>, acc: seq<Contributor>)
    requires EndsPagination(answers) && FollowsNext(answers[0])
    ensures var f := ContributorsAsWritten(answers, acc);
            f.Returned? && f.contributors.Some? ==> f.contributors.value == acc + Bodies(ReadAnswers(answers))
    decreases |answers|, 0
  {
    FollowedPage(answers, acc);
    ContributorsReadPages(answers[1..], acc + BodyOf(answers[0]));
  }

  /** What one followed page contributes to the fetch and to the pages read. */
  lemma FollowedPage(answers: seq<Result<HttpResponse>>, acc: seq<Contributor>)
    requires EndsPagination(answers) && FollowsNext(answers[0])
    ensures EndsPagination(answers[1..])
    ensures ContributorsAsWritten(answers, acc) == ContributorsAsWritten(answers[1..], acc + BodyOf(answers[0]))
    ensures Bodies(ReadAnswers(answers)) == BodyOf(answers[0]) + Bodies(ReadAnswers(answers[1..]))
  {
    ContributorsAsWrittenFollows(answers, acc);
    BodiesStep(answers);
  }

  /** The corrected loop returns the same collaborators. */
  lemma CorrectedReadsPages(answers: seq<Result<HttpResponse>>, acc: seq<Contributor>)
    requires EndsPagination(answers)
    ensures var f := Contributors(answers, acc);
            f.Returned? && f.contributors.Some? ==> f.contributors.value == acc + Bodies(ReadAnswers(answers))
  {
    ContributorsReadPages(answers, acc);
  }
}
