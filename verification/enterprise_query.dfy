/** The enterprise `externalIdentities` GraphQL query that every
    `loadMembers` variant sends, and the cursor-paged loop around it.
    github/user.go:100-135, github/github.go:100-128 and
    github/original/github.go:59-96 share the query variables and the cursor
    loop; the fields each selects differ (github/user.go also selects the
    enterprise id and the user id, lines 67 and 80), and this model keeps
    all of them on `Page` and `Edge`. */
module EnterpriseQuery {
  import opened Types

  /** Page size sent as `first` (`window := 25`). */
  const Window: nat := 25

  /** One `Edges[...]` element: the SAML identity and the user behind it. */
  datatype Edge = Edge(
    userId: string,        // Node.User.ID
    login: string,         // Node.User.Login
    name: string,          // Node.User.Name
    contributions: int,    // Node.User.ContributionsCollection.ContributionCalendar.TotalContributions
    nameId: string)        // Node.SamlIdentity.NameId

  /** One answer to the query. */
  datatype Page = Page(
    enterpriseId: string,
    slug: string,
    name: string,
    edges: seq<Edge>,
    hasNextPage: bool,
    endCursor: string)

  /** What one run of the paging loop did: the pages it read, the `after`
      cursor it sent with each query (one per query), and the query error
      that ended it, if any. */
  datatype Walk = Walk(pages: seq<Page>, cursors: seq<Option<string>>, err: Option<Error>)

  /** The loop leaves after this answer: it is an error or the last page. */
  predicate StopsPaging(answer: Result<Page>)
  {
    answer.Failure? || !answer.value.hasNextPage
  }

  /** The server's successive answers end the paging at some point. The
      source loops forever otherwise, which the model does not cover. */
  predicate EndsPaging(answers: seq<Result<Page>>)
  {
    exists i | 0 <= i < |answers| :: StopsPaging(answers[i])
  }

  /** The loop from the query that sends `after`, with `answers[k]` the
      server's answer to the k-th query from here. */
  function WalkFrom(answers: seq<Result<Page>>, after: Option<string>): (w: Walk)
    requires EndsPaging(answers)
    ensures |w.cursors| == |w.pages| + (if w.err.Some? then 1 else 0)
    ensures 0 < |w.cursors| <= |answers|
    ensures w.cursors[0] == after
    ensures forall k | 0 < k < |w.cursors| :: w.cursors[k] == Some(w.pages[k - 1].endCursor)
    ensures forall k | 0 <= k < |w.pages| :: answers[k] == Success(w.pages[k])
    ensures forall k | 0 <= k < |w.pages| - 1 :: w.pages[k].hasNextPage
    ensures w.err.None? ==> |w.pages| > 0 && !w.pages[|w.pages| - 1].hasNextPage
    ensures w.err.Some? ==> answers[|w.pages|] == Failure(w.err.value)
    ensures w.err.Some? ==> forall k | 0 <= k < |w.pages| :: w.pages[k].hasNextPage
    decreases |answers|
  {
    match answers[0]
    case Failure(e) => Walk([], [after], Some(e))
    case Success(p) =>
      if !p.hasNextPage then Walk([p], [after], None)
      else
        assert EndsPaging(answers[1..]) by {
          var i :| 0 <= i < |answers| && StopsPaging(answers[i]);
          assert i != 0;
          assert StopsPaging(answers[1..][i - 1]);
        }
        var w := WalkFrom(answers[1..], Some(p.endCursor));
        Walk([p] + w.pages, [after] + w.cursors, w.err)
  }

  /** The whole loop: the first query sends a nil `after`. */
  function QueryAll(answers: seq<Result<Page>>): Walk
    requires EndsPaging(answers)
  {
    WalkFrom(answers, None)
  }

  /** The edges of all pages, page after page. */
  function AllEdges(pages: seq<Page>): seq<Edge>
  {
    if |pages| == 0 then [] else pages[0].edges + AllEdges(pages[1..])
  }

  /** Edges of later pages come after those of earlier ones. */
  lemma {:induction false} AllEdgesAppend(a: seq<Page>, b: seq<Page>)
    ensures AllEdges(a + b) == AllEdges(a) + AllEdges(b)
  {
    if |a| == 0 {
      assert a + b == b;
    } else {
      assert (a + b)[1..] == a[1..] + b;
      AllEdgesAppend(a[1..], b);
    }
  }
}
