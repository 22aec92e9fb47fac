/** The earliest roster loader, github/original/github.go: it numbers the
    SAML identities as it pages through them, flags the ones from an own
    e-mail domain, and hands each to `upsertUser` (not part of this model:
    the loader's effect is the sequence of users it upserts). */
module EnterpriseUserList {
  import opened Types
  import opened GoStrings
  import opened EnterpriseQuery

  /** A numbered roster entry. */
  datatype User = User(
    Number: int,
    Login: string,
    Name: string,
    Email: string,
    IsOwnDomain: bool,
    Contributions: int)

  datatype Enterprise = Enterprise(Slug: string, Name: string)

  /** The loader's configuration and its `loaded` flag. */
  datatype UserListConfig = UserListConfig(enterprise: string, ownDomains: seq<string>, loaded: bool)

  /** One run of `loadMembers`: the users upserted, in call order; the
      enterprise of the last page read; the `loaded` flag afterwards; the
      query error that ended the run, if any. */
  datatype LoadRun = LoadRun(upserts: seq<User>, enterprise: Option<Enterprise>, loaded: bool, err: Option<Error>)

  /** Some listed domain is a suffix of `email`. */
  function AnySuffix(email: string, domains: seq<string>): (found: bool)
    ensures found <==> exists k | 0 <= k < |domains| :: HasSuffix(email, domains[k])
  {
    if |domains| == 0 then false
    else if HasSuffix(email, domains[0]) then true
    else
      var rest := AnySuffix(email, domains[1..]);
      assert forall k | 1 <= k < |domains| :: domains[k] == domains[1..][k - 1];
      rest
  }

  /** `IsOwnDomain`: an empty allow-list admits every e-mail; otherwise the
      e-mail must end with one of the domains, case-sensitively and with
      no `@` boundary. */
  function IsOwnDomain(email: string, ownDomains: seq<string>): (own: bool)
    ensures |ownDomains| == 0 ==> own
    ensures |ownDomains| > 0 ==> (own <==> exists d | d in ownDomains :: HasSuffix(email, d))
  {
    |ownDomains| == 0 || AnySuffix(email, ownDomains)
  }

  /** Only the set of domains matters, not their order or repetition. */
  lemma OwnDomainIgnoresOrder(email: string, a: seq<string>, b: seq<string>)
    requires forall d :: d in a <==> d in b
    ensures IsOwnDomain(email, a) == IsOwnDomain(email, b)
  {
    assert |a| == 0 <==> |b| == 0 by {
      if |a| > 0 { assert a[0] in b; }
      if |b| > 0 { assert b[0] in a; }
    }
  }

  /** Adding a domain to a non-empty list never withdraws a match. (On the
      empty list it can: the empty list admits everybody.) */
  lemma AddingDomainKeepsMatch(email: string, domains: seq<string>, extra: string)
    requires |domains| > 0 && IsOwnDomain(email, domains)
    ensures IsOwnDomain(email, domains + [extra])
  {
    var d :| d in domains && HasSuffix(email, d);
    assert d in domains + [extra];
  }

  /** The empty domain is a suffix of every e-mail, so listing it admits all. */
  lemma EmptyDomainAdmitsAll(email: string, domains: seq<string>)
    requires "" in domains
    ensures IsOwnDomain(email, domains)
  {
    assert HasSuffix(email, "") by {
      assert email[|email|..] == "";
    }
  }

  /** The match is a bare suffix test: `prodyna.com` admits a look-alike
      domain and rejects the upper-case spelling of itself. */
  lemma SuffixIsRawAndCaseSensitive()
    ensures IsOwnDomain("eve@notprodyna.com", ["prodyna.com"])
    ensures !IsOwnDomain("bob@PRODYNA.COM", ["prodyna.com"])
  {
    assert HasSuffix("eve@notprodyna.com", "prodyna.com") by {
      assert "eve@notprodyna.com"[7..] == "prodyna.com";
    }
    assert !HasSuffix("bob@PRODYNA.COM", "prodyna.com") by {
      assert "bob@PRODYNA.COM"[4] != "prodyna.com"[0];
    }
  }

  /** The users of the page queried at `offset`: the i-th edge becomes user
      number offset + i + 1, its e-mail is the SAML name id, and the domain
      flag is computed on that same value. */
  function PageUsers(p: Page, offset: int, ownDomains: seq<string>): seq<User>
  {
    seq(|p.edges|, i requires 0 <= i < |p.edges| => EdgeUser(p.edges[i], offset + i + 1, ownDomains))
  }

  /** The user upserted for edge `e` under `number`: its e-mail is the SAML
      name id, and the domain flag is computed on that same value. */
  function EdgeUser(e: Edge, number: int, ownDomains: seq<string>): User
  {
    User(number, e.login, e.name, e.nameId, IsOwnDomain(e.nameId, ownDomains), e.contributions)
  }

  /** The users upserted for `pages`, the first of which is the `k`-th page
      of the run; `offset` grows by the window on every page. */
  function Upserts(pages: seq<Page>, k: nat, ownDomains: seq<string>): seq<User>
  {
    if |pages| == 0 then []
    else PageUsers(pages[0], Window * k, ownDomains) + Upserts(pages[1..], k + 1, ownDomains)
  }

  /** `loadMembers`: every page read is upserted (even when a later query
      fails) and overwrites the enterprise; `loaded` is set only after the
      last page. */
  function LoadMembers(c: UserListConfig, answers: seq<Result<Page>>): (run: LoadRun)
    requires EndsPaging(answers)
    ensures run.err == QueryAll(answers).err
    ensures run.err.Some? ==> run.loaded == c.loaded
    ensures run.err.None? ==> run.loaded
    ensures run.upserts == Upserts(QueryAll(answers).pages, 0, c.ownDomains)
    ensures run.enterprise.Some? <==> |QueryAll(answers).pages| > 0
    ensures var p := QueryAll(answers).pages;
            |p| > 0 ==> run.enterprise == Some(Enterprise(p[|p| - 1].slug, p[|p| - 1].name))
  {
    var w := QueryAll(answers);
    var ent := if |w.pages| == 0 then None
               else Some(Enterprise(w.pages[|w.pages| - 1].slug, w.pages[|w.pages| - 1].name));
    LoadRun(Upserts(w.pages, 0, c.ownDomains), ent, c.loaded || w.err.None?, w.err)
  }

  /** Every upserted user is numbered, e-mailed and flagged from its edge:
      the j-th user of the run is the i-th edge of some page k and has
      number 25 * k + i + 1. */
  lemma {:induction false} UpsertOrigin(pages: seq<Page>, k: nat, ownDomains: seq<string>, j: nat)
    requires j < |Upserts(pages, k, ownDomains)|
    ensures exists p: nat, i: nat :: p < |pages| && i < |pages[p].edges| &&
              var e := pages[p].edges[i];
              Upserts(pages, k, ownDomains)[j] ==
                User(Window * (k + p) + i + 1, e.login, e.name, e.nameId,
                     IsOwnDomain(e.nameId, ownDomains), e.contributions)
    decreases |pages|
  {
    var first := PageUsers(pages[0], Window * k, ownDomains);
    if j < |first| {
      assert Upserts(pages, k, ownDomains)[j] == first[j];
      var e := pages[0].edges[j];
      assert Window * (k + 0) + j + 1 == Window * k + j + 1;
    } else {
      UpsertOrigin(pages[1..], k + 1, ownDomains, j - |first|);
      var p: nat, i: nat :| p < |pages[1..]| && i < |pages[1..][p].edges| &&
              var e := pages[1..][p].edges[i];
              Upserts(pages[1..], k + 1, ownDomains)[j - |first|] ==
                User(Window * (k + 1 + p) + i + 1, e.login, e.name, e.nameId,
                     IsOwnDomain(e.nameId, ownDomains), e.contributions);
      assert pages[1..][p] == pages[p + 1];
      assert Window * (k + 1 + p) == Window * (k + (p + 1));
    }
  }

  /** Conversely, every edge of every page read is upserted, in page order:
      the i-th edge of page p comes after the edges of the pages before it
      and is numbered 25 * (k + p) + i + 1. */
  lemma {:induction false} EdgeUpserted(pages: seq<Page>, k: nat, ownDomains: seq<string>, p: nat, i: nat)
    requires p < |pages| && i < |pages[p].edges|
    ensures var j := |AllEdges(pages[..p])| + i;
            && j < |Upserts(pages, k, ownDomains)|
            && Upserts(pages, k, ownDomains)[j] == EdgeUser(pages[p].edges[i], Window * (k + p) + i + 1, ownDomains)
    decreases p
  {
    var first := PageUsers(pages[0], Window * k, ownDomains);
    var rest := Upserts(pages[1..], k + 1, ownDomains);
    assert Upserts(pages, k, ownDomains) == first + rest;
    if p == 0 {
      assert pages[..0] == [];
      assert (first + rest)[i] == first[i];
    } else {
      var before := pages[1..][..p - 1];
      assert |AllEdges(pages[..p])| == |first| + |AllEdges(before)| by {
        assert pages[..p] == [pages[0]] + before;
        AllEdgesAppend([pages[0]], before);
        assert AllEdges([pages[0]]) == pages[0].edges + AllEdges([]);
      }
      EdgeUpserted(pages[1..], k + 1, ownDomains, p - 1, i);
      assert pages[1..][p - 1] == pages[p];
      assert Window * (k + 1 + (p - 1)) == Window * (k + p);
      var j' := |AllEdges(before)| + i;
      assert (first + rest)[|first| + j'] == rest[j'];
    }
  }

  /** The run upserts exactly as many users as the pages read have edges. */
  lemma {:induction false} UpsertCount(pages: seq<Page>, k: nat, ownDomains: seq<string>)
    ensures |Upserts(pages, k, ownDomains)| == |AllEdges(pages)|
    decreases |pages|
  {
    if |pages| > 0 {
      UpsertCount(pages[1..], k + 1, ownDomains);
    }
  }

  /** When every page but the last is full, the numbers run 1, 2, 3, ...
      without a gap across page boundaries. */
  lemma {:induction false} FullPagesNumberConsecutively(pages: seq<Page>, k: nat, ownDomains: seq<string>)
    requires forall p | 0 <= p < |pages| - 1 :: |pages[p].edges| == Window
    ensures forall j | 0 <= j < |Upserts(pages, k, ownDomains)| ::
              Upserts(pages, k, ownDomains)[j].Number == Window * k + j + 1
    decreases |pages|
  {
    if |pages| > 0 {
      var first := PageUsers(pages[0], Window * k, ownDomains);
      var rest := Upserts(pages[1..], k + 1, ownDomains);
      FullPagesNumberConsecutively(pages[1..], k + 1, ownDomains);
      if |pages| > 1 {
        assert |first| == Window;
      } else {
        assert rest == [];
      }
      var all: seq<User> := first + rest;
      forall j | 0 <= j < |all|
        ensures all[j].Number == Window * k + j + 1
      {
        if j < |first| {
          assert all[j] == first[j];
        } else {
          assert all[j] == rest[j - |first|];
          assert |pages| > 1 && |first| == Window;
        }
      }
    }
  }

  /** A short page that still announces a next page leaves a gap: the next
      page starts at number 26 whatever came before. */
  lemma ShortPageLeavesGap(e1: Edge, e2: Edge)
    ensures var us := Upserts([Page("", "", "", [e1], true, "c"), Page("", "", "", [e2], false, "")], 0, []);
            |us| == 2 && us[0].Number == 1 && us[1].Number == 26
  {
    var p1 := Page("", "", "", [e1], true, "c");
    var p2 := Page("", "", "", [e2], false, "");
    assert [p1, p2][1..] == [p2];
    assert [p2][1..] == [];
    var first := PageUsers(p1, 0, []);
    var second := PageUsers(p2, Window, []);
    assert Upserts([p2], 1, []) == second + [];
    assert Upserts([p1, p2], 0, []) == first + second;
    assert first[0].Number == 1;
    assert second[0].Number == 26;
  }
}
