# sync-enterprise in Dafny

This project models the logic of sync-enterprise, a Go tool that reconciles the
members of a GitHub Enterprise with an Azure AD group. It lists the
enterprise's SAML identities through the GitHub GraphQL API. It lists the group
members through Microsoft Graph. Every enterprise member whose e-mail is not
in the group gets a `Delete` action. The actions are then applied, or only
reported in dry-run mode.

The model also covers the repository's older variants:
- the value-receiver roster of `github/github.go`;
- the numbering roster loader of `github/original/github.go`, with its
  own-domain test;
- the stand-alone licence audit of `azure/original/main.go`, with its `Link`
  header parser for section 3 of RFC 8288, its SAML partition, its removal
  selection, its private-repository filter and its collaborator pagination.

It also covers the configuration layer of `config/config.go`.

## How the model is shaped

Remote systems become inputs:
- A paged GraphQL listing is a finite sequence of answers, each a `Page` or a
  query error. A `requires` says the answers end the paging. The source loops
  forever otherwise.
- The Graph group listing is a `GroupFetch`: the request fails, or the
  iterator cannot be built, or the iterator delivers members and possibly
  ends with an error.
- The membership check and `DeleteUser` are function parameters (oracles).
- The collaborator pages of the licence audit are a sequence of HTTP
  responses.
- The environment and the command-line flags are maps.

Go's conventions are written out:
- A nil slice is `None`. A `(value, error)` pair is a `Result`.
- A pointer-receiver call returns the receiver's new state with its result.
  A value-receiver call leaves the caller's state unchanged.
- A panic is an outcome of its own where the model follows the code as
  written: `NilDeref` and `Panicked` for the nil dereference of
  sync/sync.go:58, `SlicePanic` and `LinkPanic` for the out-of-range slice of
  azure/original/main.go:437. The guarded `Sync.Plan` and `Sync.Sync` run the
  corrected loop body. `Sync.Plan`'s contract does not mention the loop as
  written: the separate lemma `Sync.GuardedAgreesWithWritten` ties any
  result meeting that contract to it. `Sync.Sync` calls that lemma and
  states the agreement in its own contract.

| file | module | source |
|---|---|---|
| `types.dfy` | `Types` | `Option`, `Result`, and `Filter` with its lemmas |
| `gostrings.dfy` | `GoStrings` | `strings.HasSuffix`, `Contains`, `Index`, `Split`, `Trim` |
| `enterprise_query.dfy` | `EnterpriseQuery` | the `externalIdentities` query and the cursor loop shared by all three `loadMembers` |
| `github_user.dfy` | `GitHubRoster` | `github/user.go` |
| `github_value.dfy` | `GitHubRosterValue` | `github/github.go` |
| `github_original.dfy` | `EnterpriseUserList` | `github/original/github.go` |
| `azure.dfy` | `AzureGroup` | `azure/azure.go` |
| `sync.dfy` | `Sync` | `sync/sync.go` |
| `azure_original.dfy` | `LicenceAudit` | `azure/original/main.go` |
| `config.dfy` | `Configuration` | `config/config.go` |

### Behaviour of the code worth knowing

- **Case-sensitive matching.** azure/azure.go:114 compares e-mails with
  `==`, so the match neither folds case nor trims. `AzureGroup.MatchIsExact`
  shows this.
- **Empty lists.** An empty Azure group admits nobody
  (`AzureGroup.EmptyGroupAdmitsNobody`). The own-domain test of
  github/original/github.go:104-106 admits everybody when its domain list is
  empty.
- **Listing errors.** sync/sync.go:33 never examines the error of
  `gh.Users`. A failed listing walks the nil slice, so `Sync` returns nil
  with no action (`Sync.Listed`).
- **No invites.** There is no invite action: `ActionType` has only
  `Delete`, and `InviteUser` is a stub that reports success.

## Model

Some definitions follow the source's loops step by step and carry no
contract of their own; the rows of the lemmas about them state what they
mean:
- `Sync.Advance` and `Sync.PlanAsWritten` are the loop of sync/sync.go:36-61
  as written, one pass and the whole listing. `Sync.HaltedStays`,
  `Sync.NoErrorNoFailure`, `Sync.PlanAsWrittenPlanned`,
  `Sync.PlanAsWrittenFailed`, `Sync.PanicsAt` and
  `Sync.GuardedAgreesWithWritten` state what it returns.
- `EnterpriseUserList.PageUsers`, `EnterpriseUserList.EdgeUser` and
  `EnterpriseUserList.Upserts` are the numbering loop of
  github/original/github.go:66-89. `EnterpriseUserList.UpsertOrigin`,
  `EnterpriseUserList.EdgeUpserted`, `EnterpriseUserList.UpsertCount`,
  `EnterpriseUserList.FullPagesNumberConsecutively` and
  `EnterpriseUserList.ShortPageLeavesGap` state what it upserts.
- `LicenceAudit.LastRead`, `LicenceAudit.ReadAnswers` and
  `LicenceAudit.Bodies` name the last answer the collaborator loop reads,
  the answers it reads, and their bodies. They are used by the contracts of
  `LicenceAudit.ContributorsAsWritten` and `LicenceAudit.ContributorsReadPages`.

| member | source | states |
|---|---|---|
| GoStrings.Contains | azure/original/main.go:435 | true exactly when the substring occurs at some position |
| GoStrings.IndexOf | azure/original/main.go:437 | -1 exactly when the character is absent; otherwise the position of its first occurrence |
| GoStrings.Split | azure/original/main.go:433 | at least one part, no part holds the separator, and joining the parts with it gives back the input |
| GoStrings.SplitJoin | azure/original/main.go:433 | splitting a join of separator-free parts gives the parts back |
| GoStrings.Trim | azure/original/main.go:436 | the result is a contiguous piece of the input surrounded only by spaces, and neither starts nor ends with a space |
| EnterpriseQuery.WalkFrom | github/user.go:100-135 | each query sends the previous page's end cursor (nil first); every page but the last announces a next page; the walk ends on the first error or on the first page without a next page |
| EnterpriseQuery.AllEdgesAppend | github/user.go:117-128 | edges of later pages follow those of earlier pages |
| GitHubRoster.New | github/user.go:32-38 | a new client keeps the configuration and has nothing cached |
| GitHubRoster.LoadMembers | github/user.go:55-141 | failure iff a query failed, and then the cache is untouched; success caches exactly one user per edge in page order (ID, login, SAML name id); the enterprise id is the last page read's |
| GitHubRoster.Users | github/user.go:41-49 | a cached list is returned without a query and without a state change; a successful result is always the cached list; a failure leaves nothing cached |
| GitHubRoster.DryRun | github/user.go:51-53 | reports the configured dry-run switch, whatever has been loaded |
| GitHubRoster.EnterpriseId | github/user.go:143-145 | reports the enterprise id the last load stored |
| GitHubRoster.InviteUser | github/user.go:147-150 | never reports an error |
| GitHubRoster.UsersMemoised | github/user.go:41-49 | after one successful call, every later call returns the same list and state whatever the server would answer |
| GitHubRoster.FailedLoadRetries | github/user.go:41-46 | a failed load caches nothing, so the next call behaves like a first call |
| GitHubRoster.EmptyRosterIsCached | github/user.go:57-137 | an enterprise with no identities is cached as an empty, non-nil list |
| GitHubRoster.DryRunIsConfigured | github/user.go:51-53 | the dry-run flag is the configured one before and after loading |
| GitHubRoster.EnterpriseIdOfLastPage | github/user.go:115 | a page read before a failing query still sets the enterprise id |
| GitHubRosterValue.New | github/github.go:30-37 | a new client keeps the configuration and has nothing cached |
| GitHubRosterValue.DryRun | github/github.go:53-55 | reports the configured dry-run switch |
| GitHubRosterValue.LoadMembers | github/github.go:57-134 | failure iff a query failed, with its error; success lists one user per edge in page order (login, SAML name id) |
| GitHubRosterValue.Users | github/github.go:39-47 | the caller's state never changes; a cached list is returned as is, otherwise the load's result |
| GitHubRosterValue.DeleteUser | github/github.go:49-51 | never reports an error |
| GitHubRosterValue.EveryCallReloads | github/github.go:39-47 | after any number of calls a client still has nothing cached, and the next call's result is that call's load |
| GitHubRosterValue.AfterCallsKeepsCaller | github/github.go:39-47 | a run of calls leaves the client exactly as it was |
| GitHubRosterValue.SecondCallSeesNewListing | github/github.go:39-47 | two calls on one client can return different listings |
| EnterpriseUserList.AnySuffix | github/original/github.go:107-111 | true iff some listed domain is a suffix of the e-mail |
| EnterpriseUserList.IsOwnDomain | github/original/github.go:103-113 | an empty list admits every e-mail; otherwise true iff some domain is a suffix |
| EnterpriseUserList.OwnDomainIgnoresOrder | github/original/github.go:107-111 | only the set of domains matters, not order or repetition |
| EnterpriseUserList.AddingDomainKeepsMatch | github/original/github.go:103-113 | adding a domain to a non-empty list never withdraws a match |
| EnterpriseUserList.EmptyDomainAdmitsAll | github/original/github.go:107-109 | listing the empty domain admits every e-mail |
| EnterpriseUserList.SuffixIsRawAndCaseSensitive | github/original/github.go:108 | a look-alike domain passes and an upper-case spelling fails |
| EnterpriseUserList.LoadMembers | github/original/github.go:12-101 | the run fails iff a query failed; every page read is upserted even then; `loaded` is set only by a completed run; the enterprise is known iff a page was read, and is then the slug and name of the last page read |
| EnterpriseUserList.UpsertOrigin | github/original/github.go:79-89 | every upserted user is the i-th edge of the k-th page, numbered 25k+i+1, with e-mail and domain flag from the SAML name id |
| EnterpriseUserList.EdgeUpserted | github/original/github.go:66-89 | conversely, the i-th edge of every page p read is upserted right after the edges of the pages before it, numbered 25p+i+1, with e-mail and domain flag from the SAML name id |
| EnterpriseUserList.UpsertCount | github/original/github.go:79-89 | a run upserts exactly as many users as the pages read have edges |
| EnterpriseUserList.FullPagesNumberConsecutively | github/original/github.go:66-81 | when all pages but the last are full, users are numbered 1, 2, 3, ... without gaps |
| EnterpriseUserList.ShortPageLeavesGap | github/original/github.go:66-81 | a short page followed by another page leaves a gap: the second page starts at 26 |
| AzureGroup.Collect | azure/azure.go:88-99 | every collected user comes from a delivered member, and every non-nil member is collected |
| AzureGroup.CollectAppend | azure/azure.go:88-99 | members delivered later are listed later |
| AzureGroup.Users | azure/azure.go:63-105 | a cached list is returned without a fetch; request and iterator failures return prefixed errors and cache nothing; otherwise the delivered members are cached, even after an iteration error |
| AzureGroup.AnyEmailIs | azure/azure.go:113-118 | true iff some user's e-mail equals the given one |
| AzureGroup.IsUserInGroup | azure/azure.go:107-120 | a listing error is passed on; otherwise true iff some listed user's e-mail equals the given one exactly |
| AzureGroup.UsersMemoised | azure/azure.go:63-105 | after one successful listing, later calls ignore the fetch and change nothing |
| AzureGroup.FailedFetchRetries | azure/azure.go:77-86 | a failed fetch caches nothing, so the next call behaves like a first call |
| AzureGroup.EmptyGroupIsCached | azure/azure.go:65-101 | an empty group is cached and not fetched again |
| AzureGroup.EmptyGroupAdmitsNobody | azure/azure.go:107-120 | an empty group contains nobody |
| AzureGroup.MatchIsExact | azure/azure.go:114 | case or a leading space make an e-mail not match |
| Sync.PlanStepAsWritten | sync/sync.go:39-60 | the loop body as written: returns the check's error iff there is one; otherwise a `Delete` for the user iff the check answers not in group; panics iff the check answers in group with a nil name |
| Sync.InGroupWithoutNamePanics | sync/sync.go:58 | the answer (in group, nil name, no error) makes the loop body as written panic |
| Sync.PlanStep | sync/sync.go:39-60 | never panics; keeps a user exactly when the check answers in-group without error; otherwise agrees with the code as written |
| Sync.PlannedActionsAppend | sync/sync.go:36-61 | the planned actions of a concatenation are the concatenation of the planned actions |
| Sync.PlannedActionsAreRejectedUsers | sync/sync.go:44-56 | every planned action deletes a rejected user, carrying its id, e-mail, login and the check's name or ""; every rejected user gets one |
| Sync.HaltedStays | sync/sync.go:36-61 | once the loop as written has returned an error or panicked, the users after that point do not matter |
| Sync.NoErrorNoFailure | sync/sync.go:39-42 | when no check answers an error, the loop as written does not return one |
| Sync.PlanAsWrittenPlanned | sync/sync.go:36-61 | when the loop as written runs to the end, no check answered an error, the actions are the reference plan, and the delete and stay counters add up to the listing |
| Sync.PlanAsWrittenFailed | sync/sync.go:39-42 | when the loop as written returns an error, it is the first check error of the listing |
| Sync.PanicsAt | sync/sync.go:36-61 | the loop as written panics on a listing whose first in-group answer with a nil name comes before any check error |
| Sync.Plan | sync/sync.go:36-61 | the loop on the guarded body of the sync.go:58 finding: an error iff some check errs, and then the first such error; otherwise one action per rejected user in listing order, and the delete and stay counters add up to the listing |
| Sync.GuardedAgreesWithWritten | sync/sync.go:36-61 | any result that meets the contract of `Sync.Plan` is how the loop as written ends, whenever that loop does not panic |
| Sync.Apply | sync/sync.go:63-84 | in dry-run nothing is deleted; otherwise every action's id is passed to `DeleteUser` once, in order, whatever earlier deletes returned |
| Sync.Listed | sync/sync.go:33 | the listing error is never examined: a failed listing is walked as the empty list |
| Sync.Sync | sync/sync.go:26-91 | on the guarded loop body: a check error returns that first error before any delete; otherwise the planned actions are applied as `Apply` states, and the run succeeds whatever the deletes returned; whenever the loop as written does not panic, the run ends as it does |
| LicenceAudit.CutAtAngle | azure/original/main.go:437 | yields a URL iff the first `>` is at index 1 or later; the URL is what lies between the first character and that `>`, and holds no `>` |
| LicenceAudit.NextLinkIn | azure/original/main.go:433-440 | "" when no segment mentions `rel="next"`; a URL never holds `>` |
| LicenceAudit.FirstNextSegmentDecides | azure/original/main.go:434-437 | the first segment mentioning `rel="next"` decides, after trimming |
| LicenceAudit.GetNextLink | azure/original/main.go:432-441 | "" when no comma-separated segment mentions `rel="next"`; otherwise the first such segment decides; a URL never holds `>` |
| LicenceAudit.EmptyHeaderHasNoNext | azure/original/main.go:432-441 | the empty header yields "" |
| LicenceAudit.NextHeaderRoundTrip | azure/original/main.go:432-441 | parsing `<url>; rel="next"` gives back the URL when it holds no comma and no `>` |
| LicenceAudit.SpacedNextHeader | azure/original/main.go:436-437 | a leading space is trimmed before the cut |
| LicenceAudit.FirstNextSegmentWins | azure/original/main.go:434-438 | with a matching first segment, later segments do not matter |
| LicenceAudit.LeadingAngleIsSlicePanic | azure/original/main.go:437 | a matching segment that starts with `>` panics |
| LicenceAudit.PartitionBySaml | azure/original/main.go:132-138 | users with a SAML name id and users without, each in input order; together they are exactly the input |
| LicenceAudit.SelectRemovals | azure/original/main.go:156-168 | a user is selected iff the active check answers inactive without error, in input order; check errors skip the user |
| LicenceAudit.IsContributor | azure/original/main.go:186-193 | true iff some collaborator's login equals the user's GitHub login exactly |
| LicenceAudit.PrivateRepos | azure/original/main.go:280-295 | fails iff some organisation's listing fails, and then with the error of the first failing one; otherwise exactly the private repositories, organisation by organisation |
| LicenceAudit.ContributorsAsWritten | azure/original/main.go:354-396 | judged by the last response the loop reads: returns (nil, nil) iff that response has a non-200 status; an error iff the GET or the body decoding failed, and then it is that failure's own error, with nil collaborators; the link panic iff its `Link` header makes the slice panic |
| LicenceAudit.NonOkPageDropsContributors | azure/original/main.go:368-371 | a page announcing a next page, then a 404, returns neither collaborators nor an error |
| LicenceAudit.Contributors | azure/original/main.go:354-396 | a completed fetch returns exactly one of collaborators or error; it agrees with the code as written except that a non-200 status is an error |
| LicenceAudit.ContributorsReadPages | azure/original/main.go:362-394 | when the code as written returns collaborators, they are those already read followed by the decoded bodies of every page up to and including the last one read, in page order |
| LicenceAudit.CorrectedReadsPages | azure/original/main.go:362-394 | the corrected fetch returns the same collaborators: those already read followed by every page read, in page order |
| Configuration.LookupEnvOrString | config/config.go:88-93 | a variable that is set wins, even when empty; otherwise the default |
| Configuration.ParseBool | config/config.go:108 | exactly six spellings parse to true and six to false; anything else fails |
| Configuration.LookupEnvOrBool | config/config.go:106-115 | the default when unset; fatal iff the value is not one of the twelve spellings; true iff a true spelling |
| Configuration.Atoi | config/config.go:97 | accepted iff the text is an optional sign and at least one digit whose value lies in the int64 range, and the result is that value; hence any sign with at most 18 digits is accepted |
| Configuration.AtoiFormatInt | config/config.go:95-104 | parsing the decimal text of any int64 gives it back |
| Configuration.Int64Overflow | config/config.go:97-100 | one past the int64 maximum is rejected, not wrapped |
| Configuration.LookupEnvOrInt | config/config.go:95-104 | the default when unset; fatal iff the value does not parse; otherwise the parsed value |
| Configuration.LookupFormattedInt | config/config.go:95-104 | a variable holding a formatted int64 reads back as that number |
| Configuration.Validate | config/config.go:60-83 | no error iff all six required fields are non-empty; otherwise the message of the first empty one in the fixed order |
| Configuration.ValidateIgnoresDryRun | config/config.go:56-85 | the dry-run switch never affects validation |
| Configuration.New | config/config.go:48-86 | a bad `DRY_RUN` ends the process even when the flag is given; an invalid `-dry-run` flag ends it too; otherwise invalid iff a required setting is empty, naming the first; on success the settings are the flag value, else the environment's, else "" |
| Configuration.EmptyTokenIsMissing | config/config.go:60-93 | a token variable that is set but empty counts as missing |
| Configuration.FlagOverridesEnv | config/config.go:50-58 | a token flag overrides the environment and keeps a valid configuration valid |

## Left out

- `main.go` is not modelled: it wires the clients, logging and exit codes.
  Its `gh, nil := ...` at main.go:54 declares a variable named `nil`, so the
  check at main.go:59 tests the Azure client's `err`.
- `github/delete.go` is an abstract `DeleteCall` oracle in `Sync`. It sends
  the enterprise slug as `enterpriseId` (github/delete.go:26), which this
  model does not cover.
- Credentials, client construction, HTTP, JSON decoding, the `githubv4` and
  Graph SDK queries, and the `msgraphgocore` page iterator are inputs, not
  code. This includes `azure.New` (azure/azure.go:34-61) and
  `getGithubClient`.
- `Sync.Sync` uses a membership check with the three results sync.go:39
  reads, `(inAzure, name, err)`. `azure.IsUserInGroup` returns two. The
  oracle follows the caller.
- `AzureGroup.Users`: `*user.GetMail()` panics on a member without a mail
  attribute (azure/azure.go:91-95). The model takes mail and display name as
  present.
- Paging that never ends: every paged operation requires the given answers
  to end the walk. A server that always announces a next page makes the code
  loop forever.
- `LicenceAudit.Contributors` and `LicenceAudit.ContributorsAsWritten` read
  the pages in sequence. They do not record which URL each GET asked for.
- `getGitHubLicencedUsers` and `getGitRepos` (azure/original/main.go:238-337)
  follow `Link` headers page by page like `getGithubRepoContributors`, but
  lack its status-code branch (azure/original/main.go:368-371). `getGitRepos` is the `reposOf` oracle of
  `LicenceAudit.PrivateRepos`; `getGitHubLicencedUsers` is not modelled.
- `getGithubReposWithContributors` (azure/original/main.go:339-352) is not
  modelled. It calls `getGithubRepoContributors` for each repository in
  turn, pairs each repository with its collaborators, and returns at the
  first error.
- `isAzureAdUserActive` and `getGithubEnterpriseOrgs` are remote queries. The
  first is the `isActive` oracle of `LicenceAudit.SelectRemovals`.
- The log-only loops of `main` in azure/original/main.go:170-183 are not
  modelled. They log the removal list and warn about outside collaborators.
  Only `isContributor` is.
- `upsertUser`, the `UserList` type and the `Updated` timestamp of
  github/original/github.go are not part of this model. The loader's effect
  is the sequence of users it upserts.
- All `slog` output is left out, and so are the delete and stay counters'
  log lines. The counters themselves are modelled.
- `Configuration.LookupEnvOrBool` and `Configuration.LookupEnvOrInt` return
  `Fatal(key)` without the text `log.Fatalf` prints.
- `Configuration.New`: the usage text, `-h`, and `flag.Parse` errors for
  unknown flags are not modelled. Only an unparsable `-dry-run` value is.
- `Configuration.Atoi` assumes Go's `int` is 64 bits wide.
- `GoStrings` indexes a string by character, where Go's `strings.Index`
  and slicing index it by byte. The two agree on ASCII text. They part
  where `LicenceAudit.CutAtAngle` drops the first element of a trimmed
  segment: when that segment starts with a non-ASCII character, Go drops
  one byte of it and the model drops the whole character, so the URLs
  differ.

## Findings

| source | as written | input that shows it | evidently intended | confidence | as-written member | corrected member |
|---|---|---|---|---|---|---|
| sync/sync.go:58 | the in-group branch logs `*name` without the nil check the other branch makes | a membership check answering in-group with a nil name and no error (`Sync.InGroupWithoutNamePanics`, `Sync.PanicsAt`) | log the name only when it is non-nil, and count the user as staying | not executed | Sync.PlanStepAsWritten | Sync.PlanStep |
| azure/original/main.go:368-371 | a non-200 status returns `(nil, err)` while `err` is nil | a page announcing a next page, then a 404 (`LicenceAudit.NonOkPageDropsContributors`) | return an error, so the collaborators are not silently lost | not executed | LicenceAudit.ContributorsAsWritten | LicenceAudit.Contributors |
