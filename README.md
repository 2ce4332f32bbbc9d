# Pull-request review bot: token cache, diff assembly and webhook decisions

A Dafny model of the logic at the heart of a GitHub App that reviews pull requests.
A webhook delivery is authenticated by its `X-Hub-Signature-256` header. It is then
filtered by event and action. For an opened or synchronized pull request, the handler
fetches the diff, asks a language model for a review and posts the review as a comment.
The source-control client keeps a per-installation cache of short-lived access tokens.
It builds the diff from the pull request's file listing.

Modules:

- `Wrappers` (wrappers.dfy): `Option`, `Outcome` (a Python call either returns or raises) and the
  exception kinds that can escape the handler.
- `Text` (text.dfy): Python's `str.split` on one separator, with its inverse `Join`.
- `Hex` (hex.dfy): the lower-case hex form that `hexdigest()` produces, with a decoder as its inverse.
- `SourceControl` (github_client.dfy): the class `GitHubClient`, whose `tokenCache` is a `map` field
  that the methods update in place. Beside it are the function `LookupToken`, which specifies one
  lookup, and the loop `AssembleDiff`, which is proved against the recursive `DiffOf`.
- `ReviewGenerator` (review.dfy): the completion call's answer, or the fixed fallback text.
- `App` (app.dfy): `VerifySignature` and `Webhook` as pure functions. `Webhook` returns the reply
  together with the ordered list of collaborator calls it made.

External effects are inputs:

- the clock is `now`, an integer;
- the token endpoint's answer is `issued`, where `None` means the request failed;
- the pull request's file listing is `listing`, where `None` means fetching it failed;
- the comment call's success is `delivered`;
- the completion call's answer is `completion`, where `None` means the call raised;
- HMAC-SHA256 (RFC 2104 over the SHA-256 of FIPS 180-4) is the function-typed parameter `mac`.

The webhook treats its collaborators' results (`fetched`, `completion`) as given values. Ghost
fields of `GitHubClient` record every issuer request and every created comment. These logs are
what the source's tests inspect through mocks.

In these places the model follows the code as written, including behaviour a caller may not expect:

- A signature header without exactly one `=` makes the tuple unpacking raise `ValueError`. It is
  not rejected with 403 (app.py:54).
- `hmac.compare_digest` raises `TypeError` on a str holding non-ASCII characters.
- `payload['repository']['full_name']` and `payload['pull_request']['number']` are subscripted
  before the installation id is checked (app.py:92-96). A payload that lacks them raises
  `KeyError` rather than answering 400.
- A freshly issued token is handed out without comparing its expiry with `now`. Only cache hits
  are checked against the clock.

## Model

| member | source | states |
|---|---|---|
| `SourceControl.LookupToken` | github_client.py:72-90 | A valid entry (expiry strictly after now) is returned without asking the issuer, and the cache is unchanged. An entry whose expiry equals now, or a missing entry, makes the lookup ask the issuer. A successful issuance stores the new entry under that id alone and returns its token. A failed issuance returns None and leaves the cache exactly as it was. Entries of other ids never change. Any token handed out is the one the cache holds afterwards. |
| `SourceControl.Replay` | github_client.py:72-90 | Over a series of lookups, the issuer is asked at most once per lookup. |
| `SourceControl.ReplayWhileValid` | github_client.py:73-75 | While an installation's entry stays valid, repeated lookups never ask the issuer and never change the cache. |
| `SourceControl.OneIssuanceWithinValidity` | github_client.py:72-88 | A first lookup at any time when the entry is missing or expired issues a token. Any number of later lookups made before that token expires make no further issuance, so there is exactly one issuance in all. |
| `SourceControl.TwoLookupsOneIssuance` | tests/test_github_client.py:36-58 | Lookups at 1000 and 1500 for a token valid past both return the same token and make exactly one issuance. |
| `SourceControl.ExpiredEntryIssuesAgain` | tests/test_github_client.py:60-87 | One lookup before and one at or after the first token's expiry make exactly two issuances. |
| `SourceControl.ReplayIsolation` | github_client.py:84-87 | Lookups for other installations leave an installation's entry, or its absence, untouched. |
| `SourceControl.DiffOf` | github_client.py:133-139 | The fold the diff loop computes: each file with a non-empty patch adds `File: <name>\n<patch>\n\n`, in listing order. It has no contract of its own; `DiffOfAppend`, `DiffOfIsContributingBlocks`, `DiffEmptyIff` and `AssembleDiff` state its behaviour. |
| `SourceControl.DiffOfAppend` | github_client.py:133-138 | The diff of two listings in sequence is the first diff followed by the second. |
| `SourceControl.DiffOfIsContributingBlocks` | github_client.py:133-138 | The diff is the concatenation, in listing order, of `File: <name>\n<patch>\n\n` over the files with a non-empty patch. Other files contribute nothing. |
| `SourceControl.DiffEmptyIff` | github_client.py:136-139 | The diff is empty exactly when no file has a non-empty patch. |
| `SourceControl.SingleFileDiff` | tests/test_github_client.py:119-121 | One file `file.py` with patch `diff content` gives exactly `File: file.py\ndiff content\n\n`. |
| `SourceControl.AssembleDiff` | github_client.py:133-138 | The loop's result is `DiffOf` of the listing. |
| `SourceControl.GitHubClient.constructor` | github_client.py:46 | A new client starts with an empty token cache and has issued or posted nothing. |
| `SourceControl.GitHubClient.GetInstallationAccessToken` | github_client.py:61-90 | The returned token and the new cache are those of `LookupToken` on the old cache. The issuer log grows by this id exactly when the issuer is asked. |
| `SourceControl.GitHubClient.GetGitHubClient` | github_client.py:92-108 | A session exists if and only if the looked-up token is present and non-empty. The session carries that token. The cache moves as in `LookupToken`. |
| `SourceControl.GitHubClient.GetPullRequestDiff` | github_client.py:110-141 | The result is None when there is no session, when the listing fails, or when `DiffOf` of the listing is empty. Otherwise it is `DiffOf` of the listing. It is never the empty string. |
| `SourceControl.GitHubClient.PostReviewComment` | github_client.py:143-165 | A comment for exactly this repository, pull request and text is recorded only when a session exists and the call succeeds. Nothing is ever raised, and there is no result. |
| `Text.Split` | app.py:54 | `str.split('=')` returns one more piece than the header has `=` characters, and no piece contains `=`. |
| `Text.JoinSplit` | app.py:54 | Joining the pieces of a split with the separator gives back the header. |
| `Text.SplitJoin` | app.py:54 | Splitting a join of separator-free pieces gives back exactly those pieces. |
| `Hex.HexEncode` | app.py:58-60 | `hexdigest()` writes two lower-case hex characters per digest byte. |
| `Hex.DecodeEncode` | app.py:58-60 | The hex form of a digest decodes back to that digest. |
| `Hex.EncodeDecode` | app.py:58-60 | Any string that decodes is exactly the hex form of what it decodes to. |
| `Hex.EncodeInjective` | app.py:60 | Two digests with the same hex form are equal. |
| `ReviewGenerator.GenerateReview` | openai_client.py:47-66 | The completion's text, or the fixed fallback string when the call fails. It has no contract of its own; `App.ReviewPosted` states what the handler does with it. |
| `App.CompareDigest` | app.py:60 | `hmac.compare_digest` on str values: `TypeError` for non-ASCII input, else equality. It has no contract of its own; `CompareWithHexDigest` and `VerifyWellFormed` state its effect on verification. |
| `App.CompareWithHexDigest` | app.py:58-60 | Comparing the hex HMAC with the header's hex part raises `TypeError` exactly when that part is not ASCII. Otherwise it succeeds exactly when the part decodes, as lower-case hex, to the digest itself. |
| `App.VerifySignature` | app.py:39-60 | A missing header returns false. A header without exactly one `=` raises `ValueError`. Nothing other than `ValueError` or `TypeError` is ever raised. Verification succeeds only for exactly the header `sha256=<hex HMAC of the raw body under the secret>`. `VerifyWellFormed` gives the full outcome for every well-formed header. |
| `App.Webhook` | app.py:62-111 | The calls made are always a prefix of three steps, in order. First, one diff fetch with the payload's repository, PR number and installation id. Second, one review of exactly the fetched diff. Third, one post to that same pull request. Every JSON reply is one of the six fixed status/code pairs. The reply is `review posted`/200 exactly when three calls were made. An escaped exception comes before any call. The decision-table lemmas below state each branch. |
| `App.MissingHeaderRejected` | app.py:50-52 | A missing signature header makes verification return false. |
| `App.MalformedHeaderRaises` | app.py:54 | A header without exactly one `=` makes verification raise `ValueError` instead of returning false. |
| `App.VerifyWellFormed` | app.py:54-60 | For a header `alg=hex`, verification succeeds exactly when `alg` is `sha256` and `hex` equals the hex HMAC of the raw body under the secret. It raises `TypeError` only when `alg` is `sha256` and `hex` is not ASCII. |
| `App.WrongAlgorithmRejected` | app.py:55-56 | A well-formed header naming any other algorithm is rejected. |
| `App.SignedBodyAccepted` | tests/test_integration.py:11-21 | The header `sha256=` followed by the hex HMAC of the raw body under the shared secret is accepted. |
| `App.OtherDigestRejected` | app.py:58-60 | A `sha256` header carrying the hex form of any digest other than the body's HMAC is rejected. |
| `App.InvalidSignatureFirst` | app.py:75-76 | A failed verification answers `invalid signature`/403 with no calls. The answer does not depend on the event header, the payload or any collaborator result. |
| `App.OtherEventIgnored` | app.py:79-81 | A verified delivery whose event is not `pull_request` answers `ignored event`/200 with no calls. |
| `App.OtherActionIgnored` | app.py:84-89 | An action other than `opened` or `synchronize` answers `action ignored`/200 with no calls. |
| `App.MissingRepositoryRaises` | app.py:92-93 | A handled action whose payload lacks the repository name or the PR number raises, with no calls. |
| `App.InstallationIdMissing` | app.py:94-97 | An absent or zero installation id answers `installation ID missing`/400 with no calls. |
| `App.NoChangesDetected` | app.py:100-103 | A None or empty diff answers `no changes detected`/200 after exactly one fetch. No review is generated and nothing is posted. |
| `App.ReviewPosted` | app.py:100-111 | A non-empty diff leads to exactly fetch, review of that diff, and post of the review to the same pull request, in that order. The answer is `review posted`/200. If the completion call fails, the fixed fallback text is posted. |
| `App.SignedDeliveryPassesGuard` | app.py:75-76 | A delivery signed with the shared secret is never answered `invalid signature`. It can raise only once its event is `pull_request`. |
| `App.MalformedHeaderAborts` | app.py:54 | A signature header without exactly one `=` makes the handler raise `ValueError` with no collaborator call. |

## Left out

- HTTP routing, `jsonify` and the request object: a request is the two consulted headers, the raw
  body bytes and the payload fields the handler reads. `body` is the `request.data` of a JSON
  delivery. The following cases are not modelled:
  - A body that is not valid JSON, or is not sent as JSON, makes `request.json` fail at app.py:84.
    Flask then answers 400 or 415 before any payload field is read.
  - For a form-encoded delivery, `request.data` is empty, so the HMAC at app.py:58 covers no bytes.
  - A body that parses as JSON but not as an object (an array, a string or `null`) makes
    `payload.get('action')` raise `AttributeError` (app.py:85).
  - An `installation` key holding `null` makes `.get('id')` raise `AttributeError` (app.py:94).
- `App.Payload`: each optional field is either absent or a value of its type. Two kinds of input
  are not modelled. The first is `null` held by `full_name` or `number`; then the source does not
  raise. When the installation id is set, it calls `get_pull_request_diff` with `None`. The
  second is `null` or any other non-object held by `repository` or `pull_request`; then the
  subscript at app.py:92-93 raises `TypeError` rather than `KeyError`.
- Environment and configuration: `.env` loading, the startup exit on `ValueError`, the
  constructor's credential check, `_load_private_key` (file I/O), and a missing `WEBHOOK_SECRET`
  (which would make `.encode()` raise). The secret is a byte-string parameter.
- HMAC-SHA256 internals and the constant-time property of `hmac.compare_digest`: the MAC is an
  opaque parameter and the comparison is plain equality. Hence the model cannot show that changing
  a body byte makes verification fail, since that would rest on the MAC being collision-free.
- The PyGithub calls (`GithubIntegration.get_access_token`, `get_repo`, `get_pull`, `get_files`,
  `create_issue_comment`): their answers are the inputs `issued`, `listing` and `delivered`. The
  repository name and PR number that select the listing are therefore not parameters of
  `GetPullRequestDiff`.
- Timestamps are integers rather than floats. Only `>` is applied to them.
- `generate_review`: the prompt text, the model name and the token budget are left out. Only "the
  answer's text, or the fixed fallback on failure" is modelled. A completion whose content is
  `null` is not modelled.
- `App.MissingRepositoryRaises`: the `KeyError` carries one key name per missing field. It does
  not distinguish a missing `repository` object from a missing `full_name` inside it.
- Concurrency: the source has no locking or threads of its own.
