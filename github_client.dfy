/**
 * The source-control client: a per-installation cache of short-lived access
 * tokens, the pull-request diff it assembles from the platform's file listing,
 * and the comment it posts. The platform itself (token issuance, file listing,
 * comment creation) and the clock are inputs: `now` is the current time,
 * `issued` is what the token endpoint would answer if asked now (None when
 * the request fails), `listing` is the file list of the pull request (None
 * when fetching it fails) and `delivered` says whether creating the comment
 * succeeds.
 */
module SourceControl {
  import opened Wrappers

  /** A cache entry, and also what the token endpoint issues: the token and its expiry. */
  datatype CachedToken = CachedToken(token: string, expiresAt: int)

  /** One changed file of a pull request; `patch` is None for files without a textual diff. */
  datatype PullFile = PullFile(filename: string, patch: Option<string>)

  /** An API session authenticated with an installation token. */
  datatype Session = Session(token: string)

  /** A comment created on a pull request's conversation. */
  datatype PostedComment = PostedComment(repo: string, pr: int, body: string)

  // ---------------------------------------------------------------------------
  // Token cache

  /** The effect of one token lookup: the token handed out, the new cache, whether the issuer was asked. */
  datatype TokenStep = TokenStep(token: Option<string>, cache: map<int, CachedToken>, asksIssuer: bool)

  /** An entry is still usable when its expiry lies strictly after now. */
  predicate IsValidAt(cache: map<int, CachedToken>, id: int, now: int)
  {
    id in cache && cache[id].expiresAt > now
  }

  /**
   * One call of the token lookup. A valid entry is handed out without asking
   * the issuer; otherwise the issuer is asked exactly once and, when it answers,
   * its token replaces the entry for `id` alone. A failed issuance leaves the
   * cache as it was.
   */
  function LookupToken(cache: map<int, CachedToken>, id: int, now: int, issued: Option<CachedToken>): (r: TokenStep)
    // hit: the cached token, no issuance, cache unchanged
    ensures IsValidAt(cache, id, now) ==> r.token == Some(cache[id].token) && !r.asksIssuer && r.cache == cache
    // miss or expired (including expiresAt == now): the issuer is asked
    ensures r.asksIssuer <==> !IsValidAt(cache, id, now)
    // issuance succeeded: the new entry is stored and its token returned
    ensures r.asksIssuer && issued.Some? ==> r.token == Some(issued.value.token) && id in r.cache && r.cache[id] == issued.value
    // issuance failed: no token and the cache exactly as before
    ensures r.asksIssuer && issued.None? ==> r.token.None? && r.cache == cache
    // per-key isolation: only the entry for `id` may change
    ensures r.cache.Keys == cache.Keys + (if r.cache == cache then {} else {id})
    ensures forall k :: k in cache && k != id ==> r.cache[k] == cache[k]
    // whatever is handed out is what the cache holds for `id` afterwards
    ensures r.token.Some? ==> id in r.cache && r.cache[id].token == r.token.value
  {
    if IsValidAt(cache, id, now) then
      TokenStep(Some(cache[id].token), cache, false)
    else
      match issued
      case None => TokenStep(None, cache, true)
      case Some(entry) => TokenStep(Some(entry.token), cache[id := entry], true)
  }

  /** One lookup request: the installation, the time of the call and the issuer's answer at that time. */
  datatype TokenRequest = TokenRequest(id: int, now: int, issued: Option<CachedToken>)

  /** The cache after a series of lookups, and how many of them asked the issuer. */
  datatype Replayed = Replayed(cache: map<int, CachedToken>, issuances: nat)

  function Replay(cache: map<int, CachedToken>, reqs: seq<TokenRequest>): (r: Replayed)
    ensures r.issuances <= |reqs|
    decreases |reqs|
  {
    if reqs == [] then Replayed(cache, 0)
    else
      var step := LookupToken(cache, reqs[0].id, reqs[0].now, reqs[0].issued);
      var rest := Replay(step.cache, reqs[1..]);
      Replayed(rest.cache, rest.issuances + (if step.asksIssuer then 1 else 0))
  }

  /** Lookups for an installation whose entry stays valid throughout never ask the issuer. */
  lemma {:induction false} ReplayWhileValid(cache: map<int, CachedToken>, id: int, reqs: seq<TokenRequest>)
    requires id in cache
    requires forall i :: 0 <= i < |reqs| ==> reqs[i].id == id && reqs[i].now < cache[id].expiresAt
    ensures Replay(cache, reqs) == Replayed(cache, 0)
  {
    if reqs != [] {
      ReplayWhileValid(cache, id, reqs[1..]);
    }
  }

  /**
   * The first lookup for an installation issues a token; every later lookup
   * made before that token expires reuses it: exactly one issuance in all.
   */
  lemma OneIssuanceWithinValidity(cache: map<int, CachedToken>, id: int, t0: int, issuedToken: CachedToken,
                                  later: seq<TokenRequest>)
    requires !IsValidAt(cache, id, t0)
    requires forall i :: 0 <= i < |later| ==> later[i].id == id && later[i].now < issuedToken.expiresAt
    ensures Replay(cache, [TokenRequest(id, t0, Some(issuedToken))] + later).issuances == 1
  {
    var reqs := [TokenRequest(id, t0, Some(issuedToken))] + later;
    assert reqs[1..] == later;
    ReplayWhileValid(cache[id := issuedToken], id, later);
  }

  /** Two lookups at 1000 and 1500 for a token valid well past both: one issuance, the same token twice. */
  lemma TwoLookupsOneIssuance(token: string, expiresAt: int, otherAnswer: Option<CachedToken>)
    requires expiresAt > 1500
    ensures var first := LookupToken(map[], 123, 1000, Some(CachedToken(token, expiresAt)));
            var second := LookupToken(first.cache, 123, 1500, otherAnswer);
            && first.token == Some(token) && second.token == Some(token)
            && Replay(map[], [TokenRequest(123, 1000, Some(CachedToken(token, expiresAt))),
                              TokenRequest(123, 1500, otherAnswer)]).issuances == 1
  {
    OneIssuanceWithinValidity(map[], 123, 1000, CachedToken(token, expiresAt), [TokenRequest(123, 1500, otherAnswer)]);
    assert [TokenRequest(123, 1000, Some(CachedToken(token, expiresAt)))] + [TokenRequest(123, 1500, otherAnswer)]
        == [TokenRequest(123, 1000, Some(CachedToken(token, expiresAt))), TokenRequest(123, 1500, otherAnswer)];
  }

  /** A lookup after the entry's expiry asks the issuer again: two lookups, two issuances. */
  lemma ExpiredEntryIssuesAgain(cache: map<int, CachedToken>, id: int, first: CachedToken, second: CachedToken, t1: int, t2: int)
    requires !IsValidAt(cache, id, t1)
    requires t2 >= first.expiresAt
    ensures Replay(cache, [TokenRequest(id, t1, Some(first)), TokenRequest(id, t2, Some(second))]).issuances == 2
  {
    var reqs := [TokenRequest(id, t1, Some(first)), TokenRequest(id, t2, Some(second))];
    assert reqs[1..] == [TokenRequest(id, t2, Some(second))];
    assert reqs[1..][1..] == [];
  }

  /** Lookups for other installations never touch the entry of `id`. */
  lemma {:induction false} ReplayIsolation(cache: map<int, CachedToken>, id: int, reqs: seq<TokenRequest>)
    requires forall i :: 0 <= i < |reqs| ==> reqs[i].id != id
    ensures id in Replay(cache, reqs).cache <==> id in cache
    ensures id in cache ==> Replay(cache, reqs).cache[id] == cache[id]
    decreases |reqs|
  {
    if reqs != [] {
      var step := LookupToken(cache, reqs[0].id, reqs[0].now, reqs[0].issued);
      ReplayIsolation(step.cache, id, reqs[1..]);
    }
  }

  // ---------------------------------------------------------------------------
  // Diff assembly

  /** A file contributes to the diff when its patch is present and non-empty. */
  predicate HasPatch(f: PullFile)
  {
    f.patch.Some? && f.patch.value != ""
  }

  /** The block one contributing file adds to the diff. */
  function Block(f: PullFile): string
    requires HasPatch(f)
  {
    "File: " + f.filename + "\n" + f.patch.value + "\n\n"
  }

  /** The diff of a file list: the blocks of the contributing files, in listing order. */
  function DiffOf(files: seq<PullFile>): string
  {
    if files == [] then ""
    else (if HasPatch(files[0]) then Block(files[0]) else "") + DiffOf(files[1..])
  }

  /** The contributing files of a listing, in listing order. */
  function Contributing(files: seq<PullFile>): (r: seq<PullFile>)
    ensures forall i :: 0 <= i < |r| ==> HasPatch(r[i])
  {
    if files == [] then []
    else (if HasPatch(files[0]) then [files[0]] else []) + Contributing(files[1..])
  }

  /** Concatenation of the blocks of files that all have a patch. */
  function Blocks(files: seq<PullFile>): string
    requires forall i :: 0 <= i < |files| ==> HasPatch(files[i])
  {
    if files == [] then "" else Block(files[0]) + Blocks(files[1..])
  }

  /** The diff of two listings one after the other is the first diff followed by the second. */
  lemma {:induction false} DiffOfAppend(a: seq<PullFile>, b: seq<PullFile>)
    ensures DiffOf(a + b) == DiffOf(a) + DiffOf(b)
  {
    if a != [] {
      assert (a + b)[0] == a[0] && (a + b)[1..] == a[1..] + b;
      DiffOfAppend(a[1..], b);
    } else {
      assert a + b == b;
    }
  }

  /** The diff is exactly the contributing files' blocks, in order; the others add nothing. */
  lemma {:induction false} DiffOfIsContributingBlocks(files: seq<PullFile>)
    ensures DiffOf(files) == Blocks(Contributing(files))
  {
    if files != [] {
      DiffOfIsContributingBlocks(files[1..]);
      var rest := Contributing(files[1..]);
      if HasPatch(files[0]) {
        assert Contributing(files) == [files[0]] + rest;
        assert ([files[0]] + rest)[1..] == rest;
      } else {
        assert Contributing(files) == [] + rest == rest;
      }
    }
  }

  /** The diff is empty exactly when no file has a patch. */
  lemma {:induction false} DiffEmptyIff(files: seq<PullFile>)
    ensures DiffOf(files) == "" <==> forall i :: 0 <= i < |files| ==> !HasPatch(files[i])
  {
    if files != [] {
      DiffEmptyIff(files[1..]);
      if HasPatch(files[0]) {
        assert |Block(files[0])| > 0;
      }
      forall i | 1 <= i < |files|
        ensures files[i] == files[1..][i - 1]
      {
      }
    }
  }

  /** A listing of one file with a patch gives exactly that file's block. */
  lemma SingleFileDiff(name: string, patch: string)
    requires patch != ""
    ensures DiffOf([PullFile(name, Some(patch))]) == "File: " + name + "\n" + patch + "\n\n"
  {
    assert [PullFile(name, Some(patch))][1..] == [];
  }

  /** The loop over the file listing: appends each contributing file's block to the result. */
  method AssembleDiff(files: seq<PullFile>) returns (diff: string)
    ensures diff == DiffOf(files)
  {
    diff := "";
    for i := 0 to |files|
      invariant diff == DiffOf(files[..i])
    {
      var file := files[i];
      if file.patch.Some? && file.patch.value != "" {
        diff := diff + "File: " + file.filename + "\n";
        diff := diff + file.patch.value + "\n\n";
      }
      assert files[..i + 1] == files[..i] + [file];
      assert [file][1..] == [];
      DiffOfAppend(files[..i], [file]);
    }
    assert files[..|files|] == files;
  }

  // ---------------------------------------------------------------------------
  // The client object

  class GitHubClient {
    /** installation id -> its most recently issued token and that token's expiry */
    var tokenCache: map<int, CachedToken>
    /** installations for which the token endpoint was asked, in call order */
    ghost var issuerRequests: seq<int>
    /** comments created on pull requests, in call order */
    ghost var postedComments: seq<PostedComment>

    constructor ()
      ensures tokenCache == map[]
      ensures issuerRequests == [] && postedComments == []
    {
      tokenCache := map[];
      issuerRequests := [];
      postedComments := [];
    }

    /** Hands out the installation's token, from the cache while it is valid, else newly issued. */
    method GetInstallationAccessToken(installationId: int, now: int, issued: Option<CachedToken>)
      returns (token: Option<string>)
      modifies this
      ensures var step := LookupToken(old(tokenCache), installationId, now, issued);
        && token == step.token
        && tokenCache == step.cache
        && issuerRequests == old(issuerRequests) + (if step.asksIssuer then [installationId] else [])
      ensures postedComments == old(postedComments)
    {
      if installationId in tokenCache && tokenCache[installationId].expiresAt > now {
        return Some(tokenCache[installationId].token);
      }
      issuerRequests := issuerRequests + [installationId];
      match issued {
        case None =>
          token := None;
        case Some(response) =>
          tokenCache := tokenCache[installationId := CachedToken(response.token, response.expiresAt)];
          token := Some(response.token);
      }
    }

    /** An authenticated session, or None when the token is missing or empty. */
    method GetGitHubClient(installationId: int, now: int, issued: Option<CachedToken>)
      returns (client: Option<Session>)
      modifies this
      ensures var step := LookupToken(old(tokenCache), installationId, now, issued);
        && tokenCache == step.cache
        && issuerRequests == old(issuerRequests) + (if step.asksIssuer then [installationId] else [])
        && (client.Some? <==> Truthy(step.token))
        && (client.Some? ==> client.value == Session(step.token.value))
      ensures postedComments == old(postedComments)
    {
      var accessToken := GetInstallationAccessToken(installationId, now, issued);
      if !Truthy(accessToken) {
        return None;
      }
      client := Some(Session(accessToken.value));
    }

    /**
     * The pull request's diff: None without a session, when the listing cannot
     * be fetched, or when no file has a patch; never the empty string.
     */
    method GetPullRequestDiff(installationId: int, now: int, issued: Option<CachedToken>,
                              listing: Option<seq<PullFile>>)
      returns (diff: Option<string>)
      modifies this
      ensures var step := LookupToken(old(tokenCache), installationId, now, issued);
        && tokenCache == step.cache
        && issuerRequests == old(issuerRequests) + (if step.asksIssuer then [installationId] else [])
        && diff == (if !Truthy(step.token) || listing.None? || DiffOf(listing.value) == "" then None
                    else Some(DiffOf(listing.value)))
      ensures diff != Some("")
      ensures postedComments == old(postedComments)
    {
      var client := GetGitHubClient(installationId, now, issued);
      if client.None? {
        return None;
      }
      match listing {
        case None =>
          diff := None;
        case Some(files) =>
          var text := AssembleDiff(files);
          diff := if text != "" then Some(text) else None;
      }
    }

    /** Posts `comment` when a session is available; a failure is swallowed, never raised. */
    method PostReviewComment(repoFullName: string, prNumber: int, comment: string, installationId: int,
                             now: int, issued: Option<CachedToken>, delivered: bool)
      modifies this
      ensures var step := LookupToken(old(tokenCache), installationId, now, issued);
        && tokenCache == step.cache
        && issuerRequests == old(issuerRequests) + (if step.asksIssuer then [installationId] else [])
        && postedComments == old(postedComments) +
             (if Truthy(step.token) && delivered then [PostedComment(repoFullName, prNumber, comment)] else [])
    {
      var client := GetGitHubClient(installationId, now, issued);
      if client.None? {
        return;
      }
      if delivered {
        postedComments := postedComments + [PostedComment(repoFullName, prNumber, comment)];
      }
    }
  }
}
