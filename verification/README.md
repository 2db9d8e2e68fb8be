# Enclave Credential Gateway: a verified model

The gateway hands out phantom tokens (`gate_…`), checks the token and the route of every request, takes the phantom
credential off it and puts the real one on. This project models the parts of that which decide who gets through,
what is remembered across failures and what is sent, and proves what they promise.

- **Token registry** (`TokenRecords`, `RegistryModel`, `RegistryMachine`, `RegistryRuns`, `Revocations`,
  `FailedCreates`, `TokenRegistries`). `create_token` and `revoke_token` change memory under the lock, drop it,
  persist, and take it again to roll back if the persist failed. Every operation is therefore several atomic steps.
  `RegistryMachine` lets the steps of any number of operations interleave, with failing persists and crashes at any
  point, over the source's own data: a list of records and a file. It refines `RegistryModel`, which keeps a map
  from id to status and carries the inductive invariant. `RegistryRuns` states what holds in every run,
  `Revocations` when a revocation is final, `FailedCreates` what becomes of a create whose persist failed.
  `TokenRegistry` is the class as one caller at a time sees it; each of its calls is an uninterrupted run of the
  machine.
- **Route table** (`Tables`, `Profiles`, `Routing`). A profile is expanded into a sorted table of canonical, alias
  and git rows; a path is resolved against it by slicing.
- **Authorisation and credentials** (`Auth`, `Admin`, `Credentials`, `Headers`, `ExtraHeaders`, `Gateway`,
  `Outcomes`, `TokenCopies`, on top of `Utf8` and `Base64`). From the candidate tokens in the client's headers to
  the header map of the upstream request, and end to end in `Gateway` and `Outcomes`.
- **Printers of the CLI** (`ShellWords`, `Exports`, `Templates`). Shell quoting against a lexer for the POSIX Shell
  Command Language, the activation script against what a shell makes of it, and the template renderer against a
  grammar of templates.

`Text` holds the parts of Rust's `str` that all of them use.

## How it is modelled

- Ids, tokens, times and persist failures are chosen by the environment. Fresh means: an id or a token nobody had.
  A token's hash is a constructor over the token, that is, a hash without collisions.
- One persist is one step, which replaces the file with the current memory or leaves it alone: the read lock is
  held from serialising to renaming.
- An event of the machine that is not enabled does nothing, so that a run is any list of events. What operations
  returned is recorded in a log that no decision depends on.
- A registry starts from a file whose ids, names and hashes are distinct (`GoodFile`); an absent or unparsable file
  is one.
- The HTTP library's header map is a map from lower-case names to lists of values; which URLs parse, and to which
  host, is a parameter.

## What turned out otherwise than documented

- **An acknowledged revocation can be undone.** Two revokes of one token overlap, the second is acknowledged, the
  first fails to persist and puts back the status it captured (`AcknowledgedRevocationUndone`, from every state with
  an active record). A revoke is final exactly if no revoke of the token that captured `Active` is in flight as it
  begins (`RevokeIsFinalIff`); a retry after a failure is (`RetriedRevokeIsFinal`).
- **A phantom token can go upstream.** The repository's README.md (line 199) has the gateway remove the phantom
  credential from the request. It removes the route's inject headers, the one header the token was matched in and
  `host`. A copy of the token under any other name is forwarded: as it is if no extra header has that name
  (`TokenCopyForwardedIff`, and `SecondCopyForwarded` for a request it happens to), and otherwise in the list
  the extra header is added to (`ClientMembersPass`, `PresentedBesideExtraIff`), as in `anthropic-beta`
  (profiles/routes/anthropic.yaml:9).
- **A failed create can come back.** If another operation's persist succeeds between the push and the rollback of a
  create, the record is on disk although the create reported an error, and if the process restarts before the next
  persist it is a token like any other (`FailedCreateOnDiskIff`, `RestartDecidesIff`, `FailedCreateReturns`).
- **403 before 404.** The repository's README.md (line 189) gives 404 for an unknown route. A scoped token gets
  403 there, only a token of all routes sees the 404, and a request that does not authenticate gets 401 or 407
  (`UnroutedStatusOfIssued`).
- **Extra leading slashes.** The matched prefix is cut off by its length plus one, counted from the start of the
  path, so with more than one leading slash the end of the route key goes upstream, but for odd strip prefixes
  (`PrefixStrippedIff`); a path without any is sliced out of range when it is a key (`OutOfRangeIff`).
- **Extra headers.** `insert_extra_headers` looks at the first value of a header only, and joining to it drops the
  others (`ExtraKeepsRepeatedIff`); it is idempotent exactly when `ExtraIdempotentIff` says so.
- **Route keys that begin with `__git__`** are not among the known routes, so a route with no other key cannot be
  named in a scope (`KnownRoutesIff`).
- **Paths in the activation script.** A path with a newline leaves the comment that reports it
  (`FeedCommentIff`, `PathLeavesComment`).
- **An empty scope at the registry level** is widened to all routes by the legacy migration at the next restart;
  the admin API does not let such a request through, and then a restart changes nothing (`CreateToken`,
  `ScopePassesIff`, `SequentialRestart`).

## Model

| member | source | states |
|---|---|---|
| TokenRecords.ValidateFirst | crates/enclave-credential-gateway/src/registry.rs:116-129 | the result is the first active record whose stored hash is the token's, and nothing exactly if there is none |
| TokenRecords.WithoutUndoesPush | crates/enclave-credential-gateway/src/registry.rs:105-108 | the rollback of a create restores the list exactly, order included |
| TokenRecords.StatusRestored | crates/enclave-credential-gateway/src/registry.rs:137-147 | the rollback of a revoke restores the list exactly |
| TokenRecords.MigrateIdempotent | crates/enclave-credential-gateway/src/registry.rs:62-66 | the legacy migration is idempotent |
| TokenRecords.MigratedFixed | crates/enclave-credential-gateway/src/registry.rs:62-66 | the migration leaves a list alone exactly when every record has a scope or all routes |
| TokenRecords.MigrateIs | crates/enclave-credential-gateway/src/registry.rs:62-66 | the migration sets `all_routes` where no scope is given, and touches no other field |
| RegistryModel.StepKeeps | crates/enclave-credential-gateway/src/registry.rs:77-164 | each atomic step of each operation, each persist outcome, each rollback and a crash keep the whole invariant: names, which copies hold which ids, statuses, revocations |
| RegistryModel.StepsKeep | crates/enclave-credential-gateway/src/registry.rs:77-164 | so does every run |
| RegistryMachine.StepRefines | crates/enclave-credential-gateway/src/registry.rs:58-164 | every step on the record list and the file is the model's step on maps |
| RegistryMachine.RunRefines | crates/enclave-credential-gateway/src/registry.rs:58-164 | so is every run |
| RegistryMachine.StartRefines | crates/enclave-credential-gateway/src/registry.rs:58-75 | the state after loading a file is in the invariant |
| RegistryMachine.CreateHistory | crates/enclave-credential-gateway/src/registry.rs:77-104 | a create begins only with a new id and token and a free name, and the log then knows its record |
| RegistryMachine.RevokeHistory | crates/enclave-credential-gateway/src/registry.rs:135-139 | a revoke that begins captures the status the record has |
| RegistryMachine.PersistHistory | crates/enclave-credential-gateway/src/registry.rs:105-113 | an operation persists once; success is its Ok, and after a failure it rolls back |
| RegistryMachine.RollBackHistory | crates/enclave-credential-gateway/src/registry.rs:105-110 | an operation rolls back exactly after a failed persist, and that is its error; a crash ends all of them |
| RegistryMachine.MatchesStatus | crates/enclave-credential-gateway/src/registry.rs:137-146 | overwriting the first record with an id overwrites that id's status and nothing else |
| RegistryMachine.MatchesWithout | crates/enclave-credential-gateway/src/registry.rs:107-108 | `retain` drops that id and nothing else |
| RegistryRuns.CreateIsDurable | crates/enclave-credential-gateway/src/registry.rs:77-114 | after an acknowledged create, in every later state of every interleaving with failures and crashes, the record is in memory and on disk, each time the created one but for its status and the legacy migration |
| RegistryRuns.CreatedAsRequested | crates/enclave-credential-gateway/src/registry.rs:84-114 | and the created one is active, with the token's hash, and has the name, scope, routes and bindings of the request, field by field |
| RegistryRuns.CreatedTokenAuthenticates | crates/enclave-credential-gateway/src/registry.rs:77-129 | an acknowledged token validates to its own record, now and after a restart at any point, while nobody asks to revoke it |
| RegistryRuns.RevocationFinalIff | crates/enclave-credential-gateway/src/registry.rs:135-152 | at any moment of any run, an id stays inactive in memory and on disk in every future exactly when it is inactive in both and no revoke of it in flight captured `Active` |
| Revocations.RevokeIsFinalIff | crates/enclave-credential-gateway/src/registry.rs:135-152 | a revoke is final once acknowledged, whatever interleaves, fails or crashes and whatever failed before, exactly when no revoke of the id in flight as it begins captured `Active` |
| Revocations.RetriedRevokeIsFinal | crates/enclave-credential-gateway/src/registry.rs:135-152 | so it is with nothing in flight, however many revokes of the id failed before |
| Revocations.RevokeIsAcknowledged | crates/enclave-credential-gateway/src/registry.rs:135-152 | between its two steps such a revoke stays in flight, and its own persist acknowledges it with the file as the memory |
| Revocations.RevocationHoldsIff | crates/enclave-credential-gateway/src/registry.rs:135-152 | whatever is in flight, if nothing is put back before the acknowledgement, the id is inactive in both copies at every later point for exactly as long as no rollback puts `Active` back |
| Revocations.RevokedTokenIsDead | crates/enclave-credential-gateway/src/registry.rs:116-152 | after such a final revoke the token validates neither in memory nor after a restart |
| RegistryRuns.RevokedTokenNeverValidates | crates/enclave-credential-gateway/src/registry.rs:116-152 | in a run in which no revoke of the id ever failed to persist, an acknowledged revocation, overlapping revokes included, leaves no active record of it, and its token validates neither in memory nor after a restart |
| RegistryRuns.AcknowledgedRevocationUndone | crates/enclave-credential-gateway/src/registry.rs:137-147 | from every state with an active record, two overlapping revokes can end with an acknowledged revocation and the record active |
| RegistryRuns.QuiescentCopies | crates/enclave-credential-gateway/src/registry.rs:105-110 | with nothing in flight, ids in memory are on disk, ids only on disk belong to creates that reported a persist error, and records in both are one record but for the legacy migration and the status, and for the status only if a revoke of it failed to persist |
| FailedCreates.FailedCreateOnDiskIff | crates/enclave-credential-gateway/src/registry.rs:104-114 | a create that reported a persist error is not in memory, and is on disk exactly when another operation's persist succeeded between its push and its rollback and none has since |
| FailedCreates.RestartDecidesIff | crates/enclave-credential-gateway/src/registry.rs:58-75 | an id that memory does not have is, after a restart, in memory and on disk in every later state if the file had it, and in neither ever again if not |
| FailedCreates.FailedCreateReturns | crates/enclave-credential-gateway/src/registry.rs:58-129 | a created record that is on disk at a restart, whatever its create reported, then authenticates and takes its name, if nobody asked to revoke it |
| RegistryRuns.QuiescentCleanSynced | crates/enclave-credential-gateway/src/registry.rs:58-75 | with nothing in flight and no failed persist since the load, memory and file are the same up to the legacy migration, and memory is exactly what a load would give if and only if no record has an empty scope, in every interleaving |
| RegistryRuns.NamesStayDistinct | crates/enclave-credential-gateway/src/registry.rs:84-110 | names, revoked tokens' included, are pairwise distinct in memory and on disk in every reachable state, given a starting file with distinct names |
| RegistryRuns.GoodFileKept | crates/enclave-credential-gateway/src/registry.rs:77-164 | from a file without repeated ids, names and hashes, every run writes such a file |
| RegistryRuns.RestartPreservesAuthorisation | crates/enclave-credential-gateway/src/registry.rs:58-75 | a restart of a quiescent, failure-free registry built from validated requests changes no record and no answer |
| TokenRegistries.TokenRegistry.LoadOrCreate | crates/enclave-credential-gateway/src/registry.rs:58-75 | the loop over the records computes the migration; memory is the normalised file |
| TokenRegistries.TokenRegistry.Persist | crates/enclave-credential-gateway/src/registry.rs:154-164 | the file becomes the current memory, or stays |
| TokenRegistries.TokenRegistry.CreateToken | crates/enclave-credential-gateway/src/registry.rs:77-114 | exactly which of the three outcomes; on Ok the record, with every field as asked for, is last in memory and the file is the memory; on any error memory and file are as before; memory stays in step with the file, exactly so unless the scope is empty |
| TokenRegistries.TokenRegistry.ValidateToken | crates/enclave-credential-gateway/src/registry.rs:116-129 | some record that is active, has the token's hash and has no such record before it, or nothing exactly if no record is active with that hash |
| TokenRegistries.TokenRegistry.RevokeToken | crates/enclave-credential-gateway/src/registry.rs:135-152 | exactly which of the outcomes; on Ok(true) the first record with the id is revoked in memory and on disk; otherwise both are as before |
| TokenRegistries.ExactAfterPush | crates/enclave-credential-gateway/src/registry.rs:62-66 | a loaded list with one record more is a fixpoint of the migration exactly when the record has a scope or all routes |
| TokenRegistries.CreateIsARun | crates/enclave-credential-gateway/src/registry.rs:77-114 | an uninterrupted create of the machine ends as the contract of `CreateToken` says |
| TokenRegistries.RevokeIsARun | crates/enclave-credential-gateway/src/registry.rs:135-152 | an uninterrupted revoke of the machine ends as the contract of `RevokeToken` says |
| TokenRegistries.SequentialSynced | crates/enclave-credential-gateway/src/registry.rs:58-164 | after any list of calls one after another, whichever persists fail and wherever it restarts, memory and file are the same up to the legacy migration, and memory is exactly what a load would give if and only if no record has an empty scope |
| TokenRegistries.SequentialRestart | crates/enclave-credential-gateway/src/registry.rs:42-75 | a registry built by admin-validated calls, failing persists included, is exactly what a restart loads: the same record for every token and the same `allows_route` for every route |
| Profiles.ExpandProfileRoutes | crates/enclave-credential-gateway/src/profile.rs:229-263 | Ok exactly when all normalised route, alias and git keys are pairwise distinct; then the table is strictly sorted, has one row per route, per alias and per git protocol, and its rows are exactly those whose every field the profile says |
| Profiles.RowsDescribed | crates/enclave-credential-gateway/src/profile.rs:111-156 | canonical, alias and git rows carry upstream, sources, injection, URL path prefix and strip prefix field by field from the profile, git rows their own upstream and sources |
| Profiles.NormalizeStrips | crates/enclave-credential-gateway/src/profile.rs:265-267 | a normalised key is the key without its leading and trailing slashes |
| Profiles.InsertRoute | crates/enclave-credential-gateway/src/profile.rs:269-281 | refuses exactly a key that is there; otherwise the table gains exactly this row and stays sorted |
| Profiles.CheckRouteKeys | crates/enclave-credential-gateway/src/profile.rs:232-241 | fails only if two keys collide, and on success all route keys differ |
| Profiles.ExpandRoute | crates/enclave-credential-gateway/src/profile.rs:244-260 | the rows of one route go in, or two keys collide |
| Tables.SortedUnique | crates/enclave-credential-gateway/src/profile.rs:262 | a sorted table is determined by its rows: `TableOf` leaves one table |
| Tables.InsertedSorted | crates/enclave-credential-gateway/src/profile.rs:269-281 | inserting a new key keeps the order |
| Text.LessIff | crates/enclave-credential-gateway/src/credstore.rs:77-77 | a text comes before another if it is shorter and agrees, or is smaller where they first differ |
| Routing.GitLanguage | crates/enclave-credential-gateway/src/profile.rs:164-176 | `is_git_smart_http` accepts exactly slashes, owner, `/`, repo, `.git/`, service, with owner and repo non-empty and slash-free and owner not ending in `.git` |
| Routing.LookupRow | crates/enclave-credential-gateway/src/state.rs:34-39 | in a table, every row is found under its key |
| Routing.OutOfRangeIff | crates/enclave-credential-gateway/src/state.rs:73-108 | the slice is out of range exactly for a slash-free path that is a prefix key and no git path |
| Routing.SegmentResolves | crates/enclave-credential-gateway/src/state.rs:87-108 | a path of slashes, a segment and a rest is resolved by the segment |
| Routing.PrefixStrippedIff | crates/enclave-credential-gateway/src/state.rs:87-108 | what follows the key, less the entry's strip prefix, goes upstream exactly when there is one leading slash or the strip prefix happens to take away the leftover of the key |
| Routing.AliasTransparent | crates/enclave-credential-gateway/src/state.rs:73-108 | a request through an alias with its strip prefix resolves to the canonical request's route, upstream, sources, injection and upstream path |
| Routing.CanonicalResolves | crates/enclave-credential-gateway/src/state.rs:87-108 | any path under a route's own key resolves to the route's fields in the profile, with the rest of the path |
| Routing.AliasResolves | crates/enclave-credential-gateway/src/state.rs:87-108 | any path under an alias resolves to the route's fields, with the rest of the path less the strip prefix where it begins with it |
| Routing.CanonicalClosure | crates/enclave-credential-gateway/src/profile.rs:111-156 | every entry's canonical route is a prefix key of the table that maps to itself |
| Routing.UnresolvedIsUnknown | crates/enclave-credential-gateway/src/state.rs:48-108 | the first segment of a path that does not resolve is not among the known routes |
| Routing.KnownRoutesIff | crates/enclave-credential-gateway/src/state.rs:48-56 | the known routes are exactly the normalised route keys of the profile, but for a route all of whose own keys begin with `__git__` |
| Routing.GitResolves | crates/enclave-credential-gateway/src/state.rs:77-84 | a git path resolves, path verbatim, to what the profile says of the git protocol of the least route key that has one, and exactly if some route has one |
| Credentials.CredStore.Register | crates/enclave-credential-gateway/src/credstore.rs:23-26 | inserts or overwrites this name and no other |
| Credentials.CredStore.Remove | crates/enclave-credential-gateway/src/credstore.rs:29-32 | removes this name and says whether it was there |
| Credentials.CredStore.GetChecked | crates/enclave-credential-gateway/src/credstore.rs:43-48 | the value exactly when the name is there for that service |
| Credentials.CredStore.ServiceOf | crates/enclave-credential-gateway/src/credstore.rs:52-55 | the service exactly when the name is there |
| Credentials.CredStore.GetForService | crates/enclave-credential-gateway/src/credstore.rs:62-67 | the value exactly when the service's own name is registered for it |
| Credentials.CredStore.List | crates/enclave-credential-gateway/src/credstore.rs:71-79 | every name with its service, once, sorted by name |
| Credentials.EntryFromLast | crates/enclave-credential-gateway/src/credstore.rs:23-32 | after any run of registers and removes, a name holds a token exactly if the last event about the name registered it |
| Credentials.BoundCredentialIff | crates/enclave-credential-gateway/src/proxy.rs:336-371 | if the token binds the route to a name, the result is exactly the value last registered under that name, for this route and not since removed, at the first source that accepts it, and nothing else ever |
| Credentials.DefaultCredentialIff | crates/enclave-credential-gateway/src/proxy.rs:376-393 | if it does not, and the route's own name is last registered for the route, the result is exactly that value at the first source that accepts it |
| Credentials.OneNameDecides | crates/enclave-credential-gateway/src/proxy.rs:320-399 | two stores that agree on the deciding name give the same result |
| Credentials.EnvironmentShutOut | crates/enclave-credential-gateway/src/proxy.rs:336-393 | with a binding or a default, environment and preferred source play no part |
| Credentials.EnvironmentCredentialIff | crates/enclave-credential-gateway/src/proxy.rs:408-430 | otherwise the preferred source if it accepts its variable, else the first that accepts its own |
| Credentials.ResolvedIsAccepted | crates/enclave-credential-gateway/src/proxy.rs:314-318 | whatever rule applies, the source accepts the value |
| Credentials.SourceAcceptsIff | crates/enclave-credential-gateway/src/proxy.rs:314-318 | a source takes a value that is not empty, begins with its prefix and with none of those it rejects |
| Utf8.DecodeEncode | crates/enclave-credential-gateway/src/auth.rs:60-62 | text survives encoding and `from_utf8` |
| Utf8.EncodeDecoded | crates/enclave-credential-gateway/src/auth.rs:60-62 | `from_utf8` accepts no second form of any text |
| Base64.Decode64Encode64 | crates/enclave-credential-gateway/src/proxy.rs:115-117 | decoding inverts encoding, for every byte string |
| Base64.SymbolOfAlphabet | crates/enclave-credential-gateway/src/proxy.rs:115-117 | the alphabet and the padding are those of RFC 4648 |
| Base64.Encode64Decode64 | crates/enclave-credential-gateway/src/auth.rs:57-59 | the decoder accepts only what the encoder prints |
| Headers.HeaderMap.RemoveClientCredentialHeaders | crates/enclave-credential-gateway/src/proxy.rs:241-250 | exactly the sources' headers and the matched header go |
| Headers.HeaderMap.InsertExtraHeaders | crates/enclave-credential-gateway/src/proxy.rs:252-287 | the loop applies each extra header in turn |
| Headers.HeaderMap.InsertExtraHeader | crates/enclave-credential-gateway/src/proxy.rs:253-285 | the edit in place is the specification `WithExtra` that the lemmas on extra headers are about |
| Headers.HeaderMap.Rewrite | crates/enclave-credential-gateway/src/proxy.rs:104-135 | the header map after the rewrite is `Rewritten` of the client's |
| Headers.ClientCredentialsDoNotInterfere | crates/enclave-credential-gateway/src/proxy.rs:104-135 | two requests that differ only under the route's inject headers, the matched header and `host` have the same upstream headers |
| Headers.OtherHeadersPass | crates/enclave-credential-gateway/src/proxy.rs:104-135 | every header outside those and the extra headers passes unchanged, repeated values included |
| Headers.CredentialHeadersFromNothing | crates/enclave-credential-gateway/src/proxy.rs:104-135 | under the credential headers and `host` the upstream sees what it would see from a client without headers |
| Headers.CredentialHeadersAreOurs | crates/enclave-credential-gateway/src/proxy.rs:104-127 | of the credential headers the upstream sees only the selected one, with the one value the gateway made |
| Headers.FillOnce | crates/enclave-credential-gateway/src/proxy.rs:118-120 | a format with one placeholder puts the credential there, whatever it contains |
| Headers.FillStep | crates/enclave-credential-gateway/src/proxy.rs:118-120 | every placeholder is replaced, left to right, and what is put in is not looked at again |
| Headers.InjectedAsFormatted | crates/enclave-credential-gateway/src/proxy.rs:113-135 | the inject header is the credential in the source's format, as bytes, or empty if that has a control character; and so is `host` |
| Headers.FromStrIs | crates/enclave-credential-gateway/src/proxy.rs:124-125 | a text is a header value exactly if it has no control character but the tab |
| Headers.HasMemberIff | crates/enclave-credential-gateway/src/proxy.rs:268-273 | a list has a value if some part of it between commas, trimmed, is the value in any case |
| ExtraHeaders.ExtraAppendsMember | crates/enclave-credential-gateway/src/proxy.rs:263-281 | one extra header, whatever the header holds: a list keeps its members in order and gets the value unless it was among them; a value without a text form stays and the new one comes after it |
| ExtraHeaders.ExtrasAppendMembers | crates/enclave-credential-gateway/src/proxy.rs:252-287 | the same under every name of a whole list of extra headers with distinct names |
| ExtraHeaders.ExtrasAt | crates/enclave-credential-gateway/src/proxy.rs:252-287 | under the name of one extra header the whole list does what that one alone does |
| ExtraHeaders.ExtraKeepsRepeatedIff | crates/enclave-credential-gateway/src/proxy.rs:263-284 | values after the first survive exactly when nothing is joined to the first |
| ExtraHeaders.ExtraIdempotentIff | crates/enclave-credential-gateway/src/proxy.rs:252-287 | the exact condition under which adding an extra header twice is adding it once |
| ExtraHeaders.ExtrasIdempotent | crates/enclave-credential-gateway/src/proxy.rs:252-287 | `insert_extra_headers` is idempotent for distinct names, list values and readable headers |
| ExtraHeaders.ExtrasArrive | crates/enclave-credential-gateway/src/proxy.rs:112-135 | whatever the client sent, in the upstream request every extra header of the selected source is a member of its header, except that `host` is the upstream's |
| ExtraHeaders.ClientMembersPass | crates/enclave-credential-gateway/src/proxy.rs:104-127 | what the client had in the list of an extra header that is no credential header goes upstream too, in order |
| Auth.ExtractCandidateTokensFromHeader | crates/enclave-credential-gateway/src/auth.rs:81-94 | exactly the tokens that some readable value of the header yields, none empty, none twice |
| Auth.RegistryAuthCandidates | crates/enclave-credential-gateway/src/auth.rs:123-142 | exactly the tokens presented in a header of the sources, raw values included, or in an authorization header, each with the header it was found in |
| Auth.RequestCandidatesAre | crates/enclave-credential-gateway/src/auth.rs:123-142 | a request's candidates are the tokens presented in the headers searched, each tagged with its header |
| Auth.SourcesComeInOrder | crates/enclave-credential-gateway/src/auth.rs:123-142 | candidates of earlier sources come first, those of the authorization headers last |
| Auth.FieldCandidatesAre | crates/enclave-credential-gateway/src/auth.rs:81-94 | a header's candidates are the non-empty tokens its values yield, without repetitions |
| Auth.ValuesCandidatesGrow | crates/enclave-credential-gateway/src/auth.rs:81-94 | values are tried in order: what earlier values yield comes first |
| Auth.OnlyAuthorizationCandidates | crates/enclave-credential-gateway/src/auth.rs:123-142 | a request whose only credential header is `authorization` presents exactly the tokens of its text |
| Auth.BearerRequest | crates/enclave-credential-gateway/src/auth.rs:32-56 | `Authorization: Bearer T` alone presents exactly T |
| Auth.BasicRequest | crates/enclave-credential-gateway/src/auth.rs:57-72 | the Basic value the gateway injects, alone, presents exactly user and credential |
| Auth.DeadTokenIgnored | crates/enclave-credential-gateway/src/auth.rs:106-121 | a token that does not validate might as well not be among the candidates |
| Auth.PresentedUpstreamIff | crates/enclave-credential-gateway/src/proxy.rs:104-127 | a token presented under a name no extra header in use has is still presented there upstream exactly when the name is no inject header of the route and not the matched header, or the gateway's own credential reads as the token |
| Auth.PresentedBesideExtraIff | crates/enclave-credential-gateway/src/proxy.rs:104-127 | under the name of an extra header that is no credential header, it is exactly when the client's value is not joined with the gateway's, or reads as the token when it is |
| TokenCopies.TokenCopyForwardedIff | crates/enclave-credential-gateway/src/proxy.rs:104-127 | a copy of the token that authenticated a forwarded request is forwarded with it under exactly those conditions |
| TokenCopies.SecondCopyForwarded | crates/enclave-credential-gateway/src/proxy.rs:241-250 | on a concrete route, a request with its token in both authorization headers is forwarded, and the copy in `proxy-authorization` with it |
| Auth.BasicRoundTripIff | crates/enclave-credential-gateway/src/auth.rs:51-79 | the Basic value the gateway injects is a valid header and is parsed back to user and credential exactly when the user has no colon (or is all colons before an empty credential) |
| Auth.BasicDecodes | crates/enclave-credential-gateway/src/auth.rs:32-79 | a Basic header over any text yields the halves of that text |
| Auth.TokenCandidate | crates/enclave-credential-gateway/src/auth.rs:32-56 | after `bearer` or `token` in any case, the one candidate is the trimmed rest in its own case |
| Auth.RawCandidate | crates/enclave-credential-gateway/src/auth.rs:75-77 | a text without a scheme is itself the candidate, trimmed, where raw values count, and none elsewhere |
| Auth.RawRequest | crates/enclave-credential-gateway/src/auth.rs:123-142 | a token alone in the header of a source, as it is, is presented in that header, and nothing else is |
| Auth.BasicCandidates | crates/enclave-credential-gateway/src/auth.rs:57-72 | after `basic` in any case, the encoding of a text yields its halves, and anything else nothing |
| Auth.HalvesOfWhole | crates/enclave-credential-gateway/src/auth.rs:71-73 | a text without a colon is its own and only half |
| Auth.FindRegistryAuthIs | crates/enclave-credential-gateway/src/auth.rs:106-121 | the first candidate that validates, or none does |
| Auth.RegistryAuthIsGenuine | crates/enclave-credential-gateway/src/auth.rs:203-208 | who authenticates is an active record of the registry whose token the request carries in the header reported |
| Admin.ScopePassesIff | crates/enclave-credential-gateway/src/admin.rs:309-337 | a scope passes exactly if it is all routes alone, or a non-empty list of known routes; either way the migration leaves it alone |
| Admin.UnknownEmptyIff | crates/enclave-credential-gateway/src/admin.rs:323-334 | the routes reported are exactly those of the scope that are not known |
| Admin.ValidateTokenCreds | crates/enclave-credential-gateway/src/admin.rs:339-369 | passes exactly if every binding is within the scope and names a stored token of that service; an error names a binding that has the fault it reports |
| Admin.ValidTokenNameIff | crates/enclave-credential-gateway/src/admin.rs:290-307 | a token name is one path component at either slash, and not `.` or `..` |
| Admin.ValidCredNameIff | crates/enclave-credential-gateway/src/admin.rs:277-288 | a credential name is 1 to 128 letters, digits, underscores and hyphens |
| Admin.HandleCreateToken | crates/enclave-credential-gateway/src/admin.rs:110-154 | each status exactly when it applies, validation before mutation, and nothing changed unless 200 |
| Admin.HandleRevokeToken | crates/enclave-credential-gateway/src/admin.rs:205-225 | each status exactly when it applies, and nothing changed unless 200 |
| Admin.HandleRegisterCred | crates/enclave-credential-gateway/src/admin.rs:228-256 | stores exactly when name and service are valid; every stored token stays one of a known service |
| Admin.HandleDeleteCred | crates/enclave-credential-gateway/src/admin.rs:268-275 | removes the name, with the same answer whether or not it was there |
| Gateway.ForwardedIsAuthorised | crates/enclave-credential-gateway/src/auth.rs:106-121 | the record a request is forwarded for is an active one of the registry, its token is presented in a header searched on the route, and the source accepts the credential |
| Gateway.ForwardedIff | crates/enclave-credential-gateway/src/auth.rs:185-245 | without the fallback token, a request is forwarded with this URL and these headers exactly when its first candidate that validates has a record of all routes or with the canonical route in its scope, and that record resolves to a credential with which URL and headers are made |
| Gateway.CredentialHeadersReplaced | crates/enclave-credential-gateway/src/proxy.rs:21-135 | nothing the client sent under a credential header, the header its token was found in or `host` influences what is forwarded there; under a name no extra header has it is the one value made of the resolved credential, or nothing |
| Gateway.UnroutedStatus | crates/enclave-credential-gateway/src/auth.rs:192-222 | on a path that does not resolve: 401 or 407 without a valid token, 403 with a scoped one, 404 with one of all routes |
| Gateway.IssuedWithinKnown | crates/enclave-credential-gateway/src/admin.rs:122-135 | in every run through the admin API from a file whose scopes are within the known routes, every record's scope is, in memory and on disk |
| Gateway.UnroutedStatusOfIssued | crates/enclave-credential-gateway/src/auth.rs:192-222 | the status law for every registry such a run can reach, before and after a restart |
| Gateway.RevokedTokenIsRefused | crates/enclave-credential-gateway/src/auth.rs:185-295 | after a revoke final in that sense, every request authenticates as its other candidates do and never as the revoked record, and without another candidate gets 401 or 407 on every path, before and after a restart |
| Gateway.IssuedTokenIsScoped | crates/enclave-credential-gateway/src/auth.rs:185-245 | a request that presents the token of an active record, before any other that validates, is let through exactly if that record allows the canonical route, and gets 403 otherwise, in every run, before and after a restart |
| Gateway.BearerRequestIsScoped | crates/enclave-credential-gateway/src/auth.rs:185-245 | so is a request with that token in `Authorization: Bearer` and no other credential header |
| Outcomes.RawRequestIsScoped | crates/enclave-credential-gateway/src/auth.rs:185-245 | so is a request with that token as it is in the header of a source and no other credential header |
| Outcomes.RequestedScopeDecides | crates/enclave-credential-gateway/src/auth.rs:203-222 | a token acknowledged for a request, while nobody asks to revoke it, is let through on exactly the routes the request named, or on all if it asked for all, in every run, before and after a restart |
| Outcomes.AcknowledgedRecord | crates/enclave-credential-gateway/src/registry.rs:77-129 | the record such a token validates to has the scope and the bindings of the request |
| Outcomes.ResolvedOutcome | crates/enclave-credential-gateway/src/auth.rs:203-222 | on a path that resolves, the record of the first candidate that validates decides: 403 outside its scope, else 503 without a credential, else 502 or forwarded |
| Outcomes.UnauthenticatedOutcome | crates/enclave-credential-gateway/src/auth.rs:265-294 | if no candidate validates: 401 for a git request, 407 for another |
| Outcomes.BadGatewayIff | crates/enclave-credential-gateway/src/proxy.rs:88-100 | 502 exactly if there is a credential and the URL made with it does not parse |
| Outcomes.FallbackOutcome | crates/enclave-credential-gateway/src/auth.rs:228-263 | the fallback token counts only where no registry token authenticates, and only on a path that resolves |
| Outcomes.PanickedIff | crates/enclave-credential-gateway/src/state.rs:87-98 | the slice panics exactly on a path without a slash that is a prefix key and no git path, whoever asks |
| Outcomes.CanonicalUrl | crates/enclave-credential-gateway/src/proxy.rs:58-74 | a request on a route's own key goes to the route's upstream, then, in URL mode, the URL path prefix and the credential, then the rest of the path and the query |
| Outcomes.AliasUrl | crates/enclave-credential-gateway/src/proxy.rs:58-74 | a request on an alias goes there too, with the rest of its path less the strip prefix |
| Outcomes.GitUrl | crates/enclave-credential-gateway/src/proxy.rs:58-74 | a git request goes to a git protocol's own upstream, with its path and query as they are |
| ShellWords.ShellWordIff | crates/gate-cli/src/tooling.rs:349-366 | a printed value is one shell word of exactly that value, if and only if it has no NUL |
| ShellWords.FeedShellWord | crates/gate-cli/src/tooling.rs:356-366 | so it is wherever a word may begin or go on, as after `export KEY=` |
| ShellWords.FeedEscaped | crates/gate-cli/src/tooling.rs:349-354 | inside single quotes, the escaped text is read as the text |
| ShellWords.ShellWordInjective | crates/gate-cli/src/tooling.rs:356-366 | different values print differently |
| Exports.Activation.PushExport | crates/gate-cli/src/tooling.rs:176-181 | the edit in place keeps the other exports in order, and the list is each pushed key once, at its last push |
| Exports.LastOnlyPush | crates/gate-cli/src/tooling.rs:176-181 | one more push removes its key from what the earlier ones left and comes last |
| Exports.LastOnlyDistinct | crates/gate-cli/src/tooling.rs:176-181 | keys are pairwise distinct after any run of pushes |
| Exports.AssignedLastOnly | crates/gate-cli/src/tooling.rs:176-181 | no key loses the value it was last given |
| Exports.WithoutPosition | crates/gate-cli/src/tooling.rs:177-179 | removing the first position of a key removes the key |
| Exports.FeedScript | crates/gate-cli/src/tooling.rs:65-75 | the printed lines are read as `export`, `key=value` and a newline each, and a newline for each comment |
| Exports.FeedCommentIff | crates/gate-cli/src/tooling.rs:70-73 | a path is read as part of its comment exactly when it has no newline and no NUL |
| Exports.PathLeavesComment | crates/gate-cli/src/tooling.rs:70-73 | a path with a newline does not: the rest is a word of the script |
| Exports.ScriptAssignsPushes | crates/gate-cli/src/tooling.rs:65-75 | a shell that runs the script of any run of pushes gives each key its last value and changes no other variable |
| Exports.ExportsComeFirst | crates/gate-cli/src/tooling.rs:65-75 | whatever the paths hold, the shell first reads the exports, which give each key its last value |
| Templates.RenderTemplate | crates/gate-cli/src/tooling.rs:294-334 | the loop terminates and computes `Render`, errors included |
| Templates.RenderPrinted | crates/gate-cli/src/tooling.rs:294-334 | rendering a printed template gives its literals and values in order; what a value holds is not scanned |
| Templates.ParsePrint | crates/gate-cli/src/tooling.rs:302-309 | a well-formed template is what its text parses to |
| Templates.PrintParse | crates/gate-cli/src/tooling.rs:302-309 | every text is the print of a well-formed template |
| Templates.RenderIsMeaning | crates/gate-cli/src/tooling.rs:294-334 | for every text, the renderer computes the meaning of the one well-formed template it is the print of |
| Templates.RenderedIff | crates/gate-cli/src/tooling.rs:304-327 | rendering succeeds exactly when every marker is closed and every name known, and reports an open marker exactly when every name before it is known |
| Templates.ValueOfIs | crates/gate-cli/src/tooling.rs:308-326 | which value each name stands for, and the error of every other name |
| Templates.RenderVariable | crates/gate-cli/src/tooling.rs:302-328 | a variable, with any white space around its name, is rendered as the value of the name |

## Left out

- HTTP plumbing: requests and responses, upstream calls, WebSocket tunnelling, URI parsing, logging. They are I/O and library code; a request is its path, query and headers.
- Hashing, constant-time comparison, zeroisation, random and UUID generation and clocks; replaced by a collision-free hash and fresh values.
- The file system below one atomic snapshot: torn writes, the temporary file that overlapping persists share, and read errors of `load_or_create`. Overlapping persists hold read locks together, so they write the same snapshot.
- Requests that are cancelled between two steps. An operation runs to its end or dies in a crash.
- JSON, YAML and TOML syntax; profiles and token files are values, and the merging of profile files in `try_load_routes_from_files` is not part of this model.
- How the single `GATE_PHANTOM_TOKEN` is matched in a header (`find_phantom_auth`, `validate_bearer_or_raw`): what it finds is a parameter of `Gateway.Handle`.
- Non-ASCII case folding of header names, and the length limit on header names and on the number of headers.
- Byte offsets: texts are sequences of characters, so a slice that falls inside a multi-byte character, which would panic, does not occur; request paths and header texts are ASCII.
- The 503 answers of an admin API without a registry, `list_tokens`, `list_creds`, admin authentication and the text of error messages: one-branch code.
- `transport.rs`, `config.rs`, `secure_file.rs`, the commands and the build scripts: network client, permissions, printing and packaging.
- File writing in `activate_with_manifest` and the `materialize_*` functions, and how a `ToolContext` is built; the model keeps the string and list logic.
- Exports.ScriptAssignsPushes: is about keys that are POSIX names, values without NUL and one-line paths; a key outside the names is not something a shell can export, and `FeedCommentIff` is exact about paths.
- RegistryMachine.StartRefines: starts from files without repeated ids, names or hashes, which is all a registry writes (`RegistryRuns.GoodFileKept`); `load_or_create` reads any other list too, and there revoking one of two records with one hash leaves the token valid (`TokenRecords.DuplicateHashStaysValid`).
- RegistryRuns.RevokedTokenNeverValidates: asks that no revoke of the id ever failed; `Revocations.RevokeIsFinalIff` and `Revocations.RevocationHoldsIff` have the exact conditions.
