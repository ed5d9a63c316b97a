# NAEOS cores: a Dafny model and its proofs

Twelve small stateful, algorithmic or byte-level parts of the NAEOS tool, each modelled
in the form its source has (mutable classes with loops where the source mutates,
functions where it computes), and what holds of every input or of every run of them.
`dafny verify dfyconfig.toml` checks everything.

Each mutable class is proved, method by method, against a transition function on
values (`...Spec` modules); the results about whole runs are lemmas about those
functions. Time is an integer argument everywhere, and a background tick is one call
at an arbitrary point of a run. All lemmas switch automatic induction off.

| files | part |
|---|---|
| `CacheSpec`, `CacheTraces`, `CacheRecency`, `Cache` | LRU/LFU cache with expiry: stack inclusion, agreement with a dictionary up to evictions, eviction victims, counters |
| `RateLimitSpec`, `RateLimitTraces`, `RateLimitRefills`, `RateLimitAnswers`, `RateLimitSweeps`, `RateLimit` | token bucket on 64-bit integers: sliding-window bound, Remaining and ResetTime, invisible sweeps, each with its exact condition |
| `SchemaSpec`, `SchemaTypes`, `SchemaNames`, `SchemaJson`, `Schema` | depth-first JSON Schema generation on cyclic type graphs, types that share a name, and what the schemas accept against what Go writes |
| `RbacSpec`, `Rbac` | permission search over parent roles with a shared visited set |
| `AuditChain`, `AuditCsv` | hash-chained audit log; CSV export |
| `Ber`, `LdapResult` | BER elements and LDAP search results |
| `SseSpec`, `SseBlocks`, `Sse` | server-sent events |
| `PoolSpec`, `Pool` | round-robin over healthy pool members |
| `StoreSpec`, `Store` | artifact manifest and its three indexes |
| `SccSpec`, `SccSearch`, `Scc` | strongly connected components of the planner's graph by Tarjan's algorithm |
| `DiffSpec`, `Diff`, `DiffPatch` | line diffs of two texts and patching with them |
| `Common` | option type, set and integer lemmas |

What was found not to hold as the code or its comments suggest, each with the exact
condition proved:

- Rate limiter, with a rate below one or where 64-bit integers overflow: an idle client
  is not refilled to the rate (`FitsExactly`) or ends up below zero (`NeverNegativeIff`,
  `StaysProperIff`), Remaining does not say what Allow will do (`RemainingLawIff`), the
  reset time is wrong (`ResetLawIff`), a sweep forgives spent tokens
  (`WindowBoundExactly`) or is noticed otherwise (`SweepsAreInvisibleIff`).
- Hash chain: `Log` advances the chain before the inner write, so a failed write
  followed by a successful one breaks verification (`LogPassesIff`); cutting off a suffix
  is never noticed (`OnlyTruncationPasses`).
- CSV: CR does not make the exporter quote a field, so a reader that takes CR LF for a
  line break loses a CR at the end of the details (`OriginalsComeBackIff`).
- `parseLDAPSet` says it returns the bytes consumed; when the last content is cut off it
  counts that element's two header bytes as well (`ScannedIsParsedIff`).
- LDAP: a long-form length is taken for a short one, so of what X.690 prints only
  elements of up to 127 bytes are sure to come back (`StandardBackIff`).
- Connection pool: a scan that runs over the end of the 64-bit counter can miss the only
  healthy member (`FindsHealthyIff`), and then the shares of the members are wrong
  (`RoundRobinLawIff`).
- Artifact store: storing new content under a stored path breaks the indexes
  (`AddKeepsAgreementIff`) for good (`RunAgreesIff`); `SetNEIRVersion`, said to stamp all artifacts in the store,
  stamps the manifest copies only (`StampAgreesIff`); a kind called "total" spoils the
  summary (`SummaryAddsUpIff`).
- Server-sent events: a frame without data, or with a line break in it, does not come
  back (`FrameComesBackIff`); when the first of several data values is empty, the line
  break that the HTML standard puts behind it is lost (`DataAsStandardIff`).
- Schema generator: types of different packages, and all types without a name, can share
  a type name (`NamesCoincideIff`); then one definition is lost and a `$ref` leads to the
  wrong one (`WrongRef`), unless their definitions are equal (`GeneratedCompleteIff`). A
  pointer, slice or map type that contains itself with no struct between keeps it from
  ending (`EndsIff`). A slice of bytes gets the schema of an array, an array or interface
  that of a string, and an enumeration of anything but text is attached as text; of each
  such type something is written that its schema does not accept (`NotPlain`).
- Diff: patching the empty text with its own diff to another text leaves a line break too
  many (`PatchLawIff`).

## Model

| member | source | states |
|---|---|---|
| CacheTraces.LruInclusion | internal/cache/cache.go:75-131 | for any trace on two LRU caches, the recency list of the one with less capacity is a subsequence of the other's, entry for entry, and every hit of the smaller is a hit of the larger with the same value |
| CacheTraces.StepKeepsInclusion | internal/cache/cache.go:183-256 | every single operation, with its expiries and evictions, keeps that relation and the bound on the difference in length |
| CacheTraces.HitReturnsLatestSet | internal/cache/cache.go:75-153 | either policy, any trace: keys distinct, length within capacity, and a hit returns the value of the latest Set not deleted, cleared, invalidated or expired |
| CacheTraces.OnlyEvictionsLose | internal/cache/cache.go:75-131 | either policy, any trace whose clock does not go back: Get answers as an unbounded dictionary, hit or miss, except that it misses when the key was evicted since its latest Set |
| CacheTraces.RoomyCacheIsDictionary | internal/cache/cache.go:75-120 | while all keys set and not deleted, cleared or invalidated, expired ones included, fit and the clock does not go back, every Get, hit or miss, answers as an unbounded dictionary |
| CacheTraces.Conservation | internal/cache/cache.go:75-153 | over any trace: Sets = live + evicted + overwritten + cleared, hits are the Gets that returned a value and misses the others, and the raw size counter exceeds the length by the overwrites since the last clear |
| CacheTraces.FrequencyCountsHits | internal/cache/cache.go:86-86 | over any trace, the frequency of a live entry is the number of hits since its key was last set |
| CacheTraces.InvalidateLeaves | internal/cache/cache.go:364-389 | for every stem, an entry is left by the pattern stem* exactly when it was there and its key does not begin with the stem; for a pattern with no star at its end, when its key is another |
| CacheTraces.CleanupLeaves | internal/cache/cache.go:183-198 | an entry is left exactly when it was there and has no deadline, was not met, or had not passed its deadline when it was |
| CacheRecency.ListIsByRecency | internal/cache/cache.go:75-131 | over any trace and under either policy, the entries stand in strictly decreasing order of the latest Set or Get of their key |
| CacheRecency.EvictionLaw | internal/cache/cache.go:109-119 | after any trace, a Set beyond the capacity drops one entry: the least recently used one (LRU), or the least recently used of those hit least often since they were set (LFU), the new one included; within the capacity it drops none |
| CacheSpec.LfuVictimIsLastOfLeastUsed | internal/cache/cache.go:258-273 | the LFU victim is the one entry of minimal frequency that is nearest the back |
| CacheSpec.LfuRejectsNewcomer | internal/cache/cache.go:109-119 | a full LFU cache evicts the entry just inserted exactly when all others have been hit |
| Cache.Cache.Remove | internal/cache/cache.go:276-286 | unlinks one element from list and dictionary together and keeps them in bijection |
| Cache.Cache.EvictLRU | internal/cache/cache.go:248-256 | the loop drops from the back down to capacity, also for a negative capacity |
| Cache.Cache.LeastUsed | internal/cache/cache.go:260-271 | the backward scan finds the LFU victim |
| Cache.Cache.EvictLFU | internal/cache/cache.go:258-274 | the loop evicts victims down to capacity |
| Cache.Cache.Get | internal/cache/cache.go:75-94 | answer and whole new state of a hit, an expired hit and a miss |
| Cache.Cache.SetWithTTL | internal/cache/cache.go:100-120 | whole new state, eviction included; an overwrite is no eviction |
| Cache.Cache.Delete | internal/cache/cache.go:122-131 | removes and counts exactly this key |
| Cache.Cache.Exists | internal/cache/cache.go:133-144 | true exactly when a Get would hit |
| Cache.Cache.Cleanup | internal/cache/cache.go:183-198 | the walk, which reads the clock anew for every entry, removes exactly the entries expired when it comes to them, and counts them |
| Cache.HTTPCache.Invalidate | internal/cache/cache.go:364-389 | in whatever order keys are visited: with a star at the end of the pattern the keys that begin as it does go, otherwise the key that equals it, and all other entries stay as they are; "*" clears |
| RateLimitTraces.SlidingWindow | internal/api/middleware.go:46-80 | any run of Allow calls by any clients with sweeps anywhere admits at most rate requests of a client in any window |
| RateLimitTraces.SpanBound | internal/api/middleware.go:46-80 | in any span of length T at most rate * (T / window + 1) are admitted |
| RateLimitTraces.WindowBoundExactly | internal/api/middleware.go:46-147 | the window bound holds of all runs exactly when the rate is positive and ten windows do not overflow to less than one |
| RateLimitTraces.RoomLaw | internal/api/middleware.go:52-61 | after every run from the empty table at most maxClients clients have a record; one without is admitted exactly when fewer have one, turned away it leaves the table as it was, and no call touches the record of another |
| RateLimitRefills.FitsExactly | internal/api/middleware.go:63-71 | a record idle for a window is refilled to the rate, for all records and times, exactly when rate * (MaxInt64 / window) + rate - 1 fits 64 bits |
| RateLimitRefills.NeverNegativeIff | internal/api/middleware.go:63-71 | no refill leaves a count below zero, for all records and times, exactly when that fits or the rate divides 2^63 |
| RateLimitAnswers.StaysProperIff | internal/api/middleware.go:46-80 | every run leaves every client between 0 and rate - 1 tokens and last seen in the past exactly when the rate is positive and one of those two conditions holds |
| RateLimitAnswers.BurstAnswers | internal/api/middleware.go:63-79 | on any table, requests of one client at one instant are admitted until its refilled tokens are spent, and not after |
| RateLimitAnswers.RemainingPredictsAllowIff | internal/api/middleware.go:90-107 | on any reachable record, exactly the next Remaining requests are admitted and no more if and only if the refill has not wrapped below zero or the client is turned away either way |
| RateLimitAnswers.RemainingLawIff | internal/api/middleware.go:90-107 | that holds after every run exactly when the rate is positive and rate * (MaxInt64 / window) fits 64 bits |
| RateLimitAnswers.ResetLawIff | internal/api/middleware.go:110-119 | after every run a client out of tokens is admitted again exactly from its reset time on, and one with tokens always, exactly when the rate is positive and no refill overflows |
| RateLimitSweeps.SweepsAreInvisibleIff | internal/api/middleware.go:128-147 | for all runs in which no unknown client is turned away, sweeps anywhere change no Allow answer and no later Remaining, exactly when the rate is positive, every record old enough for a sweep would be refilled to the rate, and no count goes below zero |
| RateLimitSweeps.SweptFullMeans | internal/api/middleware.go:137-143 | the shortest and the longest idle time of a swept record decide whether all of them would be refilled to the rate |
| RateLimitSweeps.OrdinaryIsInvisible | internal/api/middleware.go:128-147 | sweeps are invisible whenever neither the refill nor ten windows overflow |
| RateLimit.RateLimiter.Allow | internal/api/middleware.go:46-80 | answer and whole new table of one call, on 64-bit arithmetic |
| RateLimit.RateLimiter.Remaining | internal/api/middleware.go:90-107 | the tokens it reports, nothing written; RemainingLawIff ties it to Allow |
| RateLimit.RateLimiter.Cleanup | internal/api/middleware.go:137-144 | deleting while iterating drops exactly the stale records |
| Schema.Generator.FieldSchema | cmd/neir-schema-gen/main.go:126-139 | for every type graph whose cycles go through a struct, names shared or not: terminates and returns the schema the type alone determines, visiting only what the type leads to |
| Schema.Generator.StructSchema | cmd/neir-schema-gen/main.go:141-204 | every name it visits for the first time is defined by the type it was visited for, the children visited, earlier definitions untouched |
| Schema.Generator.Generate | cmd/neir-schema-gen/main.go:95-124 | for every type graph: each name met has the definition of one reachable type of that name; the table is the complete one if no two reachable types share a name, and with distinct JSON names in each struct if and only if those that share a name share a definition; no merge under a root name without a dot |
| SchemaJson.WrittenIffAccepted | cmd/neir-schema-gen/main.go:126-249 | with a complete table, distinct JSON names and plain field types, a JSON value is accepted by the schema of a type exactly when Go writes it for a value of the type without nil: shapes, required members, references and enumerations together |
| SchemaJson.NotPlain | cmd/neir-schema-gen/main.go:206-248 | of every type that is not plain (it comes down to a slice of bytes, a kind not told apart or an enumeration of anything but text) something is written that its schema does not accept |
| SchemaJson.ShapesApart | cmd/neir-schema-gen/main.go:206-219 | whatever table: the schema of a slice accepts arrays only, that of a map objects only |
| SchemaJson.RootIffAccepted | cmd/neir-schema-gen/main.go:98-115 | under the same conditions the root properties accept exactly what is written for the fields of the root |
| SchemaJson.RequiredIff | cmd/neir-schema-gen/main.go:161-178 | a name is required exactly when a listed field without omitempty has it |
| SchemaSpec.EnumAttachedIff | cmd/neir-schema-gen/main.go:287-299 | the values a property enumerates are those listed for the field's type, looked at through one pointer, if that is no slice; else those of the type's own schema |
| SchemaSpec.ListedInOrder | cmd/neir-schema-gen/main.go:161-183 | one more field adds its property and its required name if it is listed, over an earlier one of the same JSON name, and nothing otherwise |
| SchemaSpec.TagMeans | cmd/neir-schema-gen/main.go:162-172 | for a tag name or name,options: the field is listed exactly when exported with a name other than empty and "-", and optional exactly when omitempty is one of the options |
| SchemaSpec.PartsMean | cmd/neir-schema-gen/main.go:260-270 | splitting a tag at its commas: the parts have none and joined give the tag back |
| SchemaTypes.EndsIff | cmd/neir-schema-gen/main.go:126-139 | with defined pointer, slice and map types that may contain themselves, the recursion over element types ends exactly when it does not come to one again without a struct between, and then within as many steps as there are |
| SchemaTypes.DepthDoesNotMatter | cmd/neir-schema-gen/main.go:126-139 | the type it sees does not depend on how deep it may go |
| SchemaNames.GeneratedCompleteIff | cmd/neir-schema-gen/main.go:141-194 | any table the generator may end with is complete if and only if reachable types of one name have one definition and their names have all been met; with distinct JSON names the first is enough |
| SchemaNames.SomeTableIff | cmd/neir-schema-gen/main.go:149-194 | a table right for every reachable type exists exactly when reachable types of one name have one definition |
| SchemaNames.CompleteIsUnique | cmd/neir-schema-gen/main.go:156-194 | only one table of definitions is complete, so the order of the walk cannot show |
| SchemaNames.WrongRef | cmd/neir-schema-gen/main.go:149-154 | two fields of the root whose types share a name but not a definition get one $ref, which leads to the wrong definition for one of them |
| SchemaNames.AnonymousClash | cmd/neir-schema-gen/main.go:251-258 | on a root with two fields of anonymous struct types no run ends with a complete table |
| SchemaNames.RootRefsResolve | cmd/neir-schema-gen/main.go:112-114 | for every type graph, every $ref in the root properties resolves |
| SchemaNames.DefinitionRefsResolve | cmd/neir-schema-gen/main.go:150-194 | for every type graph, every $ref inside a definition resolves, and the definition is titled by its key |
| SchemaSpec.NamesCoincideIff | cmd/neir-schema-gen/main.go:251-258 | two Go types, instantiated generic ones included, get one type name exactly when they have one name and their package paths, without the model's path, agree with slashes read as dots |
| SchemaSpec.ShortMeans | cmd/neir-schema-gen/main.go:251-255 | the model's path is cut off with a slash behind it or without, and nothing else is |
| Rbac.RBAC.HasPermission | internal/auth/auth.go:93-104 | true exactly when a chain of defined, non-denying roles leads from a role of the user to one that allows |
| Rbac.RBAC.HasPermissionRecursive | internal/auth/auth.go:106-132 | terminates on cycles; on failure every role newly marked in the shared set is spent |
| RbacSpec.SpentGrantsNothing | internal/auth/auth.go:107-110 | no granting chain starts in a visited set all of whose roles are spent |
| RbacSpec.DeniesIff | internal/auth/auth.go:134-153 | a role denies exactly when an entry of its deny table for the resource or "*" lists the action or "*" |
| RbacSpec.AllowsIff | internal/auth/auth.go:155-188 | a role allows exactly when its own table lists the request so, or a permission it names that exists |
| Rbac.RBAC.CheckDeny | internal/auth/auth.go:134-153 | denial by the entry of the resource or of "*" |
| Rbac.RBAC.CheckAllow | internal/auth/auth.go:155-188 | allowance by either entry or by a named permission |
| RbacSpec.DenyOnlyCuts | internal/auth/auth.go:117-119 | a denying role cuts chains through it and overrides no other role |
| RbacSpec.AssignmentAdds | internal/auth/auth.go:190-192 | assigning a role adds exactly what it grants |
| RbacSpec.RemovalRevokes | internal/auth/auth.go:194-201 | removal takes away exactly what no remaining role grants, and nothing while another occurrence is left |
| RbacSpec.WithoutFirst | internal/auth/auth.go:194-201 | what removal leaves: everything but the first occurrence, in order; all, if there is none |
| Rbac.RBAC.RemoveRoleFromUser | internal/auth/auth.go:194-201 | removes the first occurrence only |
| AuditChain.VerifyChain | internal/audit/hashed_auditor.go:55-77 | reports exactly the events that do not name the hash of the one before or do not carry their own, each once and in order, with the hash expected and the one found; nothing exactly when the log passes |
| AuditChain.ViolationsMean | internal/audit/hashed_auditor.go:59-74 | a violation is reported exactly when the event at its index has it |
| AuditChain.ViolationsInOrder | internal/audit/hashed_auditor.go:59-74 | by event, the broken link before the wrong hash, nothing twice |
| AuditChain.LastHashDeterminesLog | internal/audit/hashed_auditor.go:48-77 | two passing logs with the same last hash are equal, lengths included, unless digests collide |
| AuditChain.OnlyTruncationPasses | internal/audit/hashed_auditor.go:59-74 | cutting events out of a passing log leaves a passing log exactly when the cut is a suffix |
| AuditChain.HashesDiffer | internal/audit/hashed_auditor.go:40-43 | all hashes of a passing log differ, and from the empty one |
| AuditChain.LogPassesIff | internal/audit/hashed_auditor.go:29-46 | for every run of Log calls, the stored events pass exactly when no failed write precedes a successful one |
| AuditChain.StoredAreWritten | internal/audit/hashed_auditor.go:29-46 | over every run of Log calls the stored events are the calls that were written, in order and one to one, each with all fields its caller gave; only an empty id, an unset time and the two hashes are filled in |
| AuditChain.HashedAuditor.Log | internal/audit/hashed_auditor.go:29-46 | the caller's event, an empty id and an unset time filled in, linked and hashed; the advanced hash and what reaches the inner auditor |
| AuditChain.LogAll | internal/audit/hashed_auditor.go:25-46 | a run of the object stores what the run functions say |
| AuditCsv.ExportCSV | internal/audit/audit.go:241-264 | the text written: header and one line per event |
| AuditCsv.ExportRoundTrip | internal/audit/audit.go:247-262 | an RFC 4180 reader gets back the header and one record per event, whatever the fields hold |
| AuditCsv.ColumnsAreLabelled | internal/audit/audit.go:247-262 | every column of every line holds the field of the event that the header names |
| AuditCsv.UnquotedIff | internal/audit/audit.go:266-271 | a field is written as it is exactly when it has no comma, quote or LF |
| AuditCsv.OriginalsComeBackIff | internal/audit/audit.go:266-271 | with LF line ends always the original columns; with CR LF exactly when no unquoted details end in CR |
| Ber.ParseBER | internal/auth/ldap_provider.go:272-284 | the loop computes the recursive parse |
| Ber.ParseInvertsEncodeIff | internal/auth/ldap_provider.go:255-284 | parsing undoes printing exactly when no content exceeds 255 bytes |
| Ber.OctetStringBackIff | internal/auth/ldap_provider.go:262-264 | a printed octet string is read back as itself exactly up to 255 bytes; a longer one gets the length 255 |
| Ber.StandardBackIff | internal/auth/ldap_provider.go:272-284 | an element printed with the definite lengths of sections 8.1.3.4 and 8.1.3.5 of X.690 comes back exactly up to 127 bytes, or when its content is 129 bytes that all equal its length byte; the code's own printer agrees with that standard exactly up to 127 bytes (EncodeIsStandardIff) |
| Ber.ParsedIsPrefix | internal/auth/ldap_provider.go:274-279 | on arbitrary bytes the parsed elements print as a prefix, and nothing complete follows |
| Ber.ParsedIsLongest | internal/auth/ldap_provider.go:274-282 | every run of elements the data starts with begins the parsed one |
| Ber.ParseLDAPSet | internal/auth/ldap_provider.go:326-345 | exactly the contents tagged 0x30, 0x64 or 0x31, and where the scan stops |
| Ber.SetItemsMean | internal/auth/ldap_provider.go:326-345 | the items are the contents of the elements with one of the three tags, in order |
| Ber.ScannedIsParsedIff | internal/auth/ldap_provider.go:332-338 | the count is the length of the complete elements exactly when fewer than two bytes follow |
| LdapResult.ParseLDAPResult | internal/auth/ldap_provider.go:286-323 | the nested loops compute the nested fold |
| LdapResult.ResultRoundTrip | internal/auth/ldap_provider.go:289-322 | any run of search messages of at most 255 bytes comes back as lower-cased names with first values, whatever incomplete bytes follow |
| LdapResult.FirstValuesMean | internal/auth/ldap_provider.go:313-317 | a name maps to the first value of the last attribute that has it and a value; other names are absent |
| LdapResult.OtherMessagesIgnored | internal/auth/ldap_provider.go:293-296 | elements that are no message (tag 0x30) change nothing, wherever they stand |
| LdapResult.OtherOperationsIgnored | internal/auth/ldap_provider.go:297-300 | nor do operations that are no search result entry (0x64) |
| LdapResult.OtherAttributesIgnored | internal/auth/ldap_provider.go:305-308 | nor elements among the attributes with another tag than 0x30 |
| SseSpec.FramesRoundTrip | internal/ai/llm.go:718-749 | any list of one-line frames with comment lines anywhere decodes to the frames with data, in order, and then the end |
| SseSpec.FrameComesBackIff | internal/ai/llm.go:396-402 | a written frame comes back exactly when event and data have no line break and data is not empty |
| SseBlocks.BlockDecodes | internal/ai/llm.go:718-782 | any lines up to an empty one, fields in any order and number, with comments, unknown fields and lines without a colon among them: the last event name and the data values joined by line breaks, those before the first that is not empty left out; without data the event name carries over to the next |
| SseBlocks.CRsAreIgnored | internal/ai/llm.go:751-769 | a CR put anywhere into a text, before an LF, alone or within a field, changes none of the events decoded from it |
| SseBlocks.DataAsStandardIff | internal/ai/llm.go:740-746 | the data are the ones section 9.2.6 of the HTML standard asks for exactly when there is at most one value or the first is not empty |
| Sse.SSEDecoder.ReadLine | internal/ai/llm.go:751-769 | the next complete line without its CRs; an unfinished one is lost |
| Sse.SSEDecoder.Decode | internal/ai/llm.go:718-749 | the loop computes the recursive decoding and leaves the rest unread |
| PoolSpec.RoundRobinLaw | internal/broker/broker.go:680-687 | however n concurrent callers interleave, each healthy member is returned 1 + the number of unhealthy members directly before it |
| PoolSpec.RoundRobinLawIff | internal/broker/broker.go:680-687 | that count holds of all health states, members and interleavings exactly when no scan of the round overflows or n divides 2^64 |
| PoolSpec.FindsHealthyIff | internal/broker/broker.go:680-687 | Next returns nil only with no healthy member, for all health states, exactly when the scan does not overflow or n divides 2^64 |
| PoolSpec.LandsIff | internal/broker/broker.go:681-686 | a ticket lands on a healthy member exactly when it starts within its gap |
| Pool.ConnectionPool.Next | internal/broker/broker.go:671-688 | the ticket taken, the member returned, the counters |
| Pool.ConnectionPool.CheckHealth | internal/broker/broker.go:708-721 | each member healthy exactly when its check passes and its lifetime has not run out |
| Pool.ConnectionPool.SetMaxLifetime | internal/broker/broker.go:623-635 | a limit marks outlived members down; no limit marks all up |
| StoreSpec.AddKeepsAgreementIff | internal/artifacts/store.go:96-128 | Add keeps the indexes in agreement with the manifest exactly when the path is new or the content is not |
| StoreSpec.RunAgreesIff | internal/artifacts/store.go:96-184 | a run of Adds and Removes keeps byPath, byHash and byKind views of the manifest, order included, exactly when no Add in it puts new content under a stored path; a consequence is that byPath and byHash undo each other (IndexesAreInverse) |
| StoreSpec.NewStoreAgreesIff | internal/artifacts/store.go:81-93 | so for every store built from empty |
| StoreSpec.RunLinked | internal/artifacts/store.go:96-184 | every run of Adds and Removes whatever, new content under stored paths included, keeps the artifact under a path the one under its hash |
| StoreSpec.NoDuplicates | internal/artifacts/store.go:255-275 | so in a store built from empty no two paths have one content hash |
| StoreSpec.AddReturns | internal/artifacts/store.go:96-128 | after every run from empty, Add returns an artifact with the given content that is stored: the new one if there was none, otherwise the one there was, changing nothing |
| StoreSpec.StampAgreesIff | internal/artifacts/store.go:292-297 | stamping a version keeps the agreement exactly when every artifact had that version |
| StoreSpec.SummaryAddsUpIff | internal/artifacts/store.go:278-285 | the per-kind counts add up to the total exactly when no kind is called "total" |
| StoreSpec.CountsAreRestrictions | internal/artifacts/store.go:280-282 | each count is the number of artifacts of the kind |
| Store.Store.AddArtifact | internal/artifacts/store.go:96-128 | error, duplicate and new artifact, with the whole new state |
| Store.Store.RemoveArtifact | internal/artifacts/store.go:158-184 | the whole new state, or false and no change |
| Store.Store.GetByHash | internal/artifacts/store.go:142-145 | under agreement, the one manifest entry with this content hash |
| Store.Store.Deduplicate | internal/artifacts/store.go:255-275 | after every run of Add and Remove (RunLinked) it removes nothing, in whatever order it visits them |
| Store.Store.Summarize | internal/artifacts/store.go:278-285 | the loop computes the counts and the total |
| SccSpec.ListedMeans | internal/planner/graph/graph.go:315-366 | in a list of components two nodes share one exactly when each leads to the other, and what a node leads to is in its component or an earlier one |
| SccSpec.OnlyThere | internal/planner/graph/graph.go:345-358 | a node is in one component only |
| Scc.StronglyConnectedComponents | internal/planner/graph/graph.go:315-367 | for every graph, in whatever order nodes are visited, the components are such a list and hold all nodes, each once |
| Scc.Tarjan.StrongConnect | internal/planner/graph/graph.go:324-359 | what a call finds and leaves: the stack as it was, or with nodes that lead further down, whose lowest index the low link bounds |
| SccSearch.TreeEdge | internal/planner/graph/graph.go:333-338 | taking over the low link of a returned call keeps the invariant of the search |
| SccSearch.Complete | internal/planner/graph/graph.go:345-358 | when low link and index agree, what is popped is a whole class of mutual reachability |
| DiffSpec.KeepsAtMost | internal/diff/diff.go:102-120 | no script between two sequences of lines keeps more of them than the table says |
| DiffSpec.ShortestIsBest | internal/diff/diff.go:122-164 | the script of the walk back leads from the old lines to the new, turned round leads back, is numbered rightly, and none is shorter |
| DiffSpec.ShortestIsCanonical | internal/diff/diff.go:136-154 | of all shortest scripts it is the one that, read from the end, keeps a line before it adds one and adds before it removes; so no added line stands directly before a removed one |
| DiffSpec.SameDistanceBack | internal/diff/diff.go:122-164 | as many changes lead from one text to another as back |
| Diff.FillTable | internal/diff/diff.go:102-120 | the loops fill the table with the lengths of longest common subsequences |
| Diff.ComputeLineDiff | internal/diff/diff.go:122-164 | the walk back and the turning round give that script |
| Diff.ComputeDiff | internal/diff/diff.go:47-100 | for any two texts: the kind of change, the best script that ShortestIsCanonical singles out, its counts and the sizes |
| DiffPatch.PatchModified | internal/diff/diff.go:497-531 | removing and inserting by line number, as a function of text and script |
| DiffPatch.PatchLawIff | internal/diff/diff.go:467-531 | patching a text with its diff to another gives the other exactly when the first is not empty or the other is; else a line break is appended |
| DiffPatch.InsertsExactly | internal/diff/diff.go:512-528 | for any script on any lines, numbered rightly or not: the lines after insertion are those before and the added ones, each as often |
| DiffPatch.InsertMeans | internal/diff/diff.go:512-528 | an added line stands at its new number, or at the end when there is none or it lies beyond; the others stay in order |
| DiffPatch.AddsAtTheEnd | internal/diff/diff.go:484-495 | patching with added lines: the lines of the text, then the added ones, and a line break at the end |

## Left out

- Cache.Cache.Remove: does not model the eviction callback, which receives the removed key and value.
- Cache.Cache.Get: the list of Go's standard library is a sequence of element references; its node pointers are not modelled.
- RateLimitTraces.SlidingWindow: runs contain no Reset, which forgets what every client has spent.
- Schema.Generator.FieldSchema: its types are those on which the recursion over element types ends; `SchemaTypes.EndsIff` says which these are.
- Schema.Generator.Generate: does not say which of several reachable types of one name is the one defined; it is the first the walk comes to. A type is modelled by its package, its name and a number that tells apart what the first two do not.
- SchemaSpec.NamesCoincideIff: what Go grants, no bracket in an import path and no dot in a name outside of type arguments, is asked for.
- RateLimitSweeps.SweepsAreInvisibleIff: the "exactly when" is over sweeps at arbitrary times; the code's ticker sweeps once every window, and some of the runs that show necessity need it to have been held up.
- Scc.StronglyConnectedComponents: edges between nodes of the graph, which AddNode and AddEdge see to, are asked for.
- Diff.ComputeDiff: sizes count characters of the model's texts, the code's count bytes.
- Schema.Generator.StructSchema: a `$ref` is its target name; the fixed prefix and the surrounding JSON are not modelled, nor is the fixed list of names the root object requires.
- SchemaJson.WrittenIffAccepted: types with a JSON method of their own, embedded structs, the `string` option of a tag and nil values, which are written as null, are not modelled; a number is any number, a date any text.
- SchemaJson.NotPlain: of a kind the code does not tell apart, such as an interface, any value may be written.
- AuditChain.VerifyChain: a violation is data, not the formatted text.
- AuditChain.LastHashDeterminesLog: SHA-256 over JSON is a parameter that must not collide on the events at hand nor return an empty text.
- AuditCsv.ExportCSV: the RFC 3339 format of a time is a parameter without commas, quotes or line breaks; the file is not written.
- LdapResult.ParseLDAPResult: lower-casing is a parameter; lengths in BER long form are not understood by the code and so not by the model.
- Sse.SSEDecoder.Decode: returns a copy of the data; that the code's slice is overwritten by the next call is not modelled, nor are read errors other than the end of the text, nor bytes that are not valid UTF-8.
- Pool.ConnectionPool.Next: brokers are opaque values; their Ping is the check function passed in.
- Store.Store.AddArtifact: the verdict of the path check is an argument; the options are the four the package offers.
- Store.Store.RemoveArtifact: slices are values, so a slice handed out earlier by GetByKind does not shift.
- Locks, goroutines and tickers: a call is atomic, except in the pool, where taking a ticket and scanning are separate steps.
- Disk: LoadFromDisk and WriteToDisk of the store, VerifyChainFile, the file auditors.
- Query, Aggregate and ApplyRetention of the in-memory auditor, the cache Manager, List of the store, pool metrics: simple filters, counters and look-ups.
- The other queries of the planner's graph (topological sort, paths, reduction) and the formatting of diffs.
- matchGlob of the broker, the LDAP bind and search sockets, the LLM providers, the other commands and servers of the tool.
