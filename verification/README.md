# Verification model of Endara Relay

Endara Relay gathers many MCP servers behind one endpoint. This Dafny project models the parts of it where several functions, tasks or passes have to agree, and proves that they do.

| Module | What it models |
|---|---|
| `ResourceUri`, `UriTemplate` | the `mcp-relay://` wrapper for resource URIs and templates, percent-coding byte by byte, RFC 6570 level-1 expansion |
| `ToolCallRewrite`, `Json` | the in-place rewriting of URI slots in tool and prompt results, and the TOON pass it must commute with |
| `Prefix` | the `__` tool-name codec, and when two prefixes can collide |
| `ProfileRouting` | what a profile lists, and where the reads and prompt requests that come back are sent |
| `ToolRouting` | the tool catalogue, the profile's view of it, and tool calls that read it twice |
| `ProfileReload` | swapping the profile table under its lock, ticking after it, and the event streams of clients |
| `DcrRecords`, `DcrStore`, `TokenManager` | the DCR credential file under any number of interleaved tasks, system-call failures and crashes; the method bodies; scope merging |
| `AtomicWrite` | temporary file plus rename with any number of concurrent writers |
| `SandboxQuota`, `Base64` | `writeFile` / `readFile`, their limits over whole runs, and the base64 size estimate |
| `SearchRanking`, `SearchCache`, `SearchMixture`, `SearchDocs`, `Identifier` | scoring and ranking, the generation-stamped index under concurrency, the runs in which it mixes catalogues, the search document of a tool, and the tokenizer |
| `RetryLoop` | the deadline-gated retry loop |
| `HeaderValue` | the `$VAR` / `$$` expander |
| `Wrappers`, `Sequences`, `Utf8`, `Ascii`, `Words`, `Tools` | results, sequence facts, UTF-8, ASCII folding, white space, and what is kept of a tool |

Code that changes things step by step is a method or a class proved against a specification function; the properties are then lemmas about that function. Concurrent protocols are transition systems: a state, an event for each atomic step of each task, and theorems about the state reached by any sequence of events.

## Findings

Properties that hold only under a condition, each proved with the condition or with the inputs that fail:

- Endpoint names are freeform: configuration asks only that a name be non-empty (`src/config.rs:1007`; the pattern at `src/config.rs:941-951` is applied to the tool prefix, and the tests at `src/config.rs:1573-1601` accept capitals and spaces). The wrapper carries a name exactly when it is non-empty and free of slashes (`WrapRoundTripsExactly`). A listed URI of an endpoint `a/b` decodes to the endpoint `a` (`SlashInNameIsCut`), and is read from it when there is one (`SlashInNameMisroutes`).
- A wrapped template expands and decodes to its endpoint and the expansion of the original template exactly when the wrapper can carry the name, expansion copies the name as a literal, and it copies every literal and value of the template verbatim (`WrappingCommutesWithExpansion`). Under the name `a b` the instance names an endpoint `a%20b` (`SpaceInNameIsEscaped`).
- An expression survives the template wrapper exactly when every character between its braces is unreserved (`ExpressionSurvivesExactly`). So all operators but `.`, both modifiers and lists of names are encoded away (`OnlyLabelsSurvive`): `{+p}` becomes the variable `%2Bp`.
- Inside a profile with one active endpoint a listed URI reads back exactly when it is not itself a decodable wrapper (`ReadsBack`, `ListedResourceReadsBack`); the relay-wide route has no such exception (`RelayReadsBack`).
- The base64 estimate is exact exactly while tripling the length fits in `usize` (`EstimateIsExact`); the default limits are far below that (`DefaultLimitsAreUnsaturated`). The quota on bytes handed back counts raw file contents: the text of a base64 read is longer by a third (`TextIsNotMuchLonger`).
- The comment at `src/js_sandbox.rs:2303-2307` says a generation read before the catalogue can cost a rebuild but never a wrong result. That holds for a call whose generation is current and has no unannounced change when it looks the index up (`SettledCallIsExact`). Otherwise a call can score the documents of one catalogue against the tools of another of the same length: when the generation moves before the lookup (`BumpBeforeLookupMixesCatalogs`), or with the generation constant, when adapters have changed but the change is not announced yet (`UnannouncedChangeMixesCatalogs`, `CatalogsMixExactly`). The page is then wrong for some search exactly when the index of the one does not serve the tools of the other (`CallIsExactExactly`): it serves them when the documents are equal, though the tools may differ, and does not when some query matches just one of two documents at one place (`IndexServesWhen`). Over given catalogues a wrong result is possible exactly when two of one length are confusable, that is, the index of one does not serve the tools of the other (`WrongResultsExactly`). With the source's own documents that happens already when a tool `x` gives way to a tool `y` (`RenamedToolIsFoundUnderOldName`).
- `write_atomic` removes the temporary name after every failure, also when the exclusive create failed because a file of that name was already there; `AtomicWrite.Directory.WriteAtomic` states this. Within one process counters make such a collision possible only with files that were there before, such as those an earlier process of the same number left, and only with those are removed (`CallPublishesOnceOrNever`, `OnlyDrawnNamesAreRemoved`); the comment at `src/js_sandbox.rs:1438-1440` promises exclusive ownership across processes.
- Destinations that are themselves of temporary form are safe unless one of them is a temporary name of another. A process keeps every destination it ever writes intact, in every run, exactly when no destination is a temporary name the process could draw for one of its destinations (`DestinationsAreKeptExactly`); one destination alone is always safe (`OneDestinationIsIntact`). Otherwise a call can report success while its destination holds what another call wrote, whatever the counter value (`TmpFormDestinationSwapsPayloads`).
- The configuration accepts any distinct `tool_prefix` values of the form `[a-z0-9][a-z0-9_-]*`. Two of them can yield one tool name exactly when one prefix followed by `__` starts the other followed by `__` (`PrefixesCollideExactly`), as `a` and `a__b` do (`ValidPrefixesMayCollide`); within one reading names have one owner, whatever the endpoints list, exactly when the endpoints' heads, prefix and `__`, cannot start one string (`UnambiguousExactly`), and then every listed name reaches its owner (`LookupReturnsOwnersExactly`).
- A profile's `route_tool_call` reads the catalogue once for its guard and once for routing. A call leaves the profile exactly when the guard reads an owner inside it and the routing reads one outside that takes the call (`CallLeavesProfileExactly`). Call the head of an endpoint its prefix with `__`, or nothing if it has none or is the only active one. Two readings agree on the owner of every name, whatever the tools are called, exactly when the heads of different endpoints cannot start one string (`OwnersAreKeptExactly`, `SeparateReadingsStayInProfile`). While one endpoint is active its tools have no prefix, so a second endpoint becoming active between the readings can take a call the guard let through (`SecondEndpointTakesTheName`).

## Assumptions

- `rename`, exclusive create and unlink are atomic steps; a crash is a crash of the process, and completed renames survive it. DCR tasks run to the end or end with the process.
- A stored record reads back as it was written (JSON serialization is not modelled); a damaged file is the value `Torn`.
- JSON values have no aliasing, so rewriting in place is modelled as replacing members of a value. Objects are maps; member order is not modelled.
- Search scores are counted in tenths, which makes every constant of the source an integer. The edit distance is an arbitrary function. The theorems on ranking and caching hold for any derivation of search documents; `SearchDocs` has the source's.
- Lower-casing and character classes are ASCII, white space is Unicode.
- Adapters, clocks, jitter and system-call failures are arguments of the operations, and the theorems hold for all of them. An environment variable that is unset and one that is not Unicode are the same. The iteration order of hash maps is arbitrary.
- Building the merged catalogue is one step that reads the live catalogue, since the source holds the adapters' read lock throughout.

## Model

| member | source | states |
|---|---|---|
| ResourceUri.EncodeSetIsComplementOfUnreserved | src/resource_uri.rs:36-105 | each listed encode set, with the implicit encoding of non-ASCII bytes, is exactly the complement of the RFC 3986 unreserved set (minus braces for templates) |
| ResourceUri.PayloadIsUnreservedOrEscapes | src/resource_uri.rs:36-70 | the plain payload of any bytes consists of unreserved characters and `%HH` only |
| ResourceUri.PercentRoundTrip | src/resource_uri.rs:134-177 | percent-decoding undoes percent-encoding of any bytes, whatever follows |
| ResourceUri.DecodeWrapped | src/resource_uri.rs:142-177 | decoding a wrapper splits at the first slash and depends on the payload only |
| ResourceUri.DecodeInvertsWrap | src/resource_uri.rs:134-200 | decode inverts the plain and the template encoder for every original and every non-empty slash-free endpoint |
| ResourceUri.WrapRoundTripsExactly | src/resource_uri.rs:134-177 | the round trip holds exactly for non-empty slash-free endpoints |
| ResourceUri.WrapIsInjective | src/resource_uri.rs:134-137 | wrapping is injective in endpoint and original together |
| ResourceUri.WrapLengthens | src/resource_uri.rs:134-137 | a wrapped URI is longer than its original |
| ResourceUri.SlashInNameIsCut | src/resource_uri.rs:142-177 | under a name with a slash the decoder takes the part before it for the name and moves the rest into the original |
| ResourceUri.UnwrapAllInvertsWrapAll | src/resource_uri.rs:134-177 | n nested wraps are undone by n decodes in reverse order |
| ResourceUri.DecodedShape | src/resource_uri.rs:142-177 | whatever decodes gives a usable endpoint name and a strictly shorter original |
| ResourceUri.DecodeMakesProgress | src/resource_uri.rs:142-177 | decoding never returns its input as the original |
| UriTemplate.WrappedIsLevel1Exactly | src/resource_uri.rs:191-200 | a wrapped level-1 template is of level 1 exactly when the endpoint name, read as a template, is |
| UriTemplate.ExpandThenDecode | src/resource_uri.rs:72-105 | for every such name, expanding a wrapped template and decoding gives the expansion of the name, if the wrapper can carry that, and the template with every value put in verbatim |
| UriTemplate.FixedExactlyWhenCopied | src/resource_uri.rs:72-105 | expansion leaves a string alone exactly when section 3.1 of RFC 6570 copies all of it |
| UriTemplate.WrappingCommutesWithExpansion | src/resource_uri.rs:191-200 | wrap, expand, decode gives the endpoint and the template's own expansion exactly when the wrapper can carry the name, expansion copies the name, and it copies the template's literals and values verbatim |
| UriTemplate.SpaceInNameIsEscaped | src/config.rs:1589-1601 | under an accepted name with a space the instance names another endpoint |
| UriTemplate.ExpressionSurvivesExactly | src/resource_uri.rs:72-105 | an expression survives the template wrapper exactly when every character between its braces is unreserved |
| UriTemplate.OnlyLabelsSurvive | src/resource_uri.rs:72-105 | of the RFC 6570 operators exactly `.` survives, and no modifier or list of names does |
| ToolCallRewrite.RewriteMetaUiPointers | src/tool_call_rewrite.rs:29-42 | the method wraps the two pointer members of `_meta` and is the specification's map |
| ToolCallRewrite.RewriteContentBlock | src/tool_call_rewrite.rs:152-173 | the method wraps the one URI slot a block of its kind has |
| ToolCallRewrite.RewriteToolCallResult | src/tool_call_rewrite.rs:55-97 | the walk equals applying the wrapper at the enumerated slots, and is the identity when skipped |
| ToolCallRewrite.RewritePromptGetResult | src/tool_call_rewrite.rs:121-146 | the same for prompt results, with content as one block or an array |
| ToolCallRewrite.ToolCallChangesOnlySlots | src/tool_call_rewrite.rs:8-97 | along every path of any JSON value the result differs only at an enumerated slot holding a string, where it holds the wrapped string |
| ToolCallRewrite.PromptGetChangesOnlySlots | src/tool_call_rewrite.rs:99-173 | the same for prompt results |
| ToolCallRewrite.ToolCallRestored | src/tool_call_rewrite.rs:8-97 | decoding the slots of a rewritten tool result restores the input exactly when the wrapper can carry the endpoint's name or no slot holds a string |
| ToolCallRewrite.PromptGetRestored | src/tool_call_rewrite.rs:121-173 | the same for a rewritten prompt result |
| ToolCallRewrite.SingleBlockIsOneElementArray | src/tool_call_rewrite.rs:126-142 | a single content object is rewritten as the only element of an array would be |
| ToolCallRewrite.RewriteCommutesWithTextPass | src/tool_call_rewrite.rs:8-11 | the rewrite commutes with any block-wise pass that touches only text blocks |
| ToolCallRewrite.RewriteCommutesWithToon | src/toon_convert.rs:12-58 | the rewrite commutes with the TOON pass, for any conversion of texts |
| Prefix.EncodeInvertsDecode | src/prefix.rs:43-79 | encoding undoes decoding on every accepted string |
| Prefix.DecodeInvertsEncode | src/prefix.rs:25-79 | decoding undoes encoding exactly for the encodable names |
| Prefix.EncodingIsInjective | src/prefix.rs:25-30 | encodable names never collide |
| Prefix.PrefixIsRecovered | src/prefix.rs:25-30 | a prefix free of the delimiter and not ending in `_` is recovered whatever the tool name |
| Prefix.PrefixesCollideExactly | src/prefix.rs:25-30 | two prefixes can produce one tool name exactly when they are not separable |
| Prefix.DistinctSegmentsAreSeparable | src/prefix.rs:25-79 | distinct delimiter-free prefixes not ending in `_` never collide |
| Prefix.ValidPrefixesMayCollide | src/config.rs:1011-1035 | configuration accepts distinct prefixes that share tool names |
| ProfileRouting.ListIn | src/registry.rs:1254-1337 | the nested loops, for resources and for templates, produce every active profile endpoint's listing in order, wrapped by the in-profile count |
| ProfileRouting.ReadsStayInProfile | src/profile_registry.rs:258-293 | for every registry, profile and string, a read is dispatched only to a registered, enabled, healthy endpoint of the profile |
| ProfileRouting.ReadsBack | src/profile_registry.rs:258-293 | a URI handed out for an original reads back to its owner exactly when, raw, it is not decodable, or, wrapped, the wrapper can carry the owner's name; an unhealthy owner is reported |
| ProfileRouting.SlashInNameMisroutes | src/config.rs:1006-1009 | a listed URI of an endpoint with a slash in its name is read from the endpoint bearing the part before it |
| ProfileRouting.ListedResourceReadsBack | src/profile_registry.rs:166-174 | every listed URI has an owner in the profile, and reading it brings that owner its original URI under the same exact condition |
| ProfileRouting.RelayReadsBack | src/registry.rs:1587-1632 | relay-wide, a URI handed out reads back to its owner exactly when it is raw or the wrapper can carry the owner's name |
| ProfileRouting.ExpandedTemplateReadsBack | src/profile_registry.rs:258-293 | an instance of a template handed out, raw or wrapped, brings its owner the instance of its own template under an exact condition on name, template and values |
| ProfileRouting.ListedTemplateReadsBack | src/registry.rs:1293-1337 | every listed template has an owner in the profile, and the same holds of all its instances |
| ProfileRouting.LookupReturnsOwnersExactly | src/registry.rs:1412-1460 | the reverse lookup returns each listed name to its owner exactly when no name has two owners |
| ProfileRouting.PromptLookupIn | src/registry.rs:1412-1460 | the nested loops build the last-wins lookup of the profile's prompt listing |
| ProfileRouting.RoutePromptGet | src/profile_registry.rs:204-240 | lookup, guard, dispatch checks and slot rewriting by the in-profile count, with each error |
| ProfileRouting.PromptRequestsStayInProfile | src/profile_registry.rs:204-240 | no prompt name is dispatched outside the profile |
| ProfileRouting.ListedPromptRoutesToOwner | src/profile_registry.rs:192-240 | with separate heads a listed prompt is requested from its owner under its own name |
| ProfileRouting.SeparateListingIsUnambiguous | src/registry.rs:770-884 | with separate heads no listed name has two owners |
| ProfileRouting.UnambiguousExactly | src/registry.rs:770-884 | whatever the endpoints list no name has two owners, exactly when their heads are separate |
| ProfileRouting.SeparatePrefixesExactly | src/prefix.rs:25-30 | of two or more endpoints with prefixes the heads are separate exactly when the prefixes are separable in pairs |
| ProfileRouting.PromptPointerReadsBack | src/profile_registry.rs:204-240 | a resource pointer in a prompt's result reads back through the profile to the endpoint that served it, under the exact condition of `ReadsBack` |
| ToolRouting.ListedToolRoutesToOwner | src/profile_registry.rs:103-140 | with separate heads the filtered catalogue is exactly the tools of allowed endpoints, and each call reaches its owner under the raw name |
| ToolRouting.CallLeavesProfileExactly | src/profile_registry.rs:122-140 | for every two readings, a call leaves the profile exactly when the guard reads an owner inside and the routing one outside that takes the call |
| ToolRouting.ToolCallsStayInProfile | src/profile_registry.rs:122-140 | with one reading of the catalogue, current or stale, no tool call is dispatched outside the profile, to a disabled or unhealthy endpoint, or to a disabled tool |
| ToolRouting.OwnersAreKeptExactly | src/registry.rs:779-884 | two catalogues agree on the owner of every shared name, whatever tools their endpoints list, exactly when the heads of different endpoints are separate |
| ToolRouting.SeparateReadingsStayInProfile | src/profile_registry.rs:127-140 | then no tool call leaves the profile |
| ToolRouting.SecondEndpointTakesTheName | src/registry.rs:782-784 | two catalogues, before and after a second endpoint becomes active, between which a call leaves the profile |
| ToolRouting.ToolPointerReadsBack | src/registry.rs:911-1010 | a pointer in a tool's result, wrapped by the relay-wide count, reads back through any profile of that endpoint under the exact condition of `ReadsBack` |
| ProfileReload.Diff | src/profile_registry.rs:475-500 | each path whose presence, endpoints or script flag changed is listed once, and no other |
| ProfileReload.Registry.Rebuild | src/profile_registry.rs:450-505 | the new table is that of the configuration, and exactly the changed paths are ticked once each |
| ProfileReload.LastProfileOfAPathWins | src/profile_registry.rs:451-469 | a lower-cased path holds the last profile of that path |
| ProfileReload.UnchangedProfilesTickNothing | src/profile_registry.rs:442-449 | an identical rebuild, or one that only flips output formats, ticks nothing |
| ProfileReload.NextKeepsInv | src/server.rs:1803-1925 | every swap, send, receive, overflow, opening and re-reading keeps the invariant that a stale view has a tick outstanding |
| ProfileReload.StaleStreamHasTickPending | src/profile_registry.rs:432-505 | in every run of rebuilds and streams a stale view has a tick unsent, queued, lagging or delivered and not yet acted on |
| ProfileReload.QuietStreamsAreCurrent | src/server.rs:1803-1925 | once ticks are sent, received and acted on, every view equals the registry's |
| ProfileReload.StaleStreamCatchesUp | src/server.rs:1803-1925 | from any state of the invariant with all ticks sent, receiving and re-reading alone make the view current |
| DcrRecords.ClearTouchesOnlyTheRequestingPair | src/token_manager.rs:334-407 | a self-heal reports success exactly on a matching dynamic registration, changes nothing otherwise, keeps resource pair, provenance and registration time, and is idempotent |
| DcrRecords.ClearCommutesWithResourceUpdate | src/token_manager.rs:375-407 | a self-heal commutes with any update that reads and writes only the resource pair |
| DcrRecords.HealingIsIndependentOfOrder | src/token_manager.rs:811-883 | any interleaving of self-heals and such updates leaves the record of the updates, cleared once |
| DcrStore.WriterKeepsInv | src/token_manager.rs:227-332 | every step of a writer, failing or not, keeps the store's invariant |
| DcrStore.StepGrows | src/token_manager.rs:166-175 | a step touches no inode but the temporary one, no committed operation, and nothing while another task holds the lock |
| DcrStore.FileIsFoldOfCommittedOperations | src/token_manager.rs:166-332 | in every reachable state the file is the sequential fold of the committed operations in lock order |
| DcrStore.LoadReturnsCommittedRecord | src/token_manager.rs:259-271 | an unlocked load returns a record that was committed at some moment since it began |
| DcrStore.WriterTakesEffectOnceOrNever | src/token_manager.rs:227-332 | a writer that reports success is in the log exactly once, after it began, with the result its predecessor record calls for; one that reports failure is not |
| DcrStore.CrashKeepsLastCommittedRecord | src/token_manager.rs:238-257 | a crash between any two steps leaves the last committed record |
| DcrStore.HalfWrittenRecordIsNeverRead | src/token_manager.rs:238-271 | from an undamaged file no reader ever meets a half-written record |
| DcrStore.SelfHealNeverTouchesManualOrNewerRecords | src/token_manager.rs:334-407 | wherever in a run a self-heal commits, manual and newer records are unchanged and the resource pair is kept |
| DcrStore.SelfHealOrderDoesNotMatter | src/token_manager.rs:811-883 | runs that commit the same resource updates and at least one self-heal end in the same record |
| DcrStore.LaterOperationsSeeEarlierCommits | src/token_manager.rs:166-175 | an operation begun after a commit is answered from that record or a later one |
| TokenManager.Store.SaveLocked | src/token_manager.rs:238-257 | the record is replaced as a whole or not at all, and what each failure leaves in the temporary file |
| TokenManager.Store.DeleteLocked | src/token_manager.rs:324-332 | deletion succeeds on a missing file and otherwise fails only with the unlink |
| TokenManager.Store.LoadDcr | src/token_manager.rs:259-271 | a missing file is no record, a damaged one an error |
| TokenManager.Store.SaveDcr | src/token_manager.rs:227-234 | the method has the effect of the specification or none |
| TokenManager.Store.DeleteDcr | src/token_manager.rs:275-278 | the method has the effect of the specification or none |
| TokenManager.Store.UpdateDcr | src/token_manager.rs:299-322 | effect and result are the specification's, a failing closure changes nothing, and keeping the record writes nothing |
| TokenManager.Store.ClearDcrRequestingClient | src/token_manager.rs:375-407 | effect and result are the specification's, and a refusal writes nothing |
| TokenManager.MergeScopes | src/token_manager.rs:148-161 | splitting the merged string gives the distinct prior scopes followed by the new ones |
| TokenManager.MergingAgainChangesNothing | src/token_manager.rs:144-147 | merging the same request again changes nothing, and prior scopes come first in order |
| AtomicWrite.TmpNameDeterminesCounter | src/js_sandbox.rs:1354-1371 | two temporary names are equal only if their counter values are, whatever file, process and time |
| AtomicWrite.Directory.WriteAtomic | src/js_sandbox.rs:1400-1468 | one call alone: when it succeeds, the directory after every combination of failures, and the removal of a colliding file |
| AtomicWrite.AdvanceLeavesOthers | src/js_sandbox.rs:1400-1468 | no step of a call touches the temporary file of another |
| AtomicWrite.NextKeepsInv | src/js_sandbox.rs:1400-1468 | with separate destinations every step of every call keeps the protocol's invariant |
| AtomicWrite.DestinationIsInitialOrOneCompletePayload | src/js_sandbox.rs:1373-1399 | from any directory and with separate destinations, at every moment a destination holds its first content or the complete payload of one call to it |
| AtomicWrite.OneDestinationIsIntact | src/js_sandbox.rs:1373-1399 | the same of calls to one destination, whatever its name |
| AtomicWrite.DestinationsAreKeptExactly | src/js_sandbox.rs:1354-1399 | a process keeps its destinations intact in every run exactly when none is a temporary name of another |
| AtomicWrite.PublishedIsInitialOrLast | src/js_sandbox.rs:1458-1468 | and that call is the last one renamed onto it |
| AtomicWrite.CallPublishesOnceOrNever | src/js_sandbox.rs:1424-1468 | a call reports success exactly when it published, once; a name freshly drawn is taken at most by a file that was there before |
| AtomicWrite.NoTemporaryFileIsLeft | src/js_sandbox.rs:1441-1468 | when all calls have returned and cleanups succeeded the directory is the initial one less the files removed, with the renames applied |
| AtomicWrite.OnlyDrawnNamesAreRemoved | src/js_sandbox.rs:1441-1457 | of the files of temporary form that were there before, only those bearing a drawn name are removed, and all others stay as they were |
| AtomicWrite.TmpFormDestinationSwapsPayloads | src/js_sandbox.rs:1354-1371 | for every such pair, counter value and payloads, a run after which a call has reported success and its destination holds what another call wrote elsewhere |
| AtomicWrite.EveryStrayFileBelongsToAFailedCall | src/js_sandbox.rs:1441-1468 | any further file belongs to a call under way or one whose cleanup failed |
| Base64.DecodeInvertsEncode | src/js_sandbox.rs:1732-1744 | strict decoding undoes encoding of any bytes |
| Base64.EncodeInvertsDecode | src/js_sandbox.rs:1210-1224 | encoding undoes strict decoding, so accepted text is canonical |
| Base64.DecodedLength | src/js_sandbox.rs:1165-1180 | an accepted string of g groups decodes to 3g bytes less its padding |
| Base64.EstimateIsExact | src/js_sandbox.rs:1165-1180 | the estimate equals the decoded length exactly while tripling does not saturate |
| SandboxQuota.DefaultLimitsAreUnsaturated | src/js_sandbox.rs:169-219 | the default limits are within the range that `CapIsExact` and `QuotasHold` ask for |
| SandboxQuota.CapIsExact | src/js_sandbox.rs:1157-1224 | a decodable payload is refused as too large exactly when its decoded length exceeds the limit |
| SandboxQuota.SandboxState.WriteFile | src/js_sandbox.rs:1032-1240 | the method's checks, in order, and its counters are the specification's |
| SandboxQuota.SandboxState.ReadFile | src/js_sandbox.rs:1593-1744 | the method's checks, in order, and its counters are the specification's |
| SandboxQuota.QuotasHold | src/js_sandbox.rs:1157-1234 | over every sequence of calls the files and bytes actually written, pulled and handed back (raw) stay within the limits (pulled: the limit plus one), and the text handed back within four thirds of the raw bytes and two per read |
| SandboxQuota.EveryPullIsCounted | src/js_sandbox.rs:1628-1730 | a read that pulls anything is counted, and exhausted quotas refuse |
| SandboxQuota.ReadBounded | src/js_sandbox.rs:1881-1891 | at most one byte more than allowed is pulled, and the flag tells exactly when |
| SandboxQuota.TextIsNotMuchLonger | src/js_sandbox.rs:1732-1744 | the exact length of the text a read hands back |
| SandboxQuota.Base64RoundTrip | src/js_sandbox.rs:1732-1744 | base64 text written and read back is the same text |
| Identifier.SplitIdentifier | src/js_sandbox.rs:1957-1999 | the loop produces the lower-cased token stretches, each opened by a boundary or separator and not extendable, leaving out separators only |
| Identifier.SplitIsConservative | src/js_sandbox.rs:1957-1999 | the tokens spell the lower-cased alphanumeric characters in order |
| Identifier.CutsAreBoundaries | src/js_sandbox.rs:1974-1991 | adjacent alphanumerics are cut exactly at the three named boundaries |
| Identifier.SplitIsUnique | src/js_sandbox.rs:1957-1999 | no other split meets the specification |
| Identifier.TokenizationExists | src/js_sandbox.rs:1957-1999 | every string has a split |
| Identifier.TokenIsFixedPoint | src/js_sandbox.rs:1957-1999 | a token is non-empty and splits into itself |
| SearchRanking.ScoreQueryToken | src/js_sandbox.rs:2072-2135 | a positive token score is at least 0.4 |
| SearchRanking.MinScoreNeverCuts | src/js_sandbox.rs:2350-2371 | a tool with a matching token always passes the MIN_SCORE cut |
| SearchRanking.SearchTools | src/js_sandbox.rs:2310-2385 | the scoring loop with its skips, the sort and the limit yield the specified page, also for an empty query |
| SearchRanking.MatchesAreRankedAndComplete | src/js_sandbox.rs:2348-2378 | the ranking holds exactly the tools matching some token and is strictly ordered by score, name length and name |
| SearchRanking.PageHoldsTheBest | src/js_sandbox.rs:2380-2385 | a match is on the page, or the page is full and every tool on it ranks before that match |
| SearchRanking.PageIgnoresCatalogOrder | src/js_sandbox.rs:2373-2385 | the result does not depend on the order of the catalogue |
| SearchRanking.RankingIsUnique | src/js_sandbox.rs:2373-2378 | a strict ranking is determined by its members |
| SearchRanking.SmallerLimitIsPrefix | src/js_sandbox.rs:2310-2383 | a smaller limit gives a prefix of a larger one |
| SearchRanking.MixedPageHoldsExactly | src/js_sandbox.rs:2348-2385 | on a page that holds all, a tool is listed exactly when the query matches the document at its place, whosever it is |
| SearchRanking.IndexServesWhen | src/js_sandbox.rs:2348-2385 | for any derivation of documents, an index serves the tools of another catalogue with equal documents, and does not serve those of one whose documents match differently |
| SearchRanking.SameToolsFoundExactly | src/js_sandbox.rs:2348-2385 | every query finds the right tools, order aside, exactly when no two documents at one place match differently |
| SearchDocs.BareLetter | src/js_sandbox.rs:2031-2066 | the document the source derives from a tool named by one letter |
| SearchDocs.RenamedToolIsFoundUnderOldName | src/js_sandbox.rs:2031-2066 | with the source's documents, for any two one-letter tools and any edit distance, a run in which one giving way to the other leads to a wrong page |
| SearchCache.NextKeepsInv | src/js_sandbox.rs:2302-2346 | every step of calls, changes and announcements keeps the bounds between stamps and versions |
| SearchCache.CachedIndexIsNoOlderThanItsStamp | src/js_sandbox.rs:2187-2193 | in every run a cached pair was built from a catalogue of at least its stamped generation and at most the live one |
| SearchCache.SettledCallIsExact | src/js_sandbox.rs:2322-2346 | a call whose generation is current and has no unannounced change at its lookup returns what it would without the cache |
| SearchCache.CallIsExactExactly | src/js_sandbox.rs:2322-2346 | in every run, for any derivation of documents, a finished call is right for every search exactly when its index serves its tools |
| SearchCache.NoCallServesWhatWasInvalidated | src/registry.rs:516-552 | a call begun after an announcement scores documents and tools at least as new as what was announced |
| SearchCache.AdvanceKeepsInv | src/registry.rs:744-778 | in particular the guarded store never caches a catalogue older than the current generation |
| SearchMixture.BumpBeforeLookupMixesCatalogs | src/js_sandbox.rs:2303-2346 | for any two catalogues of one length a run mixes them when the generation moves before the lookup, and returns a wrong page wherever the index of one does not serve the other |
| SearchMixture.CatalogsMixExactly | src/js_sandbox.rs:2322-2330 | over any sequence of catalogues some run scores the documents of one against the tools of another exactly when their lengths agree |
| SearchMixture.UnannouncedChangeMixesCatalogs | src/registry.rs:406-430 | the same for any two of a sequence of catalogues, with the generation constant, while changes are not yet announced |
| SearchMixture.WrongResultsExactly | src/js_sandbox.rs:2303-2346 | over any sequence of catalogues, for any derivation and distance, some run returns a wrong page exactly when two of one length are confusable |
| RetryLoop.JitterIsWithinQuarter | src/js_sandbox.rs:56-64 | the jittered backoff lies within a quarter of its base |
| RetryLoop.CallToolWithRetryLoop | src/js_sandbox.rs:731-786 | for every outcome sequence, clock and jitter: at most 1 + retries calls, all but the last transient failures, no sleep ending at or past the deadline, and a deadline error reports the calls made |
| RetryLoop.CallToolWithRetry | src/js_sandbox.rs:627-729 | unknown and ineligible tools are never called, retries are capped at three |
| RetryLoop.TotalSleepIsBounded | src/js_sandbox.rs:35-64 | the sleeps of a call add up to at most 1750 ms |
| HeaderValue.ResolveHeaderValue | src/config.rs:894-937 | the nested loops compute the specification |
| HeaderValue.ResolveRendered | src/config.rs:894-937 | separated texts and variables resolve to the texts and the variables' verbatim values, never expanded again |
| HeaderValue.ResolveUndoesEscape | src/config.rs:890-903 | resolution undoes dollar-doubling in every environment |
| HeaderValue.RendersExactlyWhenSeparated | src/config.rs:894-937 | rendered pieces resolve to their values in every environment exactly when no text continues a name |
| HeaderValue.ContinuedNameIsMisread | src/config.rs:904-913 | without separation another variable is read |
| HeaderValue.FailsOnFirstMissing | src/config.rs:914-930 | resolution fails exactly when a named variable is missing, and names the first |
| HeaderValue.DependsOnNamesOnly | src/config.rs:894-937 | the result depends on the named variables only |

## Left out

- Script evaluation, HTTP and event-stream framing, listeners, OAuth exchanges, process start and stop: plumbing around libraries.
- `open_beneath`, path resolution and the type pre-check of `readFile`: the directory is an opaque handle, and what these steps answer is an argument of the calls.
- `TokenManager::{save, save_idp}`: they share a temporary name without the lock, so the DCR theorems do not apply to them.
- `dcr_issuer_allows_reuse`, `suggest_tool_names`, `sanitize_name`, the configuration validators and `diff_configs`: easy members.
- Search documents of names and descriptions outside ASCII, and the order of schema properties.
- Unicode lower-casing and character classes outside ASCII in the tokenizer and in search queries.
- Tool descriptions, the sorting of the merged catalogue by name, schema validation of arguments, event and observability records.
- The per-endpoint tool caches and their epochs: a catalogue build sees one catalogue version.
- The wrap of the adapter counter and of the generation counter at 64 bits.
- ProfileRouting.ListedPromptRoutesToOwner: asks for separate heads, which configuration does not enforce; `UnambiguousExactly` shows that to be the exact condition over all listings.
- SearchCache.SettledCallIsExact: a sufficient condition on the moment of the lookup; the exact condition on what was looked up is that of `CallIsExactExactly`.
- AtomicWrite.NextKeepsInv: asks for separate destinations; `DestinationsAreKeptExactly` shows that to be the exact condition.
- Expressions of RFC 6570 beyond level 1: it is proved which survive the wrapper, not what they expand to; variable names with percent-encoded characters are not names of the model.
- ToolCallRewrite.RewriteToolCallResult: rewrites a value and returns it; updates through references into the value are not modelled.
