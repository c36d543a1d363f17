# skynet module registry, modelled in Dafny

This project models the service-module registry of the skynet actor runtime
(`skynet-src/skynet_module.c`). A service type is a dynamically loaded C
library. Given a module name, the registry finds the library through the
`cpath` search-path template, binds its four entry points
(`<prefix>_create`, `_init`, `_release`, `_signal`), and keeps the result in a
table of at most 32 records. The lifecycle calls then dispatch through those
entry points, with fallbacks for the optional ones.

Modules, one per component of the C file:

- `Wrappers`: `Option`, standing for a pointer that may be NULL.
- `SearchPath`: `_try_open`. The template is split at `;`, and in each
  segment the first `?` is replaced by the name. Candidates are opened in order.
  `TryOpen` follows the C loop. `Segments` and `FirstOpen` are an independent
  split-then-try reference definition, and `TryOpen`'s contract states that
  the two agree. Both try one segment through the same `TryStep`.
- `Symbols`: `get_api` / `open_sym`. The symbol prefix is the part of the name
  after its last `.`. Binding fails exactly when `<prefix>_init` is missing.
- `Registry`: `struct modules`, `_query`, `skynet_module_query` and
  `skynet_module_init`. The registry is an immutable value, and a query is one
  atomic step from one registry value to the next. `Run` folds a series of
  queries.
- `Lifecycle`: `skynet_module_instance_create/init/release/signal`. Each
  operation yields the calls it makes into the module's code.

The platform loader is a parameter. `dlopen` is a function from a path to an
optional handle `H`, and `dlsym` is a function from a handle and a symbol name
to an optional entry point `S`. Both are pure oracles. The registry's answer
is stated exactly in terms of them. A C string is a `seq<char>` whose end is
the terminating NUL.

Two behaviours of `_try_open` are easy to miss:

- A segment without `?` is reported when `_try_open` reaches it, not when
  the template is configured. Earlier segments may already have been opened and
  refused by then (`FirstOpenInvalid`).
- A segment is not required to hold exactly one `?`. Only the first one is
  replaced. Any later `?` is copied literally (`Expand`).

## Model

| member | source | states |
|---|---|---|
| SearchPath.IndexOf | skynet-src/skynet_module.c:46-55 | the first `;` of the rest of the template (end when none) and the first `?` of a segment (its length when none): the found character is there, and none occurs before it |
| SearchPath.SkipSeparators | skynet-src/skynet_module.c:41-44 | the leading run of `;` is removed: the result is a suffix, it does not start with `;`, and everything dropped was `;` |
| SearchPath.Expand | skynet-src/skynet_module.c:50-65 | a segment has a candidate exactly when it holds a `?`. The candidate is the segment before its first `?`, then the name, then the rest of the segment with any further `?` kept. Its length is segment length − 1 + name length |
| SearchPath.SegmentsSkipSeparators | skynet-src/skynet_module.c:41-44 | skipping a run of separators does not change which segments remain |
| SearchPath.SegmentsHead | skynet-src/skynet_module.c:45-50 | the piece up to the next `;` is the first segment, and the loop resumes at that `;` over the remaining segments |
| SearchPath.TryOpen | skynet-src/skynet_module.c:25-79 | `_try_open` equals the split-then-try reference: the C loop tries exactly the non-empty `;`-separated segments, left to right, and stops at the first that opens or is malformed |
| SearchPath.TryOpenOutcomes | skynet-src/skynet_module.c:38-78 | `_try_open` returns NULL exactly when every segment was tried and refused. It returns a handle exactly when a segment opens after all earlier ones were refused. It exits exactly when a segment without `?` is reached after all earlier ones were refused |
| SearchPath.FirstOpenExhausted | skynet-src/skynet_module.c:68-78 | over a list of segments: NULL if and only if every segment expanded and its candidate did not open |
| SearchPath.FirstOpenOpened | skynet-src/skynet_module.c:68-71 | over a list of segments: handle `dl` if and only if some segment's candidate opened as `dl` and every earlier candidate was refused |
| SearchPath.FirstOpenInvalid | skynet-src/skynet_module.c:58-65 | over a list of segments: the fatal exit if and only if a segment with no `?` is reached after every earlier one was refused |
| SearchPath.FirstSegmentMalformed | skynet-src/skynet_module.c:58-65 | a template whose first segment has no `?` exits, whatever the loader would answer |
| SearchPath.SegmentsOfJoin | skynet-src/skynet_module.c:41-50 | splitting recovers the segments that were joined with `;`, for non-empty segments without `;` |
| SearchPath.CandidateFitsBuffer | skynet-src/skynet_module.c:29-37 | every candidate plus its NUL terminator fits the `strlen(path) + strlen(name)` bytes of `tmp` |
| SearchPath.ExpandAt | skynet-src/skynet_module.c:53-60 | a segment `prefix ? suffix` with no `?` in the prefix expands to `prefix name suffix` |
| SearchPath.EchoSegments | skynet-src/skynet_module.c:41-50 | `./svc/?.so;./lib/?.dll` has the segments `./svc/?.so` and `./lib/?.dll`, in that order |
| SearchPath.EchoFirstCandidate | skynet-src/skynet_module.c:53-60 | `./svc/?.so` with name `echo` gives `./svc/echo.so` |
| SearchPath.EchoSecondCandidate | skynet-src/skynet_module.c:53-60 | `./lib/?.dll` with name `echo` gives `./lib/echo.dll` |
| SearchPath.EchoOpensSecond | skynet-src/skynet_module.c:38-71 | when only `./lib/echo.dll` opens, the first candidate is refused and the second one's handle is returned |
| Symbols.AfterLastDot | skynet-src/skynet_module.c:100-105 | the result has no `.`. It is a suffix of the input. It is either the whole input or directly follows a `.` |
| Symbols.AfterLastDotUnique | skynet-src/skynet_module.c:100-105 | those three properties determine the part after the last `.` uniquely |
| Symbols.SymbolName | skynet-src/skynet_module.c:93-107 | `get_api` looks up, for a suffix without `.`, the name's part after its last `.` followed by the suffix |
| Symbols.AfterLastDotOfConcat | skynet-src/skynet_module.c:97-105 | appending a suffix without `.` to a string extends the part after its last `.` by exactly that suffix |
| Symbols.SuffixesHaveNoDot | skynet-src/skynet_module.c:111-114 | none of `_create`, `_init`, `_release`, `_signal` holds a `.` |
| Symbols.SymbolsOfName | skynet-src/skynet_module.c:110-114 | the four symbols of a module are its prefix followed by each suffix |
| Symbols.OpenSym | skynet-src/skynet_module.c:109-117 | binding fails if and only if `<prefix>_init` is absent. On success each entry point is what the lookup of `<prefix><suffix>` found, and `create`, `release`, `signal` may be absent |
| Symbols.DottedNameExample | skynet-src/skynet_module.c:94-107 | `service.logger` binds through `logger_init` |
| Symbols.PlainNameExample | skynet-src/skynet_module.c:94-107 | `snlua` binds through `snlua_init` |
| Registry.Init | skynet-src/skynet_module.c:186-200 | a fresh registry has count 0 and holds the template, and the invariant holds from there |
| Registry.Find | skynet-src/skynet_module.c:81-91 | the lookup returns the first index whose record has the name, and none exactly when no record among the first `count` has it |
| Registry.Load | skynet-src/skynet_module.c:133-146 | the load path either appends exactly one record named after the query at index `count`, or leaves the registry unchanged |
| Registry.Query | skynet-src/skynet_module.c:119-152 | the template is kept and the records are append-only: at most one record is added, and only at index `count` below capacity, answered with that index. An answered record carries the queried name. A query that does not answer a record changes nothing. The invariant (count ≤ 32, names distinct) is preserved |
| Registry.QueryOutcomes | skynet-src/skynet_module.c:121-133 | a registered name is answered with a record and nothing changes. Only an unregistered name can add a record. A full table answers NULL to a new name and changes nothing |
| Registry.QueryLoads | skynet-src/skynet_module.c:133-146 | below capacity, an unregistered name is loaded if and only if the search path opens a library and that library binds `init`. The appended record holds that handle and those entry points. The process exits if and only if the template is malformed |
| Registry.QueryAgainHits | skynet-src/skynet_module.c:119-123 | after a query answered a record, asking again answers the same record with the same registry, whatever the loader would say then: no reload |
| Registry.FailureNotCached | skynet-src/skynet_module.c:131-152 | a query that answered NULL left nothing behind: the next query for that name behaves as if the failed one never happened, so it retries in full |
| Registry.Run | skynet-src/skynet_module.c:119-152 | over any series of queries from a registry, the template is kept and earlier records are never changed. At most one record is added per call. The invariant is preserved, so it holds from `skynet_module_init` onward |
| Registry.FindRegistered | skynet-src/skynet_module.c:81-91 | in a valid table the lookup of a record's own name finds exactly that record |
| Registry.ReferencesStable | skynet-src/skynet_module.c:131-143 | after any further calls, a record registered earlier is unchanged and its name is still answered with the same index |
| Registry.FullTable | skynet-src/skynet_module.c:133 | with 32 records, a new name gets NULL with nothing changed, and every registered name still gets its own record |
| Registry.OneNameOneRecord | skynet-src/skynet_module.c:128-149 | any number of serialized queries for one name publish at most one record, and every record they answer is the same one |
| Registry.QueryAddsAskedName | skynet-src/skynet_module.c:137-141 | a record a query adds carries the name that was asked for |
| Registry.RepeatHits | skynet-src/skynet_module.c:121-123 | queries for a registered name all answer its index and change nothing |
| Registry.RepliesResolve | skynet-src/skynet_module.c:137-143 | every record a call was answered with is, at the end of the series, a record with the name that call asked for |
| Registry.NamesFromCalls | skynet-src/skynet_module.c:137-142 | every record added by a series carries a name one of its calls asked for |
| Lifecycle.InstanceCreate | skynet-src/skynet_module.c:154-162 | with `create` the instance is what one call of `create` returns. Without it, no call is made and the instance is the all-ones sentinel |
| Lifecycle.InstanceInit | skynet-src/skynet_module.c:164-168 | `init` is always called exactly once with the instance, context and parameter (which may be NULL), and its status is returned unchanged |
| Lifecycle.InstanceRelease | skynet-src/skynet_module.c:170-176 | `release` is called once on the instance when present, and nothing is called when absent |
| Lifecycle.InstanceSignal | skynet-src/skynet_module.c:178-184 | `signal` is called once with the instance and signal when present, and nothing is called when absent |
| Lifecycle.Signals | skynet-src/skynet_module.c:178-184 | delivering signals in order calls `signal` once per signal, in order, when present, and never when absent |
| Lifecycle.LifetimeCalls | skynet-src/skynet_module.c:155-184 | over create, init, signals and release, only entry points the record holds are called, and `init` is called exactly once. Every call gets the instance `create` handed out, which is the sentinel when there is no `create` |

## Left out

- `dlopen`, `dlsym`, `dlerror`: platform calls. They are oracle parameters, and their own semantics are not modelled.
- The spin lock, the unsynchronized first `_query` and the double check under the lock: concurrency. A query is one atomic step, and the two lookups collapse into one.
- `fprintf(stderr, ...)` diagnostics: output only. The `exit(1)` on a malformed segment is the `InvalidPath` outcome and the `Exit` reply.
- `skynet_malloc` / `skynet_strdup`: allocation. The name and template copies are value copies.
- The calls into `create()`, `init()`, `release()`, `signal()`: foreign code. The model records which entry point is invoked with which arguments, and the values returned are oracle parameters. The `struct skynet_context *` handed to `init` is an opaque pointer value.
- On a failed `open_sym`, the C code writes the borrowed name, handle and entry points into slot `count` without publishing it. This is not modelled: only slots below `count` are ever read. The handle leaked on that path has no effect on the registry either.
- SearchPath.CandidateFitsBuffer: `int sz = path_size + name_size` is not modelled as a C `int`. Lengths are unbounded, so an overflow of `sz` for strings over 2^31 bytes is not covered.
- Lifecycle.InstanceCreate: the sentinel is modelled for a 64-bit target (`bv64` all ones). A module whose `create` itself returns that value is indistinguishable from one without `create`, as in the C code.
