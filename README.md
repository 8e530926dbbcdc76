# SlimJar dependency resolution, injection and verification — a Dafny model

SlimJar loads an application's library jars at run time instead of shading them into
the application jar. This project models the core of how it does that. Network, file
system, Gradle and reflection access are replaced by functions given as parameters.

- **Resolution** (module `Resolver`, with `Enquirers` and `Results`).
  - A `CachingDependencyResolver` memoises one `ResolutionResult` per dependency.
  - It re-validates results resolved at build time. A result that is `checked`, or is
    an aggregator, is reused as it is. Otherwise the repository URL, the artifact URL
    and the checksum location are pinged again.
  - Failing that, it takes the first answer of its repository enquirers, or of an
    enforced list of enquirers.
  - Each `PingingRepositoryEnquirer` turns the candidate paths of its path strategies
    into URLs. It takes the first artifact URL that pings, then the first checksum URL
    that pings (or a fallback checksum). Without an artifact, a pinging POM gives an
    aggregator result.
- **Build-time pre-resolution** (modules `GradleDependencies`, `SlimJarTask`,
  `SlimJarLegacy`, `Maps`). These cover both Gradle tasks, `SlimJarTask.kt` and its
  older twin `SlimJar.kt`.
  - Gradle's resolved graph becomes `Dependency` values: coordinate strings are parsed,
    and transitives are collected depth-first with de-duplication. `-bom` artifacts are
    skipped in `SlimJarTask.kt`.
  - The dependencies are flattened. Those without a reusable earlier resolution are
    resolved.
  - The `requirePreResolve` and `requireChecksum` policies abort the Gradle task.
  - The fresh results are merged with the earlier ones.
- **Run-time injection** (module `Injector`). `SimpleDependencyInjector` walks the
  dependency forest. It skips what the helper reports as injected, and skips anything
  already being processed (a cycle guard). It injects each fetched jar before walking
  that dependency's transitives. The four failure modes of a fetch are treated as the
  source treats them.
- **Checksum verification** (module `ChecksumVerifier`). `ChecksumDependencyVerifier`
  decides over a file map:
  - a missing artifact fails;
  - a missing checksum file is prepared from the resolver's checksum location;
  - an empty checksum file defers to the fallback verifier;
  - otherwise the artifact's checksum is compared with the trimmed file content.
- **JVM version gate** (module `ApplicationBuilder`). `createAppending` splits and parses
  the JVM specification version, then picks the injectable.

Imperative source code is modelled imperatively:

- `CachingDependencyResolver`, `SimpleDependencyInjector`, `Injectable`, `FileSystem`
  and `ChecksumDependencyVerifier` are classes whose methods update their fields.
- `collectTransitive`, `toDependency` (which fills an array), the dispatch loops of both
  tasks and the `putIfAbsent` merge are methods with loops.

Each such method is proved equal to a function of the old state. All the properties
are proved about those functions. String helpers (Kotlin `split`, Java `String.split`,
`trim`, `Integer.parseInt`) are in module `Text`.

Where the code and its documentation differ, the model follows the code.

The documentation speaks of one `globalRepository`, but `SlimJarTask.kt:180` reads
`globalRepositories`. The model follows the code and treats it as an optional list of
URL strings.

`ResolutionResult.java` stores a downloaded checksum string (its `checksum` field). Its
callers read a checksum URL instead (`CachingDependencyResolver.java:78`,
`ChecksumDependencyVerifier.java:97`, `SlimJarTask.kt:212`). The model keeps one optional
checksum-location field, `checksumUrl`.

## Model

| member | source | states |
|---|---|---|
| Results.Create | slimjar/src/main/java/io/github/slimjar/resolver/ResolutionResult.java:56-72 | construction fails exactly for a non-aggregator without a URL; otherwise every getter returns its argument (a null checksum location stays null) and the result keeps the invariant |
| Results.SetChecked | slimjar/src/main/java/io/github/slimjar/resolver/ResolutionResult.java:94-96 | `checked` becomes true and every other field is unchanged; the invariant is kept |
| Results.SetCheckedStable | slimjar/src/main/java/io/github/slimjar/resolver/ResolutionResult.java:44-96 | the bit only moves from false to true: raising it twice is raising it once, and raising a checked result changes nothing |
| Enquirers.Create | slimjar/src/main/java/io/github/slimjar/resolver/enquirer/PingingRepositoryEnquirer.java:52-58 | an enquirer holds the repository it was built for, and prints as that repository's URL |
| Enquirers.EnquirersFor | slimjar/src/main/java/io/github/slimjar/resolver/CachingDependencyResolver.java:51-53 | one enquirer per repository, the i-th built for the i-th repository |
| Enquirers.CreateUrl | slimjar/src/main/java/io/github/slimjar/resolver/enquirer/PingingRepositoryEnquirer.java:115-122 | a URL exactly for the well-formed paths, with the path as its string |
| Enquirers.FirstPinging | slimjar/src/main/java/io/github/slimjar/resolver/enquirer/PingingRepositoryEnquirer.java:64-68 | absent exactly when no candidate is well-formed and pings; otherwise the first such candidate, in strategy order |
| Enquirers.Enquire | slimjar/src/main/java/io/github/slimjar/resolver/enquirer/PingingRepositoryEnquirer.java:61-108 | any result keeps the constructor invariant, is checked or an aggregator, and names this enquirer's repository |
| Enquirers.ArtifactFound | slimjar/src/main/java/io/github/slimjar/resolver/enquirer/PingingRepositoryEnquirer.java:69-100 | once some artifact candidate pings, the result is present, not an aggregator, checked, from this repository, at the first pinging candidate, whatever happens to the checksum |
| Enquirers.ChecksumSelection | slimjar/src/main/java/io/github/slimjar/resolver/enquirer/PingingRepositoryEnquirer.java:70-99 | the checksum location is the first pinging checksum candidate; the fallback is used only when there is none |
| Enquirers.NoArtifact | slimjar/src/main/java/io/github/slimjar/resolver/enquirer/PingingRepositoryEnquirer.java:101-107 | with no pinging artifact, a pinging POM gives an unchecked aggregator without URLs, and no POM gives null |
| Enquirers.EnquireAbsent | slimjar/src/main/java/io/github/slimjar/resolver/enquirer/PingingRepositoryEnquirer.java:61-108 | `enquire` is null if and only if neither an artifact nor a POM candidate pings |
| Enquirers.MalformedPathsOnly | slimjar/src/test/java/io/github/slimjar/resolver/enquirer/RepositoryEnquirerTest.java:80-91 | a strategy yielding only malformed paths gives null, whatever the pinger |
| Enquirers.AcceptingPinger | slimjar/src/test/java/io/github/slimjar/resolver/enquirer/RepositoryEnquirerTest.java:46-60 | an accepting pinger and one well-formed path give a present result at that URL |
| Resolver.FirstAnswer | slimjar/src/main/java/io/github/slimjar/resolver/CachingDependencyResolver.java:86-90 | absent if and only if every enquirer answers null; otherwise the answer of the first enquirer that answers, which is checked or an aggregator |
| Resolver.AttemptOutcome | slimjar/src/main/java/io/github/slimjar/resolver/CachingDependencyResolver.java:66-97 | an attempt yields a checked or aggregator result and changes the maps only by raising `checked`; a failed attempt changes nothing |
| Resolver.CheckedPreResolvedReturnedAsIs | slimjar/src/main/java/io/github/slimjar/resolver/CachingDependencyResolver.java:70-74 | a checked or aggregator earlier result is returned as it is, with no ping, no enquiry and no change |
| Resolver.UncheckedPreResolved | slimjar/src/main/java/io/github/slimjar/resolver/CachingDependencyResolver.java:76-86 | an unchecked earlier result is returned and marked checked exactly when the enforced list accepts its repository, its URL pings and its checksum location is absent or pings; otherwise the enquirers in use answer |
| Resolver.NoEarlierResult | slimjar/src/main/java/io/github/slimjar/resolver/CachingDependencyResolver.java:86-96 | without an earlier result the answer is the enforced enquirers' first answer when the list is non-empty, else the default enquirers' |
| Resolver.FreshAttempt | slimjar/src/main/java/io/github/slimjar/resolver/CachingDependencyResolver.java:70-96 | with no pre-resolved results and no cache entry an attempt is exactly the first answer of the enquirers in use |
| Resolver.CachingDependencyResolver.constructor | slimjar/src/main/java/io/github/slimjar/resolver/CachingDependencyResolver.java:48-54 | one enquirer per repository, an empty memo, and a copy of the pre-resolved map |
| Resolver.CachingDependencyResolver.Resolve | slimjar/src/main/java/io/github/slimjar/resolver/CachingDependencyResolver.java:56-59 | a memoised result is returned with nothing changed; otherwise the attempt's result, memoised only when present |
| Resolver.CachingDependencyResolver.ResolveWith | slimjar/src/main/java/io/github/slimjar/resolver/CachingDependencyResolver.java:61-64 | as `Resolve`, and a memoised result wins whatever the enforced list; earlier results change only by being marked checked |
| Resolver.CachingDependencyResolver.AttemptResolve | slimjar/src/main/java/io/github/slimjar/resolver/CachingDependencyResolver.java:66-97 | result and new state are those of `AttemptOutcome` |
| Resolver.ResolveTwice | slimjar/src/main/java/io/github/slimjar/resolver/CachingDependencyResolver.java:57-58 | resolving twice gives the same answer, and a failure leaves the memo as it was (so it is asked again) |
| Text.Split | gradle-plugin/src/main/kotlin/io/github/slimjar/task/SlimJarTask.kt:269 | Kotlin `split`: at least one part, no part holds the separator, and joining the parts gives the input back |
| Text.SplitJoin | gradle-plugin/src/main/kotlin/io/github/slimjar/task/SlimJarTask.kt:269 | splitting a join of separator-free parts gives the parts back |
| Text.JavaSplit | slimjar/src/main/java/io/github/slimjar/app/builder/InjectingApplicationBuilder.java:36 | Java `String.split`: no part holds the separator; the parts joined are a prefix of the input and everything after it is separators; a match leaves no trailing empty part; without a match there is exactly one part (so the input itself) |
| Text.JavaSplitJoin | slimjar/src/main/java/io/github/slimjar/app/builder/InjectingApplicationBuilder.java:36 | splitting the join of separator-free parts gives them back when the last of several parts is not empty |
| Text.ParseInt | slimjar/src/main/java/io/github/slimjar/app/builder/InjectingApplicationBuilder.java:40-41 | `Integer.parseInt`: a value only inside the 32-bit range and only for text that begins with a digit or a sign; unsigned digits parse exactly when their value fits, and then to that value |
| Text.ParseIntRejects | slimjar/src/main/java/io/github/slimjar/app/builder/InjectingApplicationBuilder.java:40-41 | a character that is neither a digit nor a leading sign, a sign alone and the empty string make `parseInt` throw |
| Text.ParseLeadingZero | slimjar/src/main/java/io/github/slimjar/app/builder/InjectingApplicationBuilder.java:40-41 | a leading zero does not change what unsigned digits parse to |
| Text.ParsePlus | slimjar/src/main/java/io/github/slimjar/app/builder/InjectingApplicationBuilder.java:40-41 | a '+'-signed rendering of a non-negative `int` parses to it |
| Text.ParseNegative | slimjar/src/main/java/io/github/slimjar/app/builder/InjectingApplicationBuilder.java:40-41 | a '-'-signed rendering parses to the negation down to -2147483648, and throws below it |
| Text.ParseOverflow | slimjar/src/main/java/io/github/slimjar/app/builder/InjectingApplicationBuilder.java:40-41 | an unsigned number above 2147483647 makes `parseInt` throw |
| Text.ParseDecimal | slimjar/src/main/java/io/github/slimjar/app/builder/InjectingApplicationBuilder.java:40-41 | parsing the decimal rendering of any non-negative 32-bit value gives it back |
| Text.Trim | slimjar/src/main/java/io/github/slimjar/downloader/verify/ChecksumDependencyVerifier.java:76 | `String.trim`: the middle of the input, with only whitespace or control characters removed at each end, and none left at either end |
| Text.TrimIdempotent | slimjar/src/main/java/io/github/slimjar/downloader/verify/ChecksumDependencyVerifier.java:76 | trimming twice is trimming once |
| GradleDependencies.DependencyOf | gradle-plugin/src/main/kotlin/io/github/slimjar/task/SlimJarTask.kt:265-274 | null exactly for fewer than three fields; a dependency prints back as the input, carries the given transitives, and has a snapshot exactly for four fields (also SlimJar.kt:290-299) |
| GradleDependencies.ParseCoordinateString | gradle-plugin/src/main/kotlin/io/github/slimjar/task/SlimJarTask.kt:265-274 | parsing the coordinate string of a dependency with colon-free fields rebuilds it |
| GradleDependencies.ToDependency | gradle-plugin/src/main/kotlin/io/github/slimjar/task/SlimJarTask.kt:266-273 | filling the argument array index by index builds `DependencyOf` |
| GradleDependencies.CollectTransitive | gradle-plugin/src/main/kotlin/io/github/slimjar/task/SlimJarTask.kt:247-259 | extends the set; adds only eligible leaves not yet present, each a child of a listed node or of an added one; covers every eligible listed child; closes over the children of what it adds; terminates on cyclic graphs (also SlimJar.kt:273-284 without the `-bom` test) |
| GradleDependencies.CollectedIsReachable | gradle-plugin/src/main/kotlin/io/github/slimjar/task/SlimJarTask.kt:238-259 | the set collected under a node holds, once each, exactly the leaves of the ids reachable from it through eligible ids |
| GradleDependencies.ToSlimDependency | gradle-plugin/src/main/kotlin/io/github/slimjar/task/SlimJarTask.kt:238-242 | null exactly when the node's id does not parse; otherwise the node's coordinate with exactly its reachable eligible transitives |
| GradleDependencies.GetSlimDependencies | gradle-plugin/src/main/kotlin/io/github/slimjar/task/SlimJarTask.kt:281-284 | in order, one dependency for each child of the project that parses and is not `-bom`, and no other (also SlimJar.kt:306-307 without the filter) |
| GradleDependencies.DedupByKey | gradle-plugin/src/main/kotlin/io/github/slimjar/task/SlimJarTask.kt:287 | `toMutableSet`: distinct coordinates, the same coordinates as the input, elements of the input |
| GradleDependencies.Flatten | gradle-plugin/src/main/kotlin/io/github/slimjar/task/SlimJarTask.kt:286-288 | distinct coordinates, each element occurs in the forest at some depth, and every dependency at any depth has its coordinate present (also SlimJar.kt:309-311) |
| GradleDependencies.FlatMapped | gradle-plugin/src/main/kotlin/io/github/slimjar/task/SlimJarTask.kt:287 | the concatenation holds only dependencies of the forest, and every coordinate of the forest |
| GradleDependencies.FlattenOne | gradle-plugin/src/main/kotlin/io/github/slimjar/task/SlimJarTask.kt:287 | a dependency's own flattening holds only it and its transitives, and all their coordinates |
| GradleDependencies.GetMavenRepos | gradle-plugin/src/main/kotlin/io/github/slimjar/task/SlimJarTask.kt:276-279 | every repository returned is a declared Maven repository whose URL does not start with "file", every such declared repository is returned with the declared string as its URL string, and nothing is added (also SlimJar.kt:301-304) |
| Maps.PutAllIfAbsent | gradle-plugin/src/main/kotlin/io/github/slimjar/task/SlimJarTask.kt:224 | keys are the union; a key takes the source value when the target lacks it or maps it to null, else keeps the target's; without nulls the target wins |
| SlimJarTask.GlobalEnquirers | gradle-plugin/src/main/kotlin/io/github/slimjar/task/SlimJarTask.kt:180-182 | no global repositories gives the empty (unenforced) list; otherwise one enquirer per URL string, failing exactly when some string is malformed |
| SlimJarTask.DispatchFails | gradle-plugin/src/main/kotlin/io/github/slimjar/task/SlimJarTask.kt:196-220 | the Gradle task fails if and only if some dispatched dependency is unresolved under `requirePreResolve` or lacks a checksum under `requireChecksum`, and the error is the first such one's |
| SlimJarTask.DispatchRecords | gradle-plugin/src/main/kotlin/io/github/slimjar/task/SlimJarTask.kt:184-221 | a successful flow records every dispatched dependency that resolves with its answer, omits unresolved ones, and adds nothing else |
| SlimJarTask.PoliciesHold | gradle-plugin/src/main/kotlin/io/github/slimjar/task/SlimJarTask.kt:196-220 | after a successful flow every dispatched dependency resolved when `requirePreResolve`, and has a checksum location when `requireChecksum` |
| SlimJarTask.MergedResult | gradle-plugin/src/main/kotlin/io/github/slimjar/task/SlimJarTask.kt:224 | the written map keeps every earlier key, takes fresh results first, keeps an earlier entry otherwise, and adds only freshly resolved keys |
| SlimJarTask.RunFlow | gradle-plugin/src/main/kotlin/io/github/slimjar/task/SlimJarTask.kt:184-221 | the loop with a real resolver computes `Dispatch` with the enquirers' first answers |
| SlimJarTask.GenerateResolvedDependenciesFile | gradle-plugin/src/main/kotlin/io/github/slimjar/task/SlimJarTask.kt:144-233 | the whole task is `Generate`: global enquirers, flow, then fresh results over the earlier map |
| SlimJarLegacy.DispatchEntries | gradle-plugin/src/main/kotlin/io/github/slimjar/task/SlimJar.kt:216-223 | exactly the dispatched dependencies get an entry, and it is their answer, null included |
| SlimJarLegacy.MergedEntries | gradle-plugin/src/main/kotlin/io/github/slimjar/task/SlimJar.kt:226 | an earlier entry replaces a null answer, a non-null answer is kept, undispatched dependencies keep their earlier entry, every earlier key is present and non-null |
| SlimJarLegacy.RunFlow | gradle-plugin/src/main/kotlin/io/github/slimjar/task/SlimJar.kt:215-224 | the loop with a real resolver computes `DispatchAll` with the enquirers' first answers |
| SlimJarLegacy.GenerateResolvedDependenciesFile | gradle-plugin/src/main/kotlin/io/github/slimjar/task/SlimJar.kt:181-237 | the whole task is `Generate`: flow, then `putIfAbsent` of the earlier map |
| Injector.Remove | slimjar/src/main/java/io/github/slimjar/injector/SimpleDependencyInjector.java:81 | `List.remove`: one element fewer when present, nothing else lost or gained |
| Injector.RemoveNoDuplicates | slimjar/src/main/java/io/github/slimjar/injector/SimpleDependencyInjector.java:63-81 | in a list without repeats, removing an element removes every copy of it and keeps the list repeat-free |
| Injector.InjectAll | slimjar/src/main/java/io/github/slimjar/injector/SimpleDependencyInjector.java:59-84 | URLs are only appended, and each was fetched for a dependency of the walked forest; no entry leaves the processing list unless added during the walk; the list stays repeat-free |
| Injector.InjectOne | slimjar/src/main/java/io/github/slimjar/injector/SimpleDependencyInjector.java:62-82 | the same three facts for one dependency and its transitives |
| Injector.InjectAllStops | slimjar/src/main/java/io/github/slimjar/injector/SimpleDependencyInjector.java:60-83 | once a dependency raises, the rest of the list is not walked |
| Injector.SkipsInjectedOrProcessing | slimjar/src/main/java/io/github/slimjar/injector/SimpleDependencyInjector.java:61-63 | a dependency reported as injected, or already being processed, changes nothing |
| Injector.UnchangedExactly | slimjar/src/main/java/io/github/slimjar/injector/SimpleDependencyInjector.java:61-81 | a dependency leaves the state exactly as it was if and only if it is skipped or its fetch raises an exception that is only printed |
| Injector.JarBeforeTransitives | slimjar/src/main/java/io/github/slimjar/injector/SimpleDependencyInjector.java:67-72 | the fetched jar is injected first, and every later URL comes from its transitives |
| Injector.NoJarStaysProcessing | slimjar/src/main/java/io/github/slimjar/injector/SimpleDependencyInjector.java:69 | without a jar nothing is injected, no transitive is visited, and the dependency stays in processing, so every later walk skips it |
| Injector.CompletedRemoved | slimjar/src/main/java/io/github/slimjar/injector/SimpleDependencyInjector.java:75-81 | after normal completion or a swallowed exception the dependency is no longer being processed |
| Injector.FailureKeepsProcessing | slimjar/src/main/java/io/github/slimjar/injector/SimpleDependencyInjector.java:73-78 | an `IOException` becomes `InjectionFailedException` and the other fatal exceptions a wrapped one, for this dependency; a failing dependency stays in processing |
| Injector.FailureSoundAll | slimjar/src/main/java/io/github/slimjar/injector/SimpleDependencyInjector.java:73-78 | every exception out of the walk names a dependency of the forest whose fetch raised it, of the matching kind |
| Injector.FailureSoundOne | slimjar/src/main/java/io/github/slimjar/injector/SimpleDependencyInjector.java:66-79 | the same for one dependency and its transitives |
| Injector.Injectable.Inject | slimjar/src/main/java/io/github/slimjar/injector/SimpleDependencyInjector.java:71 | the URL is appended to the injected ones |
| Injector.SimpleDependencyInjector.constructor | slimjar/src/main/java/io/github/slimjar/injector/SimpleDependencyInjector.java:45-50 | the given helper factory and an empty processing list |
| Injector.SimpleDependencyInjector.Inject | slimjar/src/main/java/io/github/slimjar/injector/SimpleDependencyInjector.java:52-56 | exactly `data.dependencies()` are walked with the helper the factory makes for the data |
| Injector.SimpleDependencyInjector.InjectDependencies | slimjar/src/main/java/io/github/slimjar/injector/SimpleDependencyInjector.java:59-84 | processing list, injected URLs and raised exception are those of `InjectAll` |
| Injector.SimpleDependencyInjector.InjectDependency | slimjar/src/main/java/io/github/slimjar/injector/SimpleDependencyInjector.java:62-82 | processing list, injected URLs and raised exception are those of `InjectOne` |
| ChecksumVerifier.Prepared | slimjar/src/main/java/io/github/slimjar/downloader/verify/ChecksumDependencyVerifier.java:91-111 | preparation answers false exactly when the resolver has nothing, and then touches nothing; success leaves a checksum file; other files are unchanged |
| ChecksumVerifier.MissingArtifactRejected | slimjar/src/main/java/io/github/slimjar/downloader/verify/ChecksumDependencyVerifier.java:63 | a missing artifact is rejected and nothing is touched |
| ChecksumVerifier.ExistingChecksumFileUsed | slimjar/src/main/java/io/github/slimjar/downloader/verify/ChecksumDependencyVerifier.java:65-81 | an existing checksum file makes the answer independent of the resolver: the fallback's when it is empty, the trimmed comparison otherwise |
| ChecksumVerifier.UnresolvedFallsBack | slimjar/src/main/java/io/github/slimjar/downloader/verify/ChecksumDependencyVerifier.java:67-69 | no checksum file and no resolution: the fallback decides and no file is created |
| ChecksumVerifier.NoChecksumLocationFallsBack | slimjar/src/main/java/io/github/slimjar/downloader/verify/ChecksumDependencyVerifier.java:99-101 | a resolution without a checksum location leaves an empty checksum file and the fallback decides |
| ChecksumVerifier.DownloadedChecksumCompared | slimjar/src/main/java/io/github/slimjar/downloader/verify/ChecksumDependencyVerifier.java:103-110 | a downloaded checksum is stored and compared, trimmed, with the artifact's; an empty one defers to the fallback; a failed download raises and leaves only the parent directory created |
| ChecksumVerifier.VerifyIdempotent | slimjar/src/main/java/io/github/slimjar/downloader/verify/ChecksumDependencyVerifier.java:62-82 | verifying again after a verification that did not raise gives the same answer and changes nothing |
| ChecksumVerifier.ChecksumDependencyVerifier.Verify | slimjar/src/main/java/io/github/slimjar/downloader/verify/ChecksumDependencyVerifier.java:62-82 | answer and new file system are those of `Verified` |
| ChecksumVerifier.ChecksumDependencyVerifier.GetChecksumFile | slimjar/src/main/java/io/github/slimjar/downloader/verify/ChecksumDependencyVerifier.java:84-89 | the output strategy's file for the dependency, with its parent directory created and no file changed |
| ChecksumVerifier.ChecksumDependencyVerifier.PrepareChecksumFile | slimjar/src/main/java/io/github/slimjar/downloader/verify/ChecksumDependencyVerifier.java:91-111 | answer and new file system are those of `Prepared` |
| ApplicationBuilder.InjectableFor | slimjar/src/main/java/io/github/slimjar/app/builder/InjectingApplicationBuilder.java:43-47 | the instrumentation injectable exactly when major > 1 or minor > 8 |
| ApplicationBuilder.CreateAppending | slimjar/src/main/java/io/github/slimjar/app/builder/InjectingApplicationBuilder.java:34-49 | rejected with `IllegalStateException` exactly below two parts; with two or more parts a builder exactly when the first two parse, else `NumberFormatException` for the first part that does not; a builder has the name and the injectable chosen from the two parsed parts |
| ApplicationBuilder.DottedVersionDecides | slimjar/src/main/java/io/github/slimjar/app/builder/InjectingApplicationBuilder.java:36-47 | for every `major.minor` version the two numbers decide the injectable |
| ApplicationBuilder.ExtraPartsIgnored | slimjar/src/main/java/io/github/slimjar/app/builder/InjectingApplicationBuilder.java:36-47 | components after the second (as in "1.8.0") do not take part in the choice |
| ApplicationBuilder.Java8UsesClassLoader | slimjar/src/main/java/io/github/slimjar/app/builder/InjectingApplicationBuilder.java:45-46 | "1.8" selects the wrapped class loader |
| ApplicationBuilder.SingleNumberVersionRejected | slimjar/src/main/java/io/github/slimjar/app/builder/InjectingApplicationBuilder.java:36-39 | every single-number version is rejected with `IllegalStateException` |
| ApplicationBuilder.Java17Rejected | slimjar/src/main/java/io/github/slimjar/app/builder/InjectingApplicationBuilder.java:36-39 | "17" is rejected |
| ApplicationBuilder.CreateAppendingCorrected | slimjar/src/main/java/io/github/slimjar/app/builder/InjectingApplicationBuilder.java:34-49 | agrees with the source whenever there are two parts, and raises `IllegalStateException` only for a version without any part |
| ApplicationBuilder.SingleNumberVersionCorrected | slimjar/src/main/java/io/github/slimjar/app/builder/InjectingApplicationBuilder.java:36-44 | with the correction every single-number version from 2 on (Java 9 and later) selects instrumentation |

## Left out

- Network access is not modelled. The HTTP pinger, downloads and connections are
  parameters: a pinger `Url -> bool`, and a checksum download `Url -> Option<string>`.
- A null URL is assumed never to ping. `HttpURLPinger` is not part of this model.
- `getChecksumFromURL` (`ResolutionResult.java:115-134`) is not modelled because it is
  I/O. So is the string-checksum constructor.
- The SHA-256 download-and-digest fallback of `enquire` (lines 77-98) is left out: it is
  network I/O and hashing. It is the opaque parameter `fallbackChecksum`, and an exception
  there gives `None`.
- Path strategies, the mirror selector and the injection-helper factory are parameters,
  because their sources are not part of this model.
- The enquirer order of `Collectors.toSet()` (`CachingDependencyResolver.java:53`) is not
  modelled. The model keeps the repositories in the order given, but Java leaves this
  order unspecified. So which enquirer answers first may differ from Java's.
- Concurrency is not modelled. This covers `ConcurrentHashMap`, the "one computation per
  key" rule of `computeIfAbsent`, parallel streams, the synchronized processing list, and
  the coroutine `concurrentMap` of both tasks. Everything runs in sequence. With
  concurrency, which fatal error the Gradle task reports may differ.
- Logging is not modelled.
- `ResolutionResult.equals`/`hashCode` are not modelled, because they dereference a URL
  that is null for aggregators. Results are compared as values. The property that
  `equals` holds for the same instance is therefore not stated.
- Aliasing of `ResolutionResult` is not modelled. `setChecked` changes an object that
  other holders may share. The model writes the marked result back into the map it came
  from. A caller's pre-resolved map copied by the constructor still holds the same
  objects, but in the model it does not see the mark.
- `Dependency` is not part of this model.
  - Its equality and `toString` are represented by the injective record `Coordinate`.
  - The earlier map, keyed by `toString()` in the source, is keyed by `Coordinate`.
  - Transitive sets are sequences in insertion order.
- Gradle, JSON and file plumbing is not modelled. The earlier resolution map is a
  parameter, and the map the Gradle task writes is its result.
- The tasks' `performCompileTimeResolution` switch, output directories and shadow copying
  are left out: they are not part of the core logic.
- Gradle's resolved graph is a map from node id to the children's ids, with one node per
  id.
- GradleDependencies.DependencyOf: requires at most four fields. With five or more
  fields, the source's reflective constructor call fails: the fifth field overwrites
  the transitive slot, and a sixth overflows the array.
- GradleDependencies.ToDependency: has the same precondition.
- Enquirers.CreateUrl: a URL's string is taken to be the string it was built from.
  `java.net.URL` normalises that string: it lower-cases the scheme, strips leading and
  trailing characters up to U+0020 and drops a `url:` prefix. The model does not do this.
- GradleDependencies.GetMavenRepos: a repository's URL string is taken to be the declared
  URI string, whereas `toURL()` normalises it as `java.net.URL` does. The reuse filter
  (`SlimJarTask.kt:186-188`, and the same filter in `SlimJar.kt`) compares these strings.
  So a repository declared as `HTTPS://host/path/` does not match an earlier result
  stored as `https://host/path/`, and the model resolves that dependency again where the
  source would reuse it.
- GradleDependencies.GetMavenRepos: `toSet()` removes only repeats of the same repository
  object. The model keeps every declared entry, because a Gradle repository handler holds
  each object once. Also, `URI.toURL()` failures are not modelled.
- SlimJarTask.GlobalEnquirers: the global repositories are read once, before the flow.
  `URL(repoString)` is the parameter `parseUrl`. A malformed string aborts the Gradle task.
- Injector.InjectAll: `isInjected` and `fetch` are pure functions of the dependency. In
  the source they may depend on state that injection changes.
- Injector.InjectAll also folds an exception from `injectable.inject` into the fetch
  outcome. Runtime exceptions other than the ones listed are not modelled.
- `DependencyData`'s mirrors and relocations are not modelled, because the injector does
  not read them.
- ChecksumVerifier.Verified: the resolver is a plain function, so the caching resolver's
  memo is not reflected.
- ChecksumVerifier.Verified: the fallback verifier depends only on path and dependency.
  The checksum calculator depends only on the artifact's content.
- ChecksumVerifier.Verified: file contents are strings. Byte decoding is not modelled.
- ChecksumVerifier.Verified: IOExceptions from local file operations are not modelled.
- ChecksumVerifier.Prepared: the output writer for a dependency is assumed to write into
  the output strategy's file for it. The content length is not modelled.
- Text.ParseInt: accepts only ASCII digits. Java also accepts other Unicode decimal
  digits.
- `InjectingApplicationBuilder.build` is not modelled because it is I/O. The
  specification-version string is a parameter, and a null version is not modelled.
- `ByteBuddyInstrumentationFactory` is not modelled: it is reflection, process attach and
  jar relocation.

## Findings

| source | as written | input that shows it | evidently intended | confidence | as-written member | corrected member |
|---|---|---|---|---|---|---|
| slimjar/src/main/java/io/github/slimjar/app/builder/InjectingApplicationBuilder.java:36-39 | a specification version with fewer than two dot-separated parts is rejected with `IllegalStateException` | "17" (the version string of Java 9 and later is a single number), so the `major > 1` branch is never reached by a real JVM | a single number is the major version, so Java 9 and later select the instrumentation injectable | medium, not executed | ApplicationBuilder.Java17Rejected | ApplicationBuilder.SingleNumberVersionCorrected |
