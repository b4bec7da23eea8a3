# Verification of the dynamic credential provider

A Dafny model of the parts of the dynamic credential provider that decide something, with proofs of
what they promise. `dafny verify dfyconfig.toml` checks the whole project.

## What is modelled

**Matching keys with images** (`Strings`, `Glob`, `Urls`, `Globber`). A key is a URL whose host may
hold wildcards. `Urls` parses, splits, prints and matches URLs as `pkg/urlglobber/matcher.go` does. Its
predicate `Matches` is the documented rule, one glob over the whole host; the method `URLsMatch` is the
loop of the source, which splits at dots and matches part by part, proved to decide that rule.
`Globber` is the scan that turns the domain of an image into stars.

**Choosing a credential** (`Selection`, `Outcomes`, `PluginProviders`, `Specificity`, `DynamicProviders`). Go ranges
over maps in any order, so an order is a sequence of providers, each with its matching keys in some
sequence, and results are stated for all orders. `DynamicProvider` holds the provider map; its methods
take elements of the maps in an arbitrary order, and their contracts say the outcome is one that some
order yields. `Selection` says when all orders yield the same key, and `Outcomes` what the orders can yield and when all
return the same credential.

**The mirror** (`Mirror`, `Kubelet`, `Config`). `Mirror` joins the mirror's URL with the path of an image.
`Kubelet` says in which order the kubelet tries the keys of a response, and what order each strategy
promises.

**Keeping configuration in sync** (`FileWatcher`). The watcher and its copying callback are a machine whose
steps (open, copy some bytes, finish, fail, receive an event) interleave with arbitrary changes of the
source.

**Installing binaries** (`Comparison`, `Install`, `InstallResults`). Files are compared piece by piece under any schedule of
short and failing reads. The target directory is a map that changes step by step, and a ghost trace
keeps every state it goes through, which is every state in which a run can be cut off. A run begins with the probe that
finds out whether the directory is writeable.

## Findings

- The loop's test for a better key, longer or greater, is not transitive: for the image `z.io/a/b` the keys `z.io`, which is
  greater, and `*.*/a/b`, which is longer, each replace the other, so Go's map order decides which key is chosen
  (`Specificity.WildcardWithPathAgainstBareDomain`). `Selection.KeyOrderIndependence` says exactly when the order does not
  matter to the key. The key is not returned, only its credential and lifetime are, and keys may share these: the returned
  result is independent of the order exactly when all choices that `Outcomes.Possible` allows agree
  (`DynamicProviders.LookupIndependence` with `Outcomes.CredentialIndependence`); for one provider, exactly when it offers
  the same under all keys that every other matching key leads to by a chain of replacements
  (`Outcomes.CredentialIndependenceOfOne`). A key that is both greatest and longest and on which the providers agree is
  enough, but not necessary. That the longest match always wins does not hold; `Specificity` has the cases in which the
  most specific key does.
- The probe with which the installer tries out the target directory (`install.go:80`) writes and removes `.touch` there. So of
  the entries a run is to leave alone, the one named `.touch` is lost, and with updating off a source named `.touch`
  replaces an existing file of that name (`InstallResults.ProbeLetsAFileBeReplaced`). `InstallResults.KeptIffNotTheProbe` has
  the exact condition: any other entry is kept, and that one only if the source that takes its place is equal to it.
- The second paragraphs of the comments at `dynamic.go:190-196` and `dynamic.go:202-208` are swapped. The code
  follows the description of the strategies in `dynamiccredentialprovideconfig_types.go:46-57`, and so does the model.
- The message for an endpoint that does not parse says that the mirror could not be parsed and quotes the image in the
  endpoint's place (`dynamic.go:244-248`); the endpoint appears only in the wrapped error of the URL parser.
- A `?` in a key never reaches the host glob, because the URL parser takes it as the start of a query. It would
  break the rule that a pattern matched as text is a narrower one (`Glob.ComposesIffNoQuestionMark`); so for keys given
  as text that rule holds without exception.
- A failed read in the comparison loop is not always an error: when the other file is at its end at that read, the files
  count as different (`install.go:222-224`). `Comparison.CompareFailsIff` has the exact condition.
- In the comparison loop the branch on unequal byte counts (`install.go:231-234`) is unreachable: the branches before
  it cover every case in which one of the two errors is set. `Comparison.DestinationUpToDate` has it as a dead branch.

## Assumptions

- A `char` of a model string is one byte of a Go string.
- `net/url` is modelled on letters, digits and `-._~:/@*?`, the characters of image references and globs. A text with
  any other character, or with an `@` before its first slash, is taken not to parse.
- The reference parser is a parameter (`domainOf`). For a full image name it is taken to report what stands before the
  first slash: labels that begin with a letter or digit, and perhaps a port (`Kubelet.IsNormalised`).
- A plugin is a function from an image to an error, nothing, or a response.
- `fileutil.IsDirWriteable` is not part of this repository. It is taken to write an empty file `.touch`, truncating one that is
  there, and to remove it; either may fail.
- A read of a file delivers at least one byte unless it fails or is at the end; `os.ReadDir` lists names in order.
- No event is dropped. New content of a watched file raises a write, create or remove event on the file's path or on
  `..data` in its directory (`FileWatcher.ReportsChange`); its going away raises some event. Only the watcher writes the destination, and such a write fails
  only when the source is missing or has changed since it was opened.

## Model

| member | source | states |
|---|---|---|
| Glob.SplitMatchIsHostMatch | pkg/urlglobber/matcher.go:79-107 | Splitting pattern and host at dots and matching part by part accepts exactly what one glob over the whole host accepts, wildcards stopping at dots; for all patterns and hosts |
| Glob.LiteralMatches | pkg/urlglobber/matcher.go:94-103 | A character other than `*` and `?` matches itself and nothing else |
| Glob.StarMatches | pkg/urlglobber/matcher.go:94-103 | A star matches exactly the texts without a character at which wildcards stop |
| Glob.QuestionMarkMatches | pkg/urlglobber/matcher.go:94-103 | A question mark matches exactly one character at which wildcards do not stop |
| Glob.MatchConcat | pkg/urlglobber/matcher.go:94-103 | Two patterns in a row match a text if and only if it can be cut in two pieces that they match; with the three laws above this fixes the glob |
| Glob.LiteralPatternMatches | pkg/urlglobber/matcher.go:94-103 | A pattern without wildcards matches its own text only |
| Glob.WhereStarStops | pkg/urlglobber/matcher.go:94-103 | Within a part a star stops at a slash, within a host at a dot as well |
| Glob.MatchReflexive | pkg/urlglobber/matcher.go:94-103 | Every pattern matches itself read as text |
| Glob.MatchTransitive | pkg/urlglobber/matcher.go:94-103 | A pattern without `?` matches whatever is matched by a pattern that it matches as text |
| Glob.ComposesIffNoQuestionMark | pkg/urlglobber/matcher.go:94-103 | That transitivity holds from a pattern if and only if it has no `?` |
| Urls.URLsMatch | pkg/urlglobber/matcher.go:79-107 | The loop with its early returns decides the documented rule: equal ports, path prefix, whole-host glob |
| Urls.URLsMatchStr | pkg/urlglobber/matcher.go:58-68 | Fails exactly when one of the texts does not parse, with the first that does not, and is true exactly when both parse and match |
| Urls.LiteralHostMatches | pkg/urlglobber/matcher.go:79-107 | A key whose host has no wildcard matches exactly the URLs on that host and port whose path begins with its path; only a colon with no port behind it makes no difference |
| Urls.LiteralKeyMatches | pkg/urlglobber/matcher.go:58-107 | The same for texts that parse |
| Urls.HostAndPortIs | pkg/urlglobber/matcher.go:48-55 | A text with exactly one colon is split there into host and port; any other is all host |
| Urls.MatchesStrReflexive | pkg/urlglobber/matcher.go:58-68 | A text matches itself exactly when it parses |
| Urls.MatchesStrTransitive | pkg/urlglobber/matcher.go:58-68 | Matching of texts is transitive, without restriction |
| Urls.MatchesOnOneHost | pkg/urlglobber/matcher.go:79-107 | Between URLs with one host text only the path prefix counts, wildcards in the host or not |
| Urls.SchemeIsAdded | pkg/urlglobber/matcher.go:34-45 | The text is parsed as if `https://` stood in front of it when it has neither scheme |
| Urls.ParsesIff | pkg/urlglobber/matcher.go:34-45 | Which texts parse, with either scheme or none, and into what: the host ends at the first slash or question mark, the path at the first question mark |
| Urls.ParseDeliversParsed | pkg/urlglobber/matcher.go:34-45 | What shape a parsed URL has: no slash, query or user in the host, a valid port, a rooted path |
| Urls.NameParsesBack | pkg/credentialprovider/dynamic/dynamic.go:251-254 | Printing a URL, trimming the slashes and parsing again gives the URL back if and only if the printed name does not begin with a scheme or, without a host, the path does not begin with two slashes |
| Urls.NameOfRelativePath | pkg/credentialprovider/dynamic/dynamic.go:251-254 | Without a host, a relative path is printed with `./` in front if and only if its first segment has a colon |
| Urls.SchemeIsIgnored | pkg/urlglobber/matcher.go:34-45 | Bare, with `http://` and with `https://`, an endpoint parses to the same URL |
| Globber.ReplaceRunsIsSplitMapJoin | pkg/urlglobber/globber.go:33 | The run-replacement scan is splitting at dots, starring each part that is not empty, and joining |
| Globber.ReplaceRunsIdempotent | pkg/urlglobber/globber.go:33 | Globbing a globbed host changes nothing |
| Globber.GlobbedDomainIs | pkg/urlglobber/globber.go:21-39 | The host is globbed and a port is put behind it again; a text that does not split is globbed whole |
| Globber.GlobbedDomainSplits | pkg/urlglobber/globber.go:29-36 | Globbing keeps the port and touches nothing but the host |
| Globber.GlobbedDomainMatchesExactly | pkg/urlglobber/globber.go:21-39 | For any domain text without stray colons: which hosts its globbed form matches, empty parts included |
| Globber.GlobbedDomainMatchesDomain | pkg/urlglobber/globber.go:21-39 | Among valid domains: if and only if both have the same number of parts and the same port |
| Globber.GlobbedDomainParses | pkg/urlglobber/globber.go:21-39 | The globbed domain is a key that parses to a host with no path |
| Globber.DomainOfLabels | pkg/urlglobber/globber.go:21-39 | Labels joined by dots, with a port or without, are valid domains |
| PluginProviders.IsImageAllowed | pkg/credentialprovider/dynamic/plugin_executor.go:127-135 | The search says yes exactly when some configured pattern matches |
| PluginProviders.Provide | pkg/credentialprovider/dynamic/plugin_executor.go:97-124 | The answer is the plugin's, whatever it is, if a configured pattern matches; otherwise there is no response and no error |
| PluginProviders.OfferedIsReturned | pkg/credentialprovider/dynamic/dynamic.go:288-298 | What counts for an image is exactly what plugins that are asked return under matching keys, with the lifetime of the reply, or else the plugin's default, or else zero |
| PluginProviders.KeyInsideThePatterns | pkg/credentialprovider/dynamic/plugin_executor.go:127-135 | An image matched by a key inside the configured patterns is itself allowed |
| PluginProviders.GateKeepsOffer | pkg/credentialprovider/dynamic/plugin_executor.go:97-135 | A plugin whose keys are inside its patterns offers the same for every image with the gate and without it |
| PluginProviders.GateLosesNothing | pkg/credentialprovider/dynamic/plugin_executor.go:97-135 | If every returned key is inside its plugin's patterns, the gate leaves the offers as they would be without it, for every image |
| Selection.ChosenIsOneEntry | pkg/credentialprovider/dynamic/dynamic.go:288-304 | In every order, key, credential and duration belong to one entry of one provider; nothing is chosen exactly when no non-empty key matches |
| Selection.OrderExists | pkg/credentialprovider/dynamic/dynamic.go:262-288 | There is always an order, so no statement about all orders is empty |
| Selection.DominantWinsInEveryOrder | pkg/credentialprovider/dynamic/dynamic.go:288-301 | A key that is greatest in string order and longest is chosen in every order |
| Selection.SomeOrderChooses | pkg/credentialprovider/dynamic/dynamic.go:288-301 | A key that replaces all others is chosen by some order |
| Selection.KeyOrderIndependence | pkg/credentialprovider/dynamic/dynamic.go:257-304 | The chosen key is the same in all orders if and only if no key matches or the greatest matching key is also longest |
| Strings.LessIff | pkg/credentialprovider/dynamic/dynamic.go:293 | The order of keys: the lesser ends first or has the lesser character where the two first differ |
| Selection.FirstProviderDecides | pkg/credentialprovider/dynamic/dynamic.go:262-301 | Of several providers with the dominant key, the one ranged over first gives the credential |
| Selection.OrderIndependence | pkg/credentialprovider/dynamic/dynamic.go:257-304 | The whole choice, with the key that is not returned, is the same in all orders if and only if no key matches, or there is a dominant key and its providers agree under it |
| Outcomes.ProviderOutcomes | pkg/credentialprovider/dynamic/dynamic.go:288-301 | What some order of one provider's keys makes of a choice: it stands if no key replaces it, and otherwise it can become exactly those keys that all the provider's keys lead to by chains of replacements |
| Outcomes.OutcomesAreThePossible | pkg/credentialprovider/dynamic/dynamic.go:257-304 | The choices of all orders of all providers are exactly those built up provider by provider in this way |
| Outcomes.CredentialIndependence | pkg/credentialprovider/dynamic/dynamic.go:257-304 | The returned credential and lifetime are the same in all orders if and only if all those choices agree on them |
| Outcomes.CredentialIndependenceOfOne | pkg/credentialprovider/dynamic/dynamic.go:288-304 | With one provider: if and only if it offers the same under every key that all its keys lead to |
| Outcomes.GreatestAndLongestAreFinal | pkg/credentialprovider/dynamic/dynamic.go:293 | A key that replaces all others, as the greatest and the greatest of the longest do, is led to by all |
| Specificity.LiteralKeyWins | pkg/credentialprovider/dynamic/dynamic.go:288-301 | A literal key is chosen in every order over keys got from it by starring whole host parts and shortening the path |
| Specificity.LongestPathWins | pkg/credentialprovider/dynamic/dynamic.go:288-301 | Matching keys on one host text are prefixes of the one chosen, in every order |
| Specificity.WildcardWithPathAgainstBareDomain | pkg/credentialprovider/dynamic/dynamic.go:288-301 | Of a bare domain and its globbed form with the image's path, both of which match, the same is chosen in all orders if and only if the globbed key is not the longer |
| Mirror.JoinedName | pkg/credentialprovider/dynamic/dynamic.go:251-254 | The name asked for at the mirror is its host, its cleaned path with the image's segments added, and its query |
| Mirror.MirrorImageFails | pkg/credentialprovider/dynamic/dynamic.go:233-249 | Which error when: the image's if the image does not parse, the mirror's if only the endpoint does not, otherwise none |
| Mirror.CleanRules | pkg/credentialprovider/dynamic/dynamic.go:252 | Cleaning applies the four rules of `path.Clean` for rooted paths: empty and `.` segments go, `..` goes with the segment before it, and alone at the root |
| Mirror.CleanKeepsPlain | pkg/credentialprovider/dynamic/dynamic.go:252 | A path to which no rule applies is left as it is |
| Mirror.JoinPathIs | pkg/credentialprovider/dynamic/dynamic.go:252 | For any endpoint and any image path: the two with a slash between them, cleaned, a trailing slash kept, host and query unchanged |
| Mirror.ImagePathOfSegments | pkg/credentialprovider/dynamic/dynamic.go:251-252 | Segments that begin with a letter or digit make a path of the kind the results on endpoints are about |
| Mirror.MirrorImageParses | pkg/credentialprovider/dynamic/dynamic.go:233-254 | Parsing that name again gives the mirror's host and the joined path, for every endpoint with a host |
| Mirror.PrefixBySegments | pkg/urlglobber/matcher.go:90-93 | A path is a prefix of another if and only if it is one segment by segment, the last one perhaps cut short |
| Mirror.EndpointMatchesIffTidy | pkg/credentialprovider/dynamic/dynamic.go:233-254 | A credential keyed by the endpoint matches the mirror's name for every image, its path segments beginning with a letter or digit, if and only if the endpoint's path has no empty, `.` or `..` segment but for one trailing slash |
| Mirror.MirrorImageIgnoresHostAndScheme | pkg/credentialprovider/dynamic/dynamic.go:233-254 | Images with equal paths, and the three spellings of an endpoint, give one name |
| Kubelet.GlobbedKeyComesLast | pkg/urlglobber/globber.go:21-39 | For a full image name both the name and its globbed domain match it, and the globbed domain sorts below it |
| Kubelet.FullNameIsNormalised | pkg/credentialprovider/dynamic/dynamic.go:176-179 | Labels joined by dots, perhaps a port, a slash and the rest make a full image name |
| Kubelet.OneTraversal | pkg/urlglobber/doc.go:26-28 | For every response and image there is one reverse order of the matching keys, and only one |
| Kubelet.StrategyOrder | pkg/credentialprovider/dynamic/dynamic.go:170-223 | For every full image name there is a traversal of the merged map, and it yields mirror then origin for First, origin then mirror for Last, and only the mirror for Only; likewise when one of them is not found |
| DynamicProviders.UpdateAuthConfigMapForMirror | pkg/credentialprovider/dynamic/dynamic.go:170-223 | The map after each strategy, changed in place; which error when, and then the map is as it was |
| DynamicProviders.FoundIffSomethingMatches | pkg/credentialprovider/dynamic/dynamic.go:257-304 | A lookup finds something exactly when a plugin that is asked returns a matching key, whatever the order |
| DynamicProviders.FoundIsAnAnswer | pkg/credentialprovider/dynamic/dynamic.go:257-304 | What any order finds is one plugin's credential under one matching key, with the reply's lifetime or the plugin's default; when nothing is found, no reply has such a key |
| DynamicProviders.LookupIndependence | pkg/credentialprovider/dynamic/dynamic.go:257-304 | What a lookup returns is the same in all orders if and only if the chosen credential and lifetime are |
| DynamicProviders.DominantKeySettlesTheLookup | pkg/credentialprovider/dynamic/dynamic.go:257-304 | With a dominant key on which the providers agree, a lookup has one result |
| DynamicProviders.DynamicProvider.GetCredentialsForImage | pkg/credentialprovider/dynamic/dynamic.go:257-305 | Fails if and only if a plugin with a matching pattern fails, whatever the order, with such a plugin's error; otherwise the result is the choice of some order, and it is what a plugin returned, credential and lifetime, or nothing when none returned a matching key |
| DynamicProviders.DynamicProvider.GetMirrorCredentialsForImage | pkg/credentialprovider/dynamic/dynamic.go:225-255 | Nothing without a mirror; otherwise the lookup of the mirror's name for the image and what it answers, and exactly when and how it fails |
| DynamicProviders.DynamicProvider.GetCredentials | pkg/credentialprovider/dynamic/dynamic.go:118-168 | Exactly when it fails and with which error; without a mirror or with any strategy but `MirrorCredentialsOnly` the origin is looked up and its failure reported, with that strategy neither; the lifetime is the least of those of the credentials found, zero without any; the kubelet tries the credentials in the promised order |
| DynamicProviders.EndpointCredentialIsFound | pkg/credentialprovider/dynamic/dynamic.go:225-305 | A provider configured for a tidy endpoint that returns it as key makes the mirror lookup succeed for every image and order |
| FileWatcher.HandleEvent | pkg/filewatcher/watcher.go:94-113 | The callback runs if and only if the event is a write, a creation or a removal, of the watched path or of a path whose last element is `..data` |
| FileWatcher.BaseIff | pkg/filewatcher/watcher.go:102 | `filepath.Base` gives a name if and only if the path ends in it, after a slash or nothing and before any slashes |
| FileWatcher.ReportIsRelevant | pkg/filewatcher/watcher.go:94-104 | An event by which a change is reported, on the file or on `..data` next to it, always runs the callback |
| FileWatcher.EventRunsTheCallback | pkg/filewatcher/watcher.go:71-113 | Of the events received exactly those run the callback |
| FileWatcher.OnlyCopiesWrite | cmd/dynamic-credential-provider/sync_config.go:71-89 | Outside a copy the watcher leaves the destination alone, also when there is no source |
| FileWatcher.OnlyTheFirstCopyStops | pkg/filewatcher/watcher.go:48-86 | A failure of the copy that `Start` makes itself ends it; a failure of any other is passed over |
| FileWatcher.ServesOnlyAfterFirstCopy | pkg/filewatcher/watcher.go:48-69 | In no run is an event served unless the first copy has come to its end before |
| FileWatcher.InvariantKept | pkg/filewatcher/watcher.go:48-113 | Every step, of the watcher or of a writer, keeps the invariant |
| FileWatcher.NoLostUpdate | pkg/filewatcher/watcher.go:48-113 | In every state of every run from the beginning of the first copy until the watcher stops: no source, or in sync, or an event pending, or the source about to be opened, or a copy of the present source under way; a drained idle watcher is in sync |
| FileWatcher.WorkLowersCost | pkg/filewatcher/watcher.go:71-92 | Each step of the watcher alone lowers a measure of events and bytes left |
| FileWatcher.StuckIsDrained | pkg/filewatcher/watcher.go:71-92 | The watcher can go on unless it is idle with no event, or stopped |
| FileWatcher.ComesToRestInSync | cmd/dynamic-credential-provider/sync_config.go:71-94 | From any state of any run, once writers pause, the watcher runs out of steps within a bound, and then it has stopped, there is no source, or the destination is the source; it stops only if its first copy has no source or one that changed |
| Comparison.Reader.Read | pkg/install/install.go:212-215 | One read fills the front of the shared buffer with the next bytes and advances by their number |
| Comparison.DestinationUpToDate | pkg/install/install.go:162-243 | The loop ends, and its answer is the verdict `UpToDate` on the two files |
| Comparison.CompareIsTrueIff | pkg/install/install.go:210-242 | From any position the loop says equal if and only if the rests are equal and both files deliver equal pieces to the end without failing |
| Comparison.UpToDateIff | pkg/install/install.go:162-243 | Up to date if and only if the destination is a file with the same contents and mode and the reads keep in step |
| Comparison.CompareFailsIff | pkg/install/install.go:210-230 | The loop ends in an error if and only if, after rounds of equal pieces, a read fails and the other file's fails as well or is not at its end |
| Comparison.UpToDateFailsIff | pkg/install/install.go:162-243 | The comparison fails if and only if the destination is a file of that size and mode and the loop fails |
| Comparison.InStepVerdictIsEquality | pkg/install/install.go:210-242 | With reads that do not fail and keep in step the answer is plain equality |
| Comparison.FullReadsKeepInStep | pkg/install/install.go:205-215 | Full reads keep in step |
| Install.SkipBinary | pkg/install/install.go:44-51 | A binary is skipped exactly when it is listed |
| Install.TargetDirectory.EnsureDirExists | pkg/install/install.go:114-127 | The probe fails exactly when it may not write or remove, or a directory bears its file's name; otherwise two steps, after which its file is gone |
| Install.TargetDirectory.Copy | pkg/install/install.go:141-145 | Every intermediate state differs at the temporary name only; it succeeds exactly when that is no directory and no write fails, and then the file is there with its mode, otherwise a part of it |
| Install.TargetDirectory.Rename | pkg/install/install.go:149-152 | The rename is one step, and fails only over a directory |
| Install.TargetDirectory.CopyFileAndPermissions | pkg/install/install.go:130-155 | In every intermediate state the target is its old self or the complete source, and only it and its temporary differ; exactly when it fails and with which error; a target that is up to date is left alone |
| Install.InstallBinary | pkg/install/install.go:89-108 | One round: a skipped name is not touched, one that is done leaves no trace, and the outcome is that of the step |
| Install.Install | pkg/install/install.go:73-112 | In every state of every run, failed or cut off, each name other than the probe's file and the temporaries of installed sources is its old self or the complete source; the outcome, success or the first error; with nothing left to do, only the probe leaves a trace |
| InstallResults.StepFailsIff | pkg/install/install.go:89-155 | Which error one step ends in, exactly when, and that there is no other: a failed comparison, a failed copy, or a directory in the target's place |
| InstallResults.WritesSucceedIff | pkg/install/install.go:143 | Writing succeeds if and only if some number of writes, none of them failing, delivers everything |
| InstallResults.NotWriteableIff | pkg/install/install.go:80-82 | A run gives up before its first step exactly when the probe does not work or finds a directory |
| InstallResults.FailsIffAStepFails | pkg/install/install.go:89-109 | After the probe a run fails if and only if some step fails in the directory that the steps before it lead to |
| InstallResults.FirstFailureIsTheError | pkg/install/install.go:103-105 | The error is that of the first step that fails |
| InstallResults.UnhinderedRunSucceeds | pkg/install/install.go:89-111 | A run succeeds if no directory is in the way and no read or write fails |
| InstallResults.OthersAreUntouched | pkg/install/install.go:89-107 | Names that are neither an installed source nor its temporary are as before the steps |
| InstallResults.NamesStayAsInstalled | pkg/install/install.go:89-107 | What one step leaves under its name no later step of the sorted listing disturbs |
| InstallResults.InstalledAtItsTurn | pkg/install/install.go:89-107 | A source not skipped is there afterwards, as the source if it was updated or missing, and as it was if it was passed over |
| InstallResults.EverySourceIsInstalled | pkg/install/install.go:73-112 | With updating on, every source not skipped is in place with contents and mode after a successful run from any directory, even if named like another's temporary |
| InstallResults.KeptIffNotTheProbe | pkg/install/install.go:80-107 | An entry that a run is to leave alone survives it if and only if it does not bear the probe's name or is equal to the source installed in its place |
| InstallResults.ProbeLetsAFileBeReplaced | pkg/install/install.go:80-102 | With updating off, an existing `.touch` is replaced by the source of that name |
| InstallResults.FullReadsKeepAllInStep | pkg/install/install.go:205-215 | Reads that fill the buffer keep in step for every source |
| InstallResults.RunSettles | pkg/install/install.go:73-112 | After a successful run nothing is left to do for a run whose reads keep in step, or with updating off |
| InstallResults.InstallTwice | pkg/install/install.go:73-112 | Of two runs, if the first succeeds then so does the second, which leaves the directory as it is and nothing in the trace but the probe's file coming and going |
| InstallResults.SecondRunEndsTheSame | pkg/install/install.go:73-112 | Even with a source named like the probe's file, and others like its temporaries, the directory after a second successful run is that after the first |

## Left out

- Running a plugin: processes, timeouts, JSON and the conversion between API versions.
- singleflight, mutexes, and the fatal exit on a provider registered twice; the map is given with distinct names.
- The rest of the URL grammar: percent escapes, fragments, user info, bracketed IPv6 hosts, and `[...]` or `\` in globs.
- The reference parser itself, which also turns short names into full ones; names it would complete are not full image names here.
- Endpoints without a host: the name they lead to is modelled, but not which keys match it.
- DynamicProviders.DynamicProvider.GetCredentials: for an image that is not a full name its map is stated, the kubelet's traversal of it is not.
- Configuration files, the validation webhook, registration of plugins, environment variables and command wiring.
- Resolving the symbolic link in the sync callback: the source is what its path shows, and swapping the link is a change of it.
- Several watched files: each has a watcher of its own, with nothing shared between them.
- Directories, links and I/O errors other than failing reads and writes in the installer, and creating the target directory when it
  does not exist.
