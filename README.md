# tom: a model of an in-source build tool

`tom.py` is a small make-like tool. Build rules are written as `@`-directives
inside C and C++ sources. `@requires "p" ...` names the files a source depends
on. `@produces "name" command` names an artefact and the shell command that
generates it. The tool walks the tree, scans every `.c`, `.cpp`, `.h` and
`.hpp` file, and indexes the declared products by path. It then builds each
requested target recursively, regenerating a product when one of its
requirements was rebuilt or when the product is older than the file that
declares it. `clean` removes every registered product.

The model is in Dafny, one module per component:

- `Wrappers` (wrappers.dfy): `Option` and `Result`.
- `Strings` (strings.dfy): Python's `replace`, `split`, `join` and `strip`
  on strings. `Replace` is proved equal to `rep.join(s.split(pat))`, and
  split/join round-trips.
- `Paths` (paths.dfy): `os.path.dirname`, `os.path.join` (posixpath), `completePath`
  and `hasValidExtension`.
- `Patterns` (patterns.dfy): the two regular expressions of the tool,
  `@[a-zA-Z]\s*.*` and `"[^"]*"`, written out as `findall` and `search`
  functions over the text.
- `Scanner` (scanner.dfy): the `Product` and `Node` records, the command
  templater `assignCommand`, and the directive scanner `scan`. Both are
  methods with loops, proved equal to specification functions. Lemmas say
  what those functions mean.
- `Registry` (registry.dfy): scanning the walked tree and filling the
  `products` dictionary (path to node; the last declaring node wins).
- `Build` (build.dfy): the file system as a class (`FileSystem`). Besides it:
  the recursive `build` and the `clean` loop as methods; `BuildSpec`, the
  specification the `build` method is proved equal to; and the lemmas about
  `BuildSpec`.

Modelling choices:

- `Product` and `Node` are datatypes. The source fills a node's lists only
  while `scan` runs and only reads them afterwards, so a value is enough.
- The file system is a map from path to modification time, plus the
  sequence of commands executed so far.
- `os.system` is a parameter of type `Runner`: a function from the number
  of commands run before, the command and the files, to the new files.
  Every lemma holds for every runner.
- The environment is an explicit sequence of (name, value) pairs, in the
  order `os.environ` yields them.
- The directory walk is an explicit sequence of (directory, file name,
  text) triples.
- `build` may recurse without end: on cyclic requirements, and on any
  absolute target or requirement. It therefore carries `fuel`, a bound on
  the depth of nested calls, which stands for Python's recursion limit.
  Running out gives `OutOfFuel`. `AbsoluteTargetNeverFinishes` proves that
  an absolute target runs out of fuel whatever the fuel.
- `BuildSpec` writes the normalisation `completePath('./', target)` as
  `Normalize(target)`, and `NormalizeIsCompletePath` proves the two equal for
  every target. The `Build` method normalises through `NormalizeTarget`,
  which computes `CompletePath("./", target)` itself.
- `getmtime` and `remove` raise on an absent file; the model returns
  `MissingFile`. A `@produces` directive without a quoted literal makes
  `scan` raise; the model returns `ProducesWithoutLiteral`.

Behaviour of the code worth knowing:

- `$@` becomes the product's declared name, not its path (tom.py:79).
- The environment is one pass in environment order, with no fixed point
  (tom.py:72-73; `EnvironmentIsOnePass`).
- The token chain sees the text produced by its earlier steps
  (`TokensRescanEarlierText`).
- `$^` expands to the requirements declared above the `@produces` line,
  because `assignCommand` runs inside the scanning loop (`ScanProducesCommand`).
- A `@produces` directive without a literal is an error, not skipped.
- The directive pattern's `\s*` may run across newlines, so a directive whose
  letter is followed by white space extends to the end of a later line and
  hides any directive inside it. `@requires` and `@produces` directives are
  always single lines (`DirectiveIsOneLine`).
- There are no `@default` directives, no execution gate and no concurrency:
  requirements are built one after the other, in order.

## Model

| member | source | states |
|---|---|---|
| `Strings.ReplaceIsSplitJoin` | tom.py:73 | `str.replace` as modelled equals joining the pieces of a split with the replacement |
| `Strings.SplitJoinRoundTrip` | tom.py:79 | joining the pieces of a split with the separator gives back the original string |
| `Strings.ReplaceAbsent` | tom.py:73 | replacing a pattern that does not occur leaves the string unchanged |
| `Strings.ReplaceBySelf` | tom.py:73 | replacing a pattern by itself is the identity |
| `Strings.ReplaceWhole` | tom.py:79 | a string that is exactly the pattern becomes the replacement |
| `Strings.StripLeftShape` | tom.py:89 | `lstrip(c)` removes a prefix made of `c` only, and what is left does not start with `c` |
| `Strings.StripRightShape` | tom.py:89 | `rstrip(c)` removes a suffix made of `c` only, and what is left does not end with `c` |
| `Strings.StripQuoted` | tom.py:89 | `strip('"')` of a quoted word without inner quotes gives the word |
| `Paths.LastIndexOfShape` | tom.py:67 | the search for the last '/' that `dirname` cuts at finds an index holding the character, with none later, or -1 when there is none |
| `Paths.DirnameShape` | tom.py:66-67 | a path is its dirname (a prefix), separating slashes, and a last component without slashes; the dirname is empty exactly when the path has no slash |
| `Paths.ResolveRelative` | tom.py:66-67 | a relative literal in a file inside a directory resolves to that directory, "/", and the literal |
| `Paths.ResolvedStaysRelative` | tom.py:89 | literals resolved against a file of the walked tree start with "." unless absolute |
| `Paths.ResolveAbsolute` | tom.py:66-67 | an absolute literal is taken unchanged |
| `Paths.NormalizeRelative` | tom.py:105-106 | `completePath('./', t)` is "./" followed by `t` for a relative `t` |
| `Paths.NormalizeTarget` | tom.py:105-106 | computing `completePath('./', target)` gives an absolute target unchanged and "./" in front of any other |
| `Paths.NormalizeIsCompletePath` | tom.py:105-106 | `completePath('./', t)` keeps an absolute `t` and puts "./" in front of any other |
| `Paths.HasValidExtension` | tom.py:55-64 | true exactly when the name ends with one of `.c`, `.cpp`, `.h`, `.hpp` |
| `Patterns.DirectivesFromShape` | tom.py:86 | every directive found starts with '@' and a letter at a position of the text and runs to the end of the pattern's match |
| `Patterns.DirectiveIsOneLine` | tom.py:32 | a directive whose letter is followed by a non-space holds no newline and ends at a newline or the end of the text |
| `Patterns.NextDirectiveFound` | tom.py:86 | `findall` yields the leftmost match at or after the current position first, skipping none, then resumes at its end |
| `Patterns.NoDirectiveLeft` | tom.py:86 | with no match at or after the current position, `findall` yields nothing more |
| `Patterns.NoAtNoDirectives` | tom.py:86 | a text without '@' yields no directives |
| `Patterns.NextLiteralShape` | tom.py:33 | the literal `search` finds is a quote, text without quotes, and a quote, and no quote comes before it |
| `Patterns.NextLiteralUnquote` | tom.py:91-93 | stripping the quotes off the literal found leaves the text between them |
| `Patterns.SearchIsFirstLiteral` | tom.py:88-91 | `search` finds a literal exactly when `findall` finds one, and finds the first |
| `Patterns.LiteralsFromShape` | tom.py:88 | every literal `findall` yields is a quoted word without inner quotes |
| `Patterns.UnquoteQuoted` | tom.py:89 | unquoting a quoted word gives the text between its quotes |
| `Scanner.AssignCommand` | tom.py:69-79 | the command is the template after the environment pass in order, then the replaces `$#`, `$~`, `$^`, `$@` in that order |
| `Scanner.ExpandEnvironmentNoDollar` | tom.py:72-73 | a template without '$' passes the environment unchanged |
| `Scanner.CommandWithoutDollar` | tom.py:69-79 | a command template without '$' is used as written |
| `Scanner.TokenMeaning` | tom.py:75-79 | `$#` gives the file, `$~` its directory, `$^` its requirements joined by one space, `$@` the product name |
| `Scanner.TokensRescanEarlierText` | tom.py:79 | a token inside text introduced by an earlier replace of the chain is itself replaced |
| `Scanner.EnvironmentIsOnePass` | tom.py:72-73 | environment expansion is a single pass whose result depends on the order of the variables |
| `Scanner.ResolveAllMeaning` | tom.py:88-89 | one resolved path per literal, in order: `completePath(file, literal stripped of quotes)` |
| `Scanner.ScanDirective` | tom.py:87-96 | one directive fails exactly when it is a `@produces` without a literal; otherwise the name is kept, `@requires` appends its literals resolved in order, `@produces` appends one product (declared name, resolved path, expanded command) after the earlier ones, and any other directive changes nothing |
| `Scanner.Scan` | tom.py:81-100 | the node is the one the directives of the text give, in text order, or the error of the first bare `@produces` |
| `Scanner.ScanRequirements` | tom.py:84-89 | the node is named after the file; its requirements are every literal of every `@requires` directive, in order, duplicates kept |
| `Scanner.ScanFailsOnBareProduces` | tom.py:90-93 | the scan succeeds exactly when every `@produces` directive has a literal; otherwise it reports the first one without |
| `Scanner.ScanStepProducts` | tom.py:90-96 | a directive appends one product exactly when it is a `@produces` directive, leaving earlier products in place |
| `Scanner.ScanProducts` | tom.py:90-96 | one product per `@produces` directive, in order; name the first literal unquoted, path that name resolved against the file |
| `Scanner.ScanProducesCommand` | tom.py:95 | a product's command is expanded with the requirements declared above its directive |
| `Registry.RegisterProducts` | tom.py:171-172 | registering a node's products maps each of their paths to the node and leaves every other entry as it was |
| `Registry.BuildRegistry` | tom.py:166-172 | the dictionary is the registry of the nodes of all source files in walk order, or the first scan error |
| `Registry.RegistryKeys` | tom.py:171-172 | the keys are exactly the product paths some scanned node declares |
| `Registry.LastDeclaring` | tom.py:171-172 | the index of a node declaring the path with no later node declaring it, or -1 |
| `Registry.RegistryLastWins` | tom.py:171-172 | a registered path is declared by some node and maps to the last scanned node that declares it |
| `Registry.RegistryConsistent` | tom.py:171-172 | every entry's node declares the entry's path |
| `Registry.ScanTreeNames` | tom.py:167-170 | one node per file with a source extension, in walk order, named by the joined path |
| `Build.FindProduct` | tom.py:126-132 | the first product with the target's path, or none exactly when no product has that path |
| `Build.Build` | tom.py:102-136 | the result and the new file system are those of `BuildSpec` on the old file system |
| `Build.Refresh` | tom.py:108-119 | for a product on disk: the result and new file system are those of `RebuildIfStale` |
| `Build.Produce` | tom.py:120-132 | for a product not on disk: the result and new file system are those of `Generate` |
| `Build.RunFirstProduct` | tom.py:126-132 | runs the command of the first product whose path is the target and nothing else, and reports whether there was one |
| `Build.BuildRequirements` | tom.py:111-112 | building the requirements in order on the disk each leaves, summing counts, stopping at the first error |
| `Build.Clean` | tom.py:187-191 | no registered path exists afterwards, every other file keeps its time, and no command runs |
| `Build.FileSystem.Remove` | tom.py:116 | the path is gone and nothing else changes |
| `Build.FileSystem.System` | tom.py:130 | the runner's effect is applied and the command recorded |
| `Build.BuildCountsExecutions` | tom.py:102-136 | the count returned equals the number of commands executed in the call tree; the record only grows |
| `Build.BuildAllCountsExecutions` | tom.py:111-112 | the same for the requirement loop |
| `Build.AbsentProductIsGenerated` | tom.py:120-132 | with a consistent registry, a successful build of an absent product counts one or more executions |
| `Build.ZeroBuildChangesNothing` | tom.py:102-136 | with a consistent registry, a build that returns 0 leaves files and executions unchanged |
| `Build.ZeroBuildAllChangesNothing` | tom.py:111-112 | the same for the requirement loop |
| `Build.UnknownTarget` | tom.py:133-134 | an absent target that is no product returns 0 and changes nothing |
| `Build.ExistingSourceIsLeaf` | tom.py:107-108 | an existing non-product target returns 0 and changes nothing |
| `Build.UpToDateTarget` | tom.py:107-119 | an existing product whose requirements build nothing and which is not older than its source returns 0 with the disk unchanged |
| `Build.UpToDateAfterRequirements` | tom.py:114-119 | for any registry: when the requirements return 0 and the target is not older than its source, 0 is returned and the target is not removed |
| `Build.StaleTargetIsRebuilt` | tom.py:114-117 | with a consistent registry, a product on disk older than its source whose requirements build nothing is removed and built again on the disk without it |
| `Build.RebuiltRequirementsForceRebuild` | tom.py:111-117 | a product on disk whose requirements built something is removed and built again whatever its age, the counts adding up |
| `Build.StaleTargetIsRegenerated` | tom.py:114-117 | a stale product without requirements is removed and generated again by one execution of its command, count 1 |
| `Build.FreshProductBuildsOnce` | tom.py:120-132 | an absent product without requirements is generated by exactly one execution, count 1 |
| `Build.NormalizedTarget` | tom.py:105-106 | a target not starting with "." is built as `completePath('./', target)`, which is "./" followed by a relative target |
| `Build.AbsoluteTargetNeverFinishes` | tom.py:105-106 | an absolute target is normalised to itself forever: no fuel suffices |

## Left out

- Command-line options (`getopt`, tom.py:141-147): they only set logging flags.
- Operating-system detection (tom.py:37-42): it runs an external process. The model takes the environment as given.
- Reading the Tomfile and writing it into `os.environ` (tom.py:150-163): file I/O and process state. The environment is a parameter of the scan.
- The directory walk (tom.py:167-169): it is an input sequence of files, in walk order.
- Reading each file (`open(file).read()`, tom.py:82) and the error raised on an unreadable file: the text is part of each input file.
- What commands do, and real modification times: a command's effect is the `Runner` parameter. Times are integers rather than floats.
- Path aliasing: two spellings of the same file (`./a` and `a`, `x/../a`) are different keys, both on disk and in the registry.
- Logging and printing (`logDebug`, `logInfo`, `logMessage`, the up-to-date and unknown-target messages): output only.
- The `help` listing (tom.py:179-186): output only.
- The top-level loop over targets (tom.py:175-178, 192-195): the default target `main` is argument plumbing. Its `clean` and `build` branches are `Build.Clean` and `Build.Build`.
- Idempotence of a second build: the code does not guarantee it, because whether a command creates its target, and with what time, is up to the command.
- Build.Build: recursion is bounded by `fuel`, so the model ends with `OutOfFuel` where Python would recurse until its recursion limit.
