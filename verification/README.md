# gcc4aem: a Dafny model of the Closure Compiler script processor

GCC4AEM plugs Google's Closure Compiler into the AEM client-library
pipeline as a `ScriptProcessor`. This project models its core, the class
`GoogleClosureCompilerProcessor`:

- **Translate.** `translateAemGccOptions` turns the AEM option vocabulary
  (`failOnWarning`, `languageIn`, `languageOut`, `compilationLevel`, or a raw
  `-`-prefixed compiler flag) into Closure Compiler flags.
  `translateAemGccCompilationLevel` maps the level names.
  `populateDefaultParameters` merges the options over three defaults:
  `--compilation_level ADVANCED`, `--language_in ECMASCRIPT_NEXT` and
  `--language_out ECMASCRIPT5`.
- **Serialise.** `createGccCommandLineArguments` flattens the flag map into
  an argument vector. Each key is followed by its value when that value is
  not blank.
- **Decide.** `process` does the following:
  - it refuses every library kind but JavaScript;
  - it lets `shouldRunCompiler` veto the arguments;
  - it forces strict-mode input off unless `--strict_mode_input` was given;
  - it turns the compiler's error and warning counts into a result, a log
    tier and a single write of the compiled source.

The modules follow that structure:

- `JavaText` holds the `String` predicates the code relies on: `startsWith`,
  `equalsIgnoreCase` and `isBlank`.
- `ArgumentMap` is the `HashMap<String,String>` of flags. It is an
  insertion-ordered list with distinct keys. `put` overwrites in place or
  appends, and `ToMap` gives the map the list denotes.
- `OptionTranslator` holds the two translation tables and
  `populateDefaultParameters`.
- `CommandLine` holds `createGccCommandLineArguments`, together with a
  reference reader (`ParseArguments`) that it round-trips with for entries
  whose non-blank values do not start with `-`.
- `Processor` holds `handles` and `process`.

The caller's `opts` map is a sequence of (key, value) pairs, processed left
to right. When two options write the same flag, the later one wins. The
Closure Compiler is two parameters of `Process`:

- `shouldRunCompiler` is a predicate over the argument vector;
- `compile` maps a request to an error count, a warning count and the
  emitted source.

The `Writer` is the sequence of strings written, and the log is the tier
chosen.

Three behaviours of the code are easy to misread; the model follows the code:

- `failOnWarning` never produces a flag. Line 183 clears the flag after the
  value has been computed, so the option has no effect at all.
- The whitespace level is the literal `"WHITSPACE_ONLY"` (line 166).
- Raw flags have no precedence over translated keys. Both go through the
  same `put`, so the later option wins whichever kind it is.

## Model

| member | source | states |
|---|---|---|
| Processor.Handles | src/main/java/org/netartisan/sling/gcc4aem/GoogleClosureCompilerProcessor.java:150-152 | only JavaScript libraries are handled (used by `Process`'s contract and by `ProcessSeverity`) |
| OptionTranslator.TranslateOptionKey | src/main/java/org/netartisan/sling/gcc4aem/GoogleClosureCompilerProcessor.java:155-163 | a `-` key passes through unchanged; otherwise each of the four flags is produced exactly when the key equals its keyword ignoring case, and "" exactly when it matches none; the result is "" or a `-` flag |
| OptionTranslator.TranslateCompilationLevel | src/main/java/org/netartisan/sling/gcc4aem/GoogleClosureCompilerProcessor.java:164-169 | the result is always SIMPLE, WHITSPACE_ONLY or ADVANCED; WHITSPACE_ONLY exactly for "whitespace" and ADVANCED exactly for "advanced", ignoring case; "simple" and everything else give SIMPLE |
| OptionTranslator.CompilationLevelIgnoresCase | src/main/java/org/netartisan/sling/gcc4aem/GoogleClosureCompilerProcessor.java:164-169 | two level names equal up to case translate alike |
| OptionTranslator.Contribution | src/main/java/org/netartisan/sling/gcc4aem/GoogleClosureCompilerProcessor.java:177-187 | one loop iteration either skips its `put` or puts a key that starts with `-` |
| OptionTranslator.ContributionTable | src/main/java/org/netartisan/sling/gcc4aem/GoogleClosureCompilerProcessor.java:177-187 | an option puts something exactly when its key is a raw flag, `languageIn`, `languageOut` or `compilationLevel`; a raw flag stores its value under itself, the language keys store theirs unchanged, `compilationLevel` stores the translated level, and `failOnWarning` stores nothing |
| OptionTranslator.ContributionIgnoresKeyCase | src/main/java/org/netartisan/sling/gcc4aem/GoogleClosureCompilerProcessor.java:159-162 | option keywords differing only in case put the same flag and value |
| OptionTranslator.PopulateDefaultParameters | src/main/java/org/netartisan/sling/gcc4aem/GoogleClosureCompilerProcessor.java:171-190 | the result is a map (distinct keys) whose keys are exactly the three defaults plus the flags some option writes, so no default ever disappears |
| OptionTranslator.SeedIsThreePuts | src/main/java/org/netartisan/sling/gcc4aem/GoogleClosureCompilerProcessor.java:172-175 | the seeded entry list is exactly what the three `put`s into a fresh map build, in that order |
| OptionTranslator.PopulateNoOptions | src/main/java/org/netartisan/sling/gcc4aem/GoogleClosureCompilerProcessor.java:172-175 | with no options the map is exactly the three defaults |
| OptionTranslator.PopulateKeysAreFlags | src/main/java/org/netartisan/sling/gcc4aem/GoogleClosureCompilerProcessor.java:171-190 | every key of the map starts with `-` |
| OptionTranslator.WrittenFlagsMeaning | src/main/java/org/netartisan/sling/gcc4aem/GoogleClosureCompilerProcessor.java:176-188 | a flag is among the written flags exactly when some option writes it |
| OptionTranslator.PopulateLastWriteWins | src/main/java/org/netartisan/sling/gcc4aem/GoogleClosureCompilerProcessor.java:176-188 | a flag holds the value put by the last option that writes it |
| OptionTranslator.PopulateUnwrittenKeepsDefault | src/main/java/org/netartisan/sling/gcc4aem/GoogleClosureCompilerProcessor.java:172-188 | a flag no option writes looks up exactly as in the seeded map: present, with its default value, exactly when it is one of the three defaults |
| OptionTranslator.PopulateIgnoresSilentOption | src/main/java/org/netartisan/sling/gcc4aem/GoogleClosureCompilerProcessor.java:159-162 | removing an option with an unrecognised key from anywhere in the sequence leaves the result unchanged |
| OptionTranslator.FailOnWarningHasNoEffect | src/main/java/org/netartisan/sling/gcc4aem/GoogleClosureCompilerProcessor.java:181-186 | removing a `failOnWarning` option, whatever its value, leaves the result unchanged |
| OptionTranslator.PopulateRawFlags | src/main/java/org/netartisan/sling/gcc4aem/GoogleClosureCompilerProcessor.java:156-158 | options that are all raw flags give the defaults overridden by the options' own map |
| OptionTranslator.RawFlagsReplaceDefaults | src/test/java/org/netartisan/sling/gcc4aem/Gcc4AemTests.java:115-118 | the test's three raw flags replace all three defaults, with their values untouched |
| OptionTranslator.NoPrecedenceBetweenKeyKinds | src/main/java/org/netartisan/sling/gcc4aem/GoogleClosureCompilerProcessor.java:176-188 | `languageIn` and `--language_in` compete on equal terms: in either order, the later one decides the flag |
| ArgumentMap.Put | src/main/java/org/netartisan/sling/gcc4aem/GoogleClosureCompilerProcessor.java:186 | `put` replaces the value of a present key where it stands, and otherwise appends the new entry at the end |
| ArgumentMap.PutKeys | src/main/java/org/netartisan/sling/gcc4aem/GoogleClosureCompilerProcessor.java:186 | `put` adds its key to the key set and nothing else |
| ArgumentMap.PutDistinct | src/main/java/org/netartisan/sling/gcc4aem/GoogleClosureCompilerProcessor.java:186 | `put` keeps keys distinct |
| ArgumentMap.PutDenotes | src/main/java/org/netartisan/sling/gcc4aem/GoogleClosureCompilerProcessor.java:186 | the map after `put(k, v)` is the map before, updated at `k` only |
| CommandLine.CreateArguments | src/main/java/org/netartisan/sling/gcc4aem/GoogleClosureCompilerProcessor.java:192-199 | the vector has one token per entry plus one per non-blank value, and starts with the first key |
| CommandLine.CreateSingle | src/main/java/org/netartisan/sling/gcc4aem/GoogleClosureCompilerProcessor.java:195-196 | one entry gives its key, then its value exactly when the value is not blank, whatever the value looks like |
| CommandLine.CreateAppend | src/main/java/org/netartisan/sling/gcc4aem/GoogleClosureCompilerProcessor.java:194-197 | the vector of a concatenation of entries is the concatenation of their vectors, for all entries; with `CreateSingle` this fixes the content and order of every vector |
| CommandLine.ParseCreateRoundTrip | src/main/java/org/netartisan/sling/gcc4aem/GoogleClosureCompilerProcessor.java:192-199 | reading the vector back as flag-then-value yields the entries in order, keys exact, with blank values dropped; this holds whenever keys are flags and non-blank values are not |
| CommandLine.CreateMentionsEveryKey | src/main/java/org/netartisan/sling/gcc4aem/GoogleClosureCompilerProcessor.java:194-195 | every key appears in the vector |
| CommandLine.CreateOmitsStrangers | src/main/java/org/netartisan/sling/gcc4aem/GoogleClosureCompilerProcessor.java:194-197 | nothing but keys and values appears in the vector |
| CommandLine.CreateKeyOnce | src/main/java/org/netartisan/sling/gcc4aem/GoogleClosureCompilerProcessor.java:192-199 | in a map, a key that is no entry's value appears in the vector exactly once; the condition is needed, because a value equal to another entry's key is emitted as well (see `ValueEqualToKeyRepeats`) |
| CommandLine.ValueEqualToKeyRepeats | src/main/java/org/netartisan/sling/gcc4aem/GoogleClosureCompilerProcessor.java:192-199 | the entries `--a`→`--b` and `--b`→"" serialise to `--a --b --b`, so a key can appear twice when some value equals it |
| Processor.Process | src/main/java/org/netartisan/sling/gcc4aem/GoogleClosureCompilerProcessor.java:201-242 | for a non-JS kind: false, nothing written, nothing translated or compiled. For JS: the gate sees the serialised flag map, and the compiler runs exactly when the gate passes. A refusal gives false, no write and the "Invalid parameters" tier. After a compile: success exactly when there are no errors; the output is written once on success and never otherwise; strict-mode input is forced off exactly when the map lacks `--strict_mode_input`; the tier is determined by both counts |
| Processor.ProcessSeesOnlyFlagMap | src/main/java/org/netartisan/sling/gcc4aem/GoogleClosureCompilerProcessor.java:205-206 | the options reach `process`'s behaviour only through the flag map built from them |
| Processor.WarningsNeverDecideSuccess | src/main/java/org/netartisan/sling/gcc4aem/GoogleClosureCompilerProcessor.java:219-234 | compilers that differ only in warnings give the same result, the same writes and the same compiler run |
| Processor.FailOnWarningNeverChangesProcess | src/main/java/org/netartisan/sling/gcc4aem/GoogleClosureCompilerProcessor.java:181-183 | adding a `failOnWarning` option changes nothing `process` does |
| Processor.StrictModeForcedOffUnlessRequested | src/main/java/org/netartisan/sling/gcc4aem/GoogleClosureCompilerProcessor.java:212 | strict-mode input is forced off exactly when no option writes `--strict_mode_input` |
| Processor.ProcessSeverity | src/main/java/org/netartisan/sling/gcc4aem/GoogleClosureCompilerProcessor.java:219-239 | an unhandled kind is logged at debug, below every outcome for a script; a failed script is logged at error, and a successful one at warn or info |
| JavaText.EqualsIgnoreCaseEquivalence | src/main/java/org/netartisan/sling/gcc4aem/GoogleClosureCompilerProcessor.java:159-167 | case-insensitive comparison, as used by both tables, is reflexive, symmetric and transitive |
| JavaText.DashStartedNotBlank | src/main/java/org/netartisan/sling/gcc4aem/GoogleClosureCompilerProcessor.java:156-158 | a raw flag is never blank, so a raw key's `put` is never skipped |

## Left out

- `src/main/java/org/netartisan/sling/datafileguard/DataFileGuard.java`, entirely. It is a repository walk behind an administrative login, with mutable counters and log-only output, and it promises no checkable result.
- The OSGi lifecycle and configuration: `activate`, `modified`, `deactivate`, the `Config` annotation, and `getName`'s read of `overridemingcc`. This is framework wiring over mutable service state.
- The Closure Compiler itself: `CommandLineRunner`, `createOptions`, `createCompiler`, `getBuiltinExterns`, `compile`, `toSource` and `ErrorManager`. It is a foreign library. `Process` takes the `shouldRunCompiler` verdict and the compile result as function parameters, so nothing is claimed about what the compiler does with the arguments.
- Reading the script and writing the result are I/O. The script arrives as its name and text. The writer is the sequence of strings written. An `IOException` is not modelled.
- The text of the log messages. Only the tier chosen, and the slf4j level it is logged at, is modelled.
- The enumeration order of Java's `HashMap`. It is unspecified. The caller's options are a sequence, and the flag map is enumerated in insertion order. Nothing is claimed about which of a raw flag and a translated key wins when they meet in a real `HashMap`; only "the later one in the enumeration" is.
- Null keys and values in the option map; the model's strings are never null. In Java a null key throws at `startsWith` (line 156). A null value under a raw flag, `languageIn` or `languageOut` is put into the flag map and then throws at `isBlank` (line 196), unless a later option puts a non-null value under the same flag, which replaces it before line 196 reads it. Under `compilationLevel` a null value translates to `SIMPLE`, because no `equalsIgnoreCase` at lines 165-167 matches null. Under `failOnWarning` or an unrecognised key nothing is put, so nothing throws.
- JavaText.EqualsIgnoreCase: only ASCII letters are case-folded. Java also matches some non-ASCII characters against the keywords, for example U+0131 DOTLESS I and U+0130 CAPITAL I WITH DOT against the `i` of `failOnWarning`, `languageIn`, `compilationLevel`, `simple` and `whitespace`, and U+017F LONG S against `s`. Such keys and level names are not recognised by the model.
- CommandLine.ParseArguments is a reference reader of the flag-then-value form, against which the serialisation is checked. It is not the compiler's own argument parser.
