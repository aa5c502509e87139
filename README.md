# minet glue code, modelled and verified in Dafny

This project models four parts of minet, the web-mining toolkit, and proves
properties of the models:

- the `hyphe declare` action (`minet/cli/hyphe/declare.py`). It reads the
  headers of a Hyphe web-entities export, finds the required columns and the
  `(TAGS)` columns, and derives what is declared for each row. Rows whose
  prefixes contain `h:localhost|` are dropped. The prefixes and the start
  pages are split on spaces, only the start pages are deduplicated, and
  the tags are extracted. A row short of a cell the loop reads ends the
  action with `IndexError`; the rows before it have been declared by
  then. Module
  `HypheDeclare`, file `hyphe_declare.dfy`.
- the command-line helpers (`minet/cli/argparse.py`). These are the
  separator splitter, the `--no-*` boolean action, the environment
  variable of a configuration key, resolving a configured value from the
  environment or the `.minetrc` configuration, and the help text and
  default of configurable options. They also include the output-file
  action and the rewriting of the parsed arguments by
  `resolve_arg_dependencies`. The namespace object is a class whose
  attributes the actions and the resolution loop update in place. Module
  `CliArgparse`, file `argparse.dfy`.
- the CrowdTangle link summary (`minet/crowdtangle/summary.py`). This is
  the request URL, with the link percent-encoded as `quote(link, safe='')`
  does. It also covers the argument guards, the HTTP status checks, and the
  loop that yields one result per item. Module `CrowdTangleSummary`, file
  `crowdtangle_summary.dfy`.
- the scrape error taxonomy (`minet/scrape/exceptions.py`). The class
  hierarchy is written twice: once as the table of declared base classes,
  and once as a datatype whose variants carry the attributes each
  constructor stores. Lemmas connect the two. Module `ScrapeExceptions`,
  file `scrape_exceptions.dfy`.

Supporting modules:

- `Wrappers` (`wrappers.dfy`): `Option` and `Result`.
- `PyStr` (`pystr.dfy`): the Python string operations the code relies on
  (`split`, `join`, `count`, `strip`, `rstrip`, `upper`, `startswith`,
  `endswith`, `in`), restricted to ASCII.
- `MinetUtils` (`minet_utils.dfy`): JSON-like values and `nested_get`.

`minet/utils.py` (`nested_get`), `minet/crowdtangle/formatters.py`,
`minet/crowdtangle/constants.py` and the casanova CSV reader are not part
of this model. `nested_get` is modelled as a walk through nested
dictionaries that falls back to the default. The formatters and the
constant sets are parameters.

The hierarchy does not split into "specification errors" and "runtime
errors" along the names of its classes. `CSSSelectorTooComplex` derives
directly from `ScrapeError`, not from `ScraperRuntimeError`. The
validation errors and `InvalidCSSSelectorError` are runtime errors. The
model follows the class statements.

## Model

| member | source | states |
|---|---|---|
| HypheDeclare.Lookup | minet/cli/hyphe/declare.py:35-39 | `headers.get(name)`: a found column belongs to a header with that name; nothing is found exactly when no header has that name |
| HypheDeclare.TagColumns | minet/cli/hyphe/declare.py:41-45 | the `(TAGS)` column list, header by header; its contents are stated by TagColumnsMembers and its order by TagColumnsAppend |
| HypheDeclare.TagColumnOf | minet/cli/hyphe/declare.py:41-45 | a header yields a tag column exactly when its name ends with `(TAGS)`, and yields at most one |
| HypheDeclare.TagColumnsMembers | minet/cli/hyphe/declare.py:41-45 | a pair is in the tag-column list exactly when some header ending in `(TAGS)` yields it: its stripped tag name and its column |
| HypheDeclare.TagColumnsAppend | minet/cli/hyphe/declare.py:41-45 | the comprehension keeps header order: the columns of two runs of headers are the first run's columns followed by the second's |
| HypheDeclare.TagNameShape | minet/cli/hyphe/declare.py:42 | the tag name is the stripped text before the first `(TAGS)`; that text plus `(TAGS)` starts the header, and the text holds no `(TAGS)` of its own |
| HypheDeclare.RequiredPositions | minet/cli/hyphe/declare.py:35-56 | `InvalidArgumentsError("input csv file is not a valid hyphe webentities export")` exactly when one of NAME, HOME PAGE, PREFIXES AS LRU, STATUS, START PAGES is missing; otherwise the five looked-up columns |
| HypheDeclare.TagsOf | minet/cli/hyphe/declare.py:16-28 | the tags of a row, column by column; what a tag holds is stated by TagsOfKeys, TagsOfLastWins and TagValuesRestoreCell |
| HypheDeclare.ExtractTags | minet/cli/hyphe/declare.py:16-28 | the loop returns a map whose only key is `USER`, bound to the tags the columns fold into |
| HypheDeclare.TagsOfKeys | minet/cli/hyphe/declare.py:19-26 | a tag is present exactly when some column of that name has a non-empty cell; an empty cell contributes no entry |
| HypheDeclare.TagsOfLastWins | minet/cli/hyphe/declare.py:19-26 | of the same-named columns, the last with a non-empty cell sets the tag, to that cell's pieces between pipe characters |
| HypheDeclare.TagValuesRestoreCell | minet/cli/hyphe/declare.py:26 | joining a tag's values with the pipe character gives back the non-empty cell of one of its columns |
| HypheDeclare.StartPages | minet/cli/hyphe/declare.py:92-93 | an empty cell gives no start page; otherwise the result has no duplicates and the same elements as the cell split on spaces |
| HypheDeclare.RowDeclaration | minet/cli/hyphe/declare.py:81-101 | one row's outcome: dropped, a declaration, or `IndexError`; stated by RowDeclarationOutcome and FullRowDeclares |
| HypheDeclare.RowDeclarationOutcome | minet/cli/hyphe/declare.py:81-101 | a row fails only with `IndexError`, exactly when the start-page, name or prefixes cell is missing, or the row is kept and its home-page, status or a tag cell is missing; it is dropped exactly when its three early cells exist and the prefixes contain `h:localhost|` |
| HypheDeclare.FullRowDeclares | minet/cli/hyphe/declare.py:81-101 | a row with a cell under every header never fails |
| HypheDeclare.DeclareRow | minet/cli/hyphe/declare.py:81-101 | the row body, reading cells in the order of the source, computes the row's outcome: `IndexError` for a missing cell, nothing for a localhost row, else the split prefixes, name, status, deduplicated start pages, tags and home page |
| HypheDeclare.Declared | minet/cli/hyphe/declare.py:78-101 | the declarations sent for a run of rows and the error that ends it, if any; stated by DeclaredStep, DeclaredStopsAtError, DeclaredOkIff, SentBeforeError and DeclaredHasNoLocalhost |
| HypheDeclare.DeclareWebEntities | minet/cli/hyphe/declare.py:31-105 | for any headers and rows: sends nothing and fails with `InvalidArgumentsError` exactly when the header check fails; otherwise sends the declarations of the kept rows in row order, up to the first short row, which ends it with `IndexError`; every Hyphe call is taken to succeed |
| HypheDeclare.DeclareRows | minet/cli/hyphe/declare.py:78-101 | the row loop sends exactly the declarations of the rows and ends with the first row's error, if any |
| HypheDeclare.DeclaredNext | minet/cli/hyphe/declare.py:78-101 | one loop step: a failing row ends the whole run with the declarations sent so far; a dropped row leaves them as they were; a kept row's declaration follows the earlier ones |
| HypheDeclare.DeclaredStep | minet/cli/hyphe/declare.py:78-101 | after an error a row changes nothing; a short row adds the `IndexError` and keeps what was sent; a dropped row adds no declaration; any other row adds exactly its own declaration at the end |
| HypheDeclare.DeclaredStopsAtError | minet/cli/hyphe/declare.py:78-101 | once a leading run of rows fails, the whole run ends the same way, with nothing more sent |
| HypheDeclare.DeclaredOkIff | minet/cli/hyphe/declare.py:78-101 | the rows end without error exactly when no row fails on its own; the only error is `IndexError` |
| HypheDeclare.SentBeforeError | minet/cli/hyphe/declare.py:78-101 | when row j is the first short row, the action ends with `IndexError` having sent exactly the declarations of the rows before j |
| HypheDeclare.FullRowsDeclare | minet/cli/hyphe/declare.py:78-101 | rows with a cell under every header end without error |
| HypheDeclare.PrefixesFree | minet/cli/hyphe/declare.py:86-91 | a piece of a prefixes cell free of the localhost marker (`h:localhost` followed by a pipe) is free of it too |
| HypheDeclare.DeclaredHasNoLocalhost | minet/cli/hyphe/declare.py:86-91 | no sent prefix contains the localhost marker, whether or not the run ends with an error |
| CliArgparse.Splitter.Call | minet/cli/argparse.py:21-26 | `ValueError` exactly for an empty separator; otherwise the pieces join back to the input, number the separator count plus one, contain no separator, and each cut is at the leftmost separator of what remains |
| CliArgparse.DefaultSplitterRoundTrip | minet/cli/argparse.py:22-26 | the default separator is `,`, and comma-free values joined with commas split back into the same list |
| CliArgparse.BooleanValue | minet/cli/argparse.py:39 | the value the boolean action stores; stated by BooleanFlagPair and BooleanPrefixRule |
| CliArgparse.BooleanFlagPair | minet/cli/argparse.py:38-39 | for a flag `x` not starting with `no`, `--x` stores True and `--no-x` stores False |
| CliArgparse.BooleanPrefixRule | minet/cli/argparse.py:39 | False is stored exactly when the first four characters are `--no`, so `--notify` also stores False |
| CliArgparse.BooleanAction.Call | minet/cli/argparse.py:35-39 | sets only the destination attribute, to that rule's value |
| CliArgparse.EnvVar | minet/cli/argparse.py:108-109 | `rc_key_to_env_var`; stated by EnvVarShape and EnvVarTokens |
| CliArgparse.EnvVarShape | minet/cli/argparse.py:108-109 | the variable name starts with `MINET_` and holds no lower-case ASCII letter |
| CliArgparse.EnvVarTokens | minet/cli/argparse.py:108-109 | for tokens without `_`, the name after `MINET_` splits on `_` into exactly the upper-cased tokens |
| CliArgparse.ParseInt | minet/cli/argparse.py:125 | `int(value)` succeeds exactly on an optional sign followed by ASCII decimal digits |
| CliArgparse.ParseShowInt | minet/cli/argparse.py:125 | `int(str(n)) == n` for every integer |
| CliArgparse.Convert | minet/cli/argparse.py:125 | `self.type(value)` for `str`, `int` and `SplitterType`; its parts are stated by ParseInt, ParseShowInt and Splitter.Call |
| CliArgparse.WrappedValue.Resolve | minet/cli/argparse.py:118-127 | a non-blank stripped environment value is converted by the type; otherwise the nested configuration lookup, with the default |
| CliArgparse.ResolveBlankIsUnset | minet/cli/argparse.py:122-127 | a whitespace-only environment value resolves as if the variable were unset, to the configuration lookup |
| CliArgparse.ResolveEnvOverridesConfig | minet/cli/argparse.py:121-125 | with a non-blank environment value the configuration does not matter |
| CliArgparse.ConfigHelp | minet/cli/argparse.py:133-136 | the rewritten help text; stated by ConfigHelpShape |
| CliArgparse.ConfigHelpShape | minet/cli/argparse.py:132-136 | the new help is the old one without its trailing periods, then `. `, then the sentence naming the dotted key and the variable, with nothing else in between (its length is the sum of the three) |
| CliArgparse.NewConfigAction | minet/cli/argparse.py:131-147 | help is rewritten only when given; the default wraps the key, the given default, and the `type` keyword or `str` |
| CliArgparse.ConfigAction.Call | minet/cli/argparse.py:149-150 | stores the parsed value in the destination attribute and changes nothing else |
| CliArgparse.Namespace.SetAttr | minet/cli/argparse.py:150 | `setattr`: one attribute gets the value; a new name joins the attribute order at the end; no other attribute changes |
| CliArgparse.OpenOutput | minet/cli/argparse.py:82-90 | standard output exactly when there is no path; otherwise the path, appended to exactly when resuming |
| CliArgparse.NewOutputFileAction | minet/cli/argparse.py:93-101 | the default is an opener without a path |
| CliArgparse.OutputOpenerTargets | minet/cli/argparse.py:79-99 | with no `-o`, the default opener opens standard output; `-o path` opens the path, in append mode exactly when resuming |
| CliArgparse.OutputFileAction.Call | minet/cli/argparse.py:103-105 | the destination gets an opener for the path and `output_is_file` becomes True; nothing else changes |
| CliArgparse.DefaultOutputIsFile | minet/cli/argparse.py:156-157 | `output_is_file` is added as False only when `output` is present and `output_is_file` is not; otherwise nothing changes |
| CliArgparse.SettleValue | minet/cli/argparse.py:160-169 | a wrapped value becomes the configuration value its resolution gives, and fails exactly when that resolution fails, with its error; an opener becomes the target it opens under the given resume flag; any other value stays as it is |
| CliArgparse.ResolveStep | minet/cli/argparse.py:159-169 | one iteration replaces only the visited attribute, by what SettleValue makes of it under the namespace's `resume`; it fails exactly when that fails, which needs a wrapped value, with the resolution's error |
| CliArgparse.ResolveAll | minet/cli/argparse.py:159-169 | a successful loop keeps the set of attribute names; the values it leaves are stated by ResolveAllVisited, ResolveAllAt and ResolveAllResolves |
| CliArgparse.ResolveAllSettles | minet/cli/argparse.py:159-169 | after a successful loop, no visited attribute is still wrapped or unopened |
| CliArgparse.ResolveAllKeepsPlain | minet/cli/argparse.py:159-169 | the loop leaves every attribute that is neither wrapped nor an opener as it was |
| CliArgparse.ResolveAllUnvisited | minet/cli/argparse.py:159-169 | an attribute the loop does not visit keeps its value |
| CliArgparse.ResolveAllVisited | minet/cli/argparse.py:159-169 | with distinct names, a successful loop leaves each visited attribute as SettleValue makes it under the `resume` value held when it is reached |
| CliArgparse.ResolveAllAt | minet/cli/argparse.py:159-169 | with distinct names, after a successful loop a visited wrapped value is the configuration value its resolution gives; when `resume` is a plain value, a visited opener is the target it opens under the original `resume` |
| CliArgparse.ResolveAllResolves | minet/cli/argparse.py:159-169 | the same two facts for every visited attribute at once |
| CliArgparse.ResolveAllStopsAtError | minet/cli/argparse.py:164 | a conversion error propagates: once a prefix of the names fails, the whole loop fails with that error |
| CliArgparse.VisitAttr | minet/cli/argparse.py:160-169 | one loop iteration on the namespace performs exactly the step; after an error the attributes are unchanged |
| CliArgparse.ResolveAttrs | minet/cli/argparse.py:159-169 | the loop over the namespace in attribute order succeeds exactly when the fold does, with its result; on error, the attributes are those of the prefix before the failing one |
| CliArgparse.OutputIsFileKept | minet/cli/argparse.py:105-169 | an `output_is_file` flag already set, True by `-o` or otherwise, survives the defaulting and the loop |
| CliArgparse.ResolveArgDependencies | minet/cli/argparse.py:153-169 | the defaulting, then the attribute loop under the given environment and configuration; the attribute order gains only `output_is_file` |
| CrowdTangleSummary.Utf8Char | minet/crowdtangle/summary.py:47 | one to four bytes, by code-point range; an ASCII character is its own byte; a longer encoding starts with a lead byte for its length (0xC2-0xDF, 0xE0-0xEF, 0xF0-0xF4) and goes on with continuation bytes 0x80-0xBF |
| CrowdTangleSummary.Utf8Decode | minet/crowdtangle/summary.py:47 | strict UTF-8 decoding, the inverse the encoding is checked against; stated by Utf8RoundTrip, Utf8DecodeEncodes and OverlongRejected |
| CrowdTangleSummary.Utf8DecodeCharOf | minet/crowdtangle/summary.py:47 | decoding reads back the character an encoding starts with, and how many bytes it took |
| CrowdTangleSummary.Utf8RoundTrip | minet/crowdtangle/summary.py:47 | decoding the UTF-8 encoding of a text gives the text back |
| CrowdTangleSummary.Utf8DecodeCharCanonical | minet/crowdtangle/summary.py:47 | the bytes a character is decoded from are exactly its encoding, so overlong forms are not accepted |
| CrowdTangleSummary.Utf8DecodeEncodes | minet/crowdtangle/summary.py:47 | a decoded text encodes back to the bytes it came from |
| CrowdTangleSummary.OverlongRejected | minet/crowdtangle/summary.py:47 | the overlong form `C0 80` of U+0000 does not decode |
| CrowdTangleSummary.Utf8Injective | minet/crowdtangle/summary.py:47 | two texts with the same encoding are equal |
| CrowdTangleSummary.Quote | minet/crowdtangle/summary.py:47 | `quote(link, safe='')`; stated by UnquoteQuote, QuoteDecodes, QuoteBytesAlphabet, QuoteHasNoDelimiters and QuoteUnreserved |
| CrowdTangleSummary.QuoteByte | minet/crowdtangle/summary.py:47 | an unreserved byte stays itself; any other byte becomes a three-character `%` escape |
| CrowdTangleSummary.UnquoteQuoteBytes | minet/crowdtangle/summary.py:47 | percent-decoding the quoted bytes gives the bytes back |
| CrowdTangleSummary.UnquoteQuote | minet/crowdtangle/summary.py:47 | percent-decoding the quoted link gives back the link's UTF-8 bytes |
| CrowdTangleSummary.QuoteDecodes | minet/crowdtangle/summary.py:47 | the quoted link determines the link: percent-decoding and then UTF-8 decoding it gives the link back |
| CrowdTangleSummary.QuoteBytesAlphabet | minet/crowdtangle/summary.py:47 | every character of the quoted text is unreserved or `%` |
| CrowdTangleSummary.QuoteHasNoDelimiters | minet/crowdtangle/summary.py:47 | `/`, `&`, `=`, `?` and `#` never appear in the quoted link |
| CrowdTangleSummary.QuoteUnreserved | minet/crowdtangle/summary.py:47 | a link of unreserved characters only is left as it is |
| CrowdTangleSummary.ForgeUrl | minet/crowdtangle/summary.py:31-49 | `forge_url`; stated by ForgeUrlQuery and ForgeUrlLink |
| CrowdTangleSummary.ForgeUrlQuery | minet/crowdtangle/summary.py:31-49 | the URL starts with the links endpoint and `?`; for `&`-free token, date and sort key, the query splits on `&` into the six parameters in template order, all but count and link verbatim |
| CrowdTangleSummary.ForgeUrlLink | minet/crowdtangle/summary.py:42-49 | there are six parameters; the second is `count=100` with posts and `count=1` without; the fifth starts `link=` and percent-decodes to the link's UTF-8 bytes |
| CrowdTangleSummary.CheckArguments | minet/crowdtangle/summary.py:56-66 | no error exactly when the token is given, the format is known, the start date is a string and the sort key is known; a missing token comes first, then the unknown format |
| CrowdTangleSummary.GuardOrder | minet/crowdtangle/summary.py:59-66 | the `start_date` and `sort_by` errors are reported only when every earlier guard passes |
| CrowdTangleSummary.ClassifyStatus | minet/crowdtangle/summary.py:93-97 | 401 exactly gives an invalid token; any other status of at least 400 exactly gives an invalid request for the URL; a status below 400 passes |
| CrowdTangleSummary.LinkOf | minet/crowdtangle/summary.py:72-75 | `key(item)` when a key is given, otherwise the item itself; a non-string item without a key is a `TypeError` |
| CrowdTangleSummary.SummaryStep | minet/crowdtangle/summary.py:72-118 | one item's request, status check and result; stated by SummaryStepShape |
| CrowdTangleSummary.SummaryStepShape | minet/crowdtangle/summary.py:72-118 | a result has posts exactly when asked for, carries its item and link; 401 and other error statuses map to their exceptions |
| CrowdTangleSummary.SummaryRun | minet/crowdtangle/summary.py:71-118 | the loop's results and the error that stops it; stated by SummaryRunAllOk, SummaryRunFirstError, SummaryRunResults and SummaryRunStops |
| CrowdTangleSummary.SummaryRunResults | minet/crowdtangle/summary.py:71-118 | at most one result per item, in item order, each of the requested shape; without an error, exactly one per item |
| CrowdTangleSummary.SummaryRunAllOk | minet/crowdtangle/summary.py:71-118 | when no item fails, the k-th result is item k's own result, one per item, and there is no error |
| CrowdTangleSummary.SummaryRunFirstError | minet/crowdtangle/summary.py:71-118 | when item j is the first to fail, the results are exactly those of items 0 to j-1, in order, and the error is item j's own error |
| CrowdTangleSummary.SummaryRunStops | minet/crowdtangle/summary.py:88-97 | once an item raises, later items yield nothing |
| CrowdTangleSummary.CrowdTangleSummaryRun | minet/crowdtangle/summary.py:52-118 | a failing guard yields nothing and raises that guard's error; otherwise the loop yields exactly the per-item results up to the first error |
| ScrapeExceptions.Base | minet/scrape/exceptions.py:8-80 | the declared bases form no cycle, and only `ScrapeError` has no base in the file |
| ScrapeExceptions.Construct | minet/scrape/exceptions.py:8-80 | construction succeeds exactly when every keyword is accepted, and the error is then of the requested class and keeps its message; otherwise it fails with the non-empty set of rejected keywords, a set the model keeps in place of Python's message |
| ScrapeExceptions.RuntimeIffSubclass | minet/scrape/exceptions.py:22-80 | an error is a `ScraperRuntimeError` subclass exactly when it carries the reason, expression and path payload |
| ScrapeExceptions.AllAreScrapeErrors | minet/scrape/exceptions.py:8-80 | every class of the file is a `ScrapeError` |
| ScrapeExceptions.RuntimeKeywords | minet/scrape/exceptions.py:22-76 | exactly the runtime-error subclasses accept `reason`, `expression` and `path` |
| ScrapeExceptions.Classification | minet/scrape/exceptions.py:12-80 | `InvalidScraperError` and `CSSSelectorTooComplex` are not runtime errors; the latter derives from `ScrapeError`; the validation, CSS selector, table and eval errors are runtime errors |
| ScrapeExceptions.Defaults | minet/scrape/exceptions.py:13-76 | with no keyword, the reason, expression, path, expected, got and modifier are None, and validation errors and keys are empty lists |
| ScrapeExceptions.RuntimeStoresArguments | minet/scrape/exceptions.py:22-76 | a runtime error stores the reason, expression and path it was given; `ScraperEvalTypeError` also stores expected and got, `ScraperValidationConflictError` its keys, and the two plural-modifier errors their modifier; a keyword not given takes its default |
| ScrapeExceptions.InvalidScraperStoresErrors | minet/scrape/exceptions.py:12-15 | `InvalidScraperError` stores the `validation_errors` it was given, and an empty list when none is |
| MinetUtils.NestedGetNest | minet/crowdtangle/summary.py:99-100 | a value stored along a path of dictionaries is found along it, whatever the default |
| MinetUtils.NestedGetFollows | minet/cli/argparse.py:127 | a lookup gives the default or a value actually reached along the whole path |
| PyStr.Join | minet/cli/argparse.py:109 | `sep.join(xs)`; stated with Split by JoinSplit and SplitJoin |
| PyStr.Split | minet/cli/argparse.py:26 | `s.split(sep)`; stated by JoinSplit, SplitCount, SplitLeftmost and SplitJoin |
| PyStr.Count | minet/cli/argparse.py:26 | `s.count(sep)`, non-overlapping matches from the left; stated by SplitCount |
| PyStr.JoinSplit | minet/cli/argparse.py:26 | joining the pieces of `s.split(sep)` with `sep` gives back `s` |
| PyStr.SplitCount | minet/cli/argparse.py:26 | `s.split(sep)` has `s.count(sep) + 1` pieces |
| PyStr.SplitLeftmost | minet/cli/argparse.py:26 | each cut is at the leftmost occurrence: the text that remains from piece k on has its first separator right after piece k, which fixes the split even for a separator that overlaps itself |
| PyStr.SplitJoin | minet/cli/hyphe/declare.py:26 | pieces without a one-character separator, joined with it, split back into the same pieces |
| PyStr.BeforeFirst | minet/cli/hyphe/declare.py:42 | `s.split(p, 1)[0]` is all of `s` when `p` does not occur; otherwise it is followed in `s` by `p` and does not contain `p` |
| PyStr.Strip | minet/cli/argparse.py:122 | `strip()`; stated by StripShape, StripEnds and StripEmptyIff |
| PyStr.StripShape | minet/cli/argparse.py:122 | `strip()` keeps one contiguous part, starting after the leading whitespace, and removes only whitespace around it |
| PyStr.StripEnds | minet/cli/argparse.py:122 | the stripped text neither starts nor ends with whitespace |
| PyStr.StripEmptyIff | minet/cli/argparse.py:122 | a text strips to the empty text exactly when it is all whitespace |
| PyStr.RStripChar | minet/cli/argparse.py:133 | `rstrip('.')` is a prefix followed only by periods, and does not end with a period |
| PyStr.Upper | minet/cli/argparse.py:109 | `upper()` keeps the length, maps each character, and leaves no lower-case ASCII letter |
| PyStr.Dedupe | minet/cli/hyphe/declare.py:93 | `list(set(xs))` has no duplicates and the same elements as `xs` |

## Left out

- The Hyphe API calls are not modelled: the client, `ensure_is_started`,
  the password failure, `store.declare_webentity_by_lrus` and
  `store.set_webentity_homepage`. They are remote calls. A declaration is
  the arguments the action would send, so its home page is the raw cell:
  the `unquote` of line 117 belongs to the remote call. The "belong"
  error handling depends on remote answers.
- HypheDeclare.DeclareWebEntities: every remote call is taken to succeed.
  An error returned at lines 107-108 or 127-128 of
  `minet/cli/hyphe/declare.py`, or a `HypheRequestFailError` without
  "belong" re-raised at lines 124-125, would end the loop after that row;
  the model does not have these endings.
- The casanova reader, the loading bar and `die` are CSV and terminal I/O.
  Rows are sequences of cells, and headers are the ordered list of
  (name, column) pairs.
- HypheDeclare.Lookup: `headers.get(name)` is modelled as the first header
  of that name, while TagColumns lists every `(TAGS)` header, repeated
  names included. How casanova itself treats repeated header names is not
  part of this model.
- PyStr.Dedupe: Python's `list(set(xs))` order is hash order. The model
  keeps first occurrences, and contracts state only "no duplicates, same
  elements".
- `InputFileAction` is not modelled, because it is stdin, `isatty` and
  file opening.
- CliArgparse.OpenOutput: it chooses the target (standard output, or the
  path with write or append mode). It does not open a file, so an
  `OSError` is not modelled. The list of buffers to close that
  `resolve_arg_dependencies` returns is not modelled either.
- CliArgparse.Convert: argument types are limited to three. `str` is the
  default of line 144 and `SplitterType` is defined at lines 21-26. `int`
  is not named in `argparse.py`; it stands for the `type=int` that callers
  pass. Other types callers may pass are not modelled.
- CliArgparse.ParseInt: it accepts only the ASCII digits `0`-`9`. It
  rejects non-ASCII decimal digits (such as `٣` or `３`), underscores
  between digits and surrounding whitespace, all of which Python's `int`
  accepts. The value it
  receives is already stripped.
- PyStr.Upper: `upper()` is restricted to ASCII letters. `quote` is not
  restricted: it encodes every character as UTF-8.
- PyStr.Strip: `strip()` removes only the ASCII whitespace Python
  recognises. Python also strips non-ASCII whitespace such as U+0085,
  U+00A0 and U+2000-U+200A, which the model keeps.
- `BooleanAction.__init__` forces `nargs=0`. Argparse's own parsing is
  not part of this model. The model starts from the call an action
  receives.
- CrowdTangleSummary.CrowdTangleSummaryRun: the HTTP pool, the rate
  limiter and the timeout are left out. `request_json` is the parameter
  `fetch`, which returns a transport failure or a status with a decoded
  body. A failure is raised as `RequestError`.
- CrowdTangleSummary.CrowdTangleSummaryRun: `crowdtangle_summary` is a
  generator, so in Python its guards run only at the first `next()`, and
  results are produced one by one at lines 109 and 118. The model runs
  the guards when it is called and returns the results as one list.
- `format_summary` and `format_post` are parameters. The
  `CROWDTANGLE_OUTPUT_FORMATS` and `CROWDTANGLE_SUMMARY_SORT_TYPES`
  constant sets are parameters too.
- CrowdTangleSummary.FormatPosts: posts are formatted one by one only
  when they are a list. A non-list, non-None `posts` value would make
  Python's comprehension iterate over it, and the model keeps it as it is
  instead.
- CrowdTangleSummary.SummaryArgs: a `start_date` that is not a string is
  modelled as an absent start date.
- ScrapeExceptions.Construct: payloads are passed by keyword only;
  positional payloads after `msg` (line 23) are not modelled. A rejected
  call gives the set of rejected keywords, while Python's `TypeError`
  names only the first, and a class without its own `__init__` names
  none. The `[]` defaults of lines 13 and 62 are one list shared by every
  call in Python; the model gives each error its own empty list, so that
  sharing is not modelled.
- `MinetError`, the root of the scrape errors, is declared outside the
  file. The payload attributes stored by `super().__init__(msg)` are
  modelled as the message only.
- `minet/cli/mediacloud/__init__.py` and `minet/youtube/constants.py` are
  not part of this model. They are lazy command dispatch and constants.
- The scraping validator, evaluator, selector guard and expression
  sandbox are not part of this model. Only their exception classes are
  modelled.
