# Website clone and command translation — a Dafny model

This project models the pure logic of two tools in `agent.js`.

**The website cloner** (`cloneWebsiteUltraAccurate`) runs as a pipeline over plain data:

- **Capture.** Each completed network exchange is tested for eligibility. An eligible one is stored in a URL-keyed table, where the last write wins and `Map` insertion order is kept. If reading its body throws, its URL goes into a failure set instead.
- **Save loop.** The loop folds over the table in iteration order with one shared counter. Each resource is placed in a directory by first-match rules and named `asset_<n><extension>`. The page text is then rewritten: first every occurrence of the full URL, then every occurrence of the URL's path.
- **Meta block.** The charset/viewport/`<base>` block goes in right after the first literal `<head>`.
- **Manifest.** The manifest holds the totals and the per-kind counts. The output directory is named `cloned_<site name>_<now>`.

**The command translator** (`executeWithWindowsEquivalents` and the `linuxCommands` prefix test) turns a Linux command line into its Windows form when no Linux subsystem is available, or running the command there fails.

Modules, in dependency order:

| file | module | what it holds |
|---|---|---|
| wrappers.dfy | `Wrappers` | `Option` |
| text.dfy | `Text` | JavaScript string operations: `indexOf`, `includes`, `startsWith`, `replace` with a string pattern, global literal replace, `split`/`join`, `trim`, decimal rendering |
| commands.dfy | `Commands` | the Linux-command test and the Windows translation table |
| capture.dfy | `Capture` | responses, the eligibility test, the ordered resource table, the failure set |
| assets.dfy | `Assets` | the category rules, file names and relative paths |
| rewrite.dfy | `Rewrite` | the save loop: numbering, write failures, the two rewrite passes |
| meta.dfy | `Meta` | the meta block, as written and as intended |
| manifest.dfy | `Manifest` | the manifest counts, the site name, the output directory |
| clone.dfy | `Clone` | one run end to end, with the browser, file system and clock as inputs |

The browser, the file system and the clock are inputs to the model:

- A `Session` holds the list of completed exchanges, in the order their buffer reads finished, and the final page HTML.
- `Env` holds:
  - the parsed host name, or none when `new URL(url)` throws;
  - whether each write succeeds;
  - the parsed path of each resource URL;
  - the clock readings.

### Where the model follows the code, and where the intent

Apart from the inputs and restrictions listed under "## Left out", the model follows `agent.js` as written. Where the code and its evident intent differ, it follows the intent in two places:

- The page a run saves gets the meta block by literal insertion, and not by the template-expanding `replace` of agent.js:363. The two agree for every page URL without `$` (`Clone.PageAsProgramWritesIt`); the difference is logged under "## Findings".
- Each exchange carries its file extension as an input field. `getExtensionFromUrl`, called at agent.js:225, is not defined anywhere in the file; as written, the call throws inside the handler's `try`, so every eligible exchange would go to `failedResources` (agent.js:231-233) and no resource would ever be saved.

Among the restrictions, the relative path is copied literally into the page, whereas the global `replace` at agent.js:330-333 and 340-343 would expand `$` patterns in it (see `Rewrite.RewriteOne` under "## Left out").

Several properties one might expect are proved false for the code as written:

- The four manifest counts are independent filters. They can add up to more than `totalResources` (`Manifest.BreakdownCanExceedTotal`).
- The manifest's font filter leaves out `.otf`, although the placement rules send `.otf` to `fonts/` (`Manifest.OtfPlacedButNotCounted`). The image count looks only at the declared type (`Manifest.ImageCountIgnoresExtension`).
- The rewrite is not safe against its own output. The path pass runs on text the URL pass has just written (`Rewrite.PathPassCanHitOwnLocalPath`). It also runs on the full URLs of resources still to come: when a later URL ends in an earlier resource's path, the earlier path pass rewrites inside it before the later URL pass runs, so `https://cdn.test/a.css` becomes `https://cdn.test./css/asset_0.css` once `https://h/a.css` is saved first (`Rewrite.EarlierPathReachesLaterUrl`, `Rewrite.CdnUrlRewrittenByEarlierPath`).
- `new URL(url)` sits outside the `try` block. An unparsable URL makes the call reject instead of returning the failure message (`Clone.Outcome.Rejected`).
- The rows `ls -la`, `ls -l` and `ls -a` of the translation table can never be chosen (`Commands.ListingVariantsUnreachable`).

## Model

| member | source | states |
|---|---|---|
| Text.IndexOf | agent.js:362 | the result is the leftmost occurrence of the pattern; none exactly when the pattern occurs nowhere |
| Text.ReplaceFirst | agent.js:116 | with a string pattern only the first occurrence is replaced; text without the pattern is returned as it is |
| Text.ReplaceAll | agent.js:330-333 | the escaped global replace with the relative path; what it does is stated by `Text.ReplaceAllIsSplitJoin`, `Text.ReplaceAllByItself` and `Text.ReplaceAllLength` |
| Text.ReplaceAllIsSplitJoin | agent.js:330-333 | the escaped global regular-expression replace equals splitting at the leftmost non-overlapping occurrences and joining with the replacement |
| Text.SplitJoinRoundTrip | agent.js:330-333 | joining the pieces of a split with the same separator gives the text back, so the occurrences the replace finds partition the text |
| Text.ReplaceAllByItself | agent.js:330-333 | replacing a pattern by itself changes nothing, including for the empty pattern, which matches at every index |
| Text.ReplaceAllLength | agent.js:330-333 | each occurrence replaced changes the page length by the difference between the replacement's length and the pattern's |
| Text.Trim | agent.js:110 | `trim` yields a slice with no ECMAScript whitespace at either end, obtained by dropping only whitespace |
| Text.TrimIdempotent | agent.js:110 | trimming twice is trimming once |
| Text.Contains | agent.js:214-215 | `includes`: true exactly when the pattern occurs at some index; used by the capture test and the `<head>` guard at agent.js:362 |
| Text.NatToString | agent.js:292 | the decimal rendering of a counter in a template literal, also used for `Date.now()` at agent.js:175: one or more digits, no leading zero except for 0 itself, and it reads back as the number (`Assets.FileNameShape`, `Text.NatToStringInjective`) |
| Text.NatToStringInjective | agent.js:292 | different counter values render as different decimal strings |
| Text.DigitsThenNonDigit | agent.js:292 | a digit string followed by text that does not start with a digit splits in only one way |
| Commands.FirstMatchFrom | agent.js:114-119 | the lookup returns the first row in table order whose Linux command is a prefix; none only when no row is a prefix |
| Commands.IsLinuxCommand | agent.js:28-42 | the prefix test over the ten listed commands; see `Commands.PrefixTestOnly` |
| Commands.PrefixTestOnly | agent.js:40-42 | only prefixes matter: text after a listed command keeps the test true (`lsblk`, `categories` count), and a leading space makes it false |
| Commands.ToWindows | agent.js:106-120 | a `touch ` command becomes an `echo. > "…` redirection ending in a quote; any other command it changes starts with some row's Linux command and comes out starting with that row's Windows command |
| Commands.TouchTranslation | agent.js:109-111 | `touch <name>` becomes `echo. > "<name>"`, with the name after `touch ` trimmed |
| Commands.TableTranslation | agent.js:113-119 | otherwise the first matching row's prefix is swapped for its Windows command and the rest of the line is kept |
| Commands.UnmatchedCommandUnchanged | agent.js:106-120 | a command no row matches is passed on unchanged |
| Commands.ListingVariantsUnreachable | agent.js:91-95 | rows `ls -la`, `ls -l`, `ls -a` are never chosen, because `ls` precedes them and is a prefix of each |
| Commands.LongListingBecomesBareListing | agent.js:114-118 | as a consequence `ls -la` is sent as `dir /b -la` |
| Commands.TranslationOnlyTouchesLinuxCommands | agent.js:28-42 | the translation changes only commands that the prefix test classifies as Linux commands |
| Commands.ChmodHasNoEquivalent | agent.js:28-42 | `chmod` counts as a Linux command but has no table row, so it is passed on unchanged |
| Capture.Put | agent.js:221-230 | `set` replaces any earlier value under the URL; a new URL goes to the end of the key order, an existing one keeps its place |
| Capture.Entries | agent.js:290 | the table is iterated in key order, each key with its current value |
| Capture.ToResource | agent.js:218-230 | the record stored for an exchange: its declared type, the bytes read, the `content-type` header or `""` when the header is missing, and the extension |
| Capture.Observe | agent.js:205-236 | an exchange that is not stored leaves the table alone; a stored one sets its URL; only a failed read adds to the failure set |
| Capture.IsEligible | agent.js:210-216 | the capture test on resource type (`stylesheet`, `script`, `image`, `font`, `media`) and content type (containing `css` or `javascript`); what it decides is stated by `Capture.RecordedIffEligible` and `Capture.IneligibleChangeNothing` |
| Capture.CaptureAll | agent.js:205-236 | the table stays well formed after any sequence of exchanges: distinct keys in insertion order, each with a value |
| Capture.StoredIff | agent.js:210-230 | a URL is in the table exactly when some eligible exchange for it had its bytes read |
| Capture.FailedIff | agent.js:231-233 | a URL is in the failure set exactly when some eligible exchange for it had its buffer read throw |
| Capture.RecordedIffEligible | agent.js:210-216 | a URL is recorded in either collection exactly when some exchange for it passed the capture test |
| Capture.LastWriteWins | agent.js:217-230 | the table holds the record of the last stored exchange for a URL, whatever came before |
| Capture.KeyOrderIsFirstStoreOrder | agent.js:205-230 | the key order is the order of first successful stores: a URL stored at some point comes before a URL whose first store is later |
| Capture.OrderOnlyGrows | agent.js:221-230 | later exchanges never reorder the table: an earlier key order is a prefix of a later one |
| Capture.IneligibleChangeNothing | agent.js:210-216 | removing the exchanges that fail the capture test changes neither collection |
| Capture.TableSize | agent.js:373 | the table's size is the number of distinct URLs in its key order |
| Assets.Classify | agent.js:296-323 | the chain of placement tests; it is characterised by `Assets.ClassifyIsFirstApplicable` and `Assets.ClassifyFirstMatch` |
| Assets.ClassifyIsFirstApplicable | agent.js:296-323 | the chain of tests is the precedence table of rules read first-match |
| Assets.ClassifyFirstMatch | agent.js:296-323 | a resource goes to a category directory exactly when that category's rule is the first that applies, and to the output root exactly when none applies |
| Assets.PlacementPrecedence | agent.js:296-317 | a declared stylesheet goes to `css/` whatever its extension; an image with `.js` goes to `js/`; `.otf` reaches `fonts/` |
| Assets.FileName | agent.js:292 | `asset_<counter><extension>`; see `Assets.FileNameShape` and `Assets.FileNameInjective` |
| Assets.FileNameShape | agent.js:292 | a file name is `asset_`, then digits that read back as the counter, then the extension |
| Assets.FileNameInjective | agent.js:292 | different counter values give different file names when extensions do not start with a digit |
| Assets.DigitExtensionCollides | agent.js:292 | without that condition asset 1 with extension `2.css` and asset 12 with `.css` share a name |
| Assets.RelativePath | agent.js:294-323 | `./`, the category directory, the file name; see `Assets.RelativePathShape` and `Assets.RelativePathInjective` |
| Assets.RelativePathShape | agent.js:294-323 | a path starts with `./` and ends with the file name; only the output root puts nothing in between, and any other directory ends in `/` |
| Assets.RelativePathInjective | agent.js:293-323 | a relative path determines its directory and file name |
| Rewrite.Assign | agent.js:292-323 | the file name starts with `asset_` and carries the current counter |
| Rewrite.SaveAll | agent.js:287-353 | the counter ends at its start plus the number of files written; the files are numbered consecutively from the start; there are never more files than pairs; no failed write yields a file |
| Rewrite.Committed | agent.js:325-353 | a pair is kept exactly when it is a pair of the table whose write succeeds |
| Rewrite.CommittedKeepsOrder | agent.js:290-353 | of two pairs whose writes succeed, the one earlier in the table is earlier among the kept pairs |
| Rewrite.CommittedDistinct | agent.js:290-353 | keeping some of the pairs of a table with distinct URLs keeps their URLs distinct |
| Rewrite.SavedCountIsCommitted | agent.js:290-353 | one file per kept pair: the k-th file is the k-th kept pair, numbered start + k |
| Rewrite.SavedInTableOrder | agent.js:290-353 | of two pairs whose writes succeed, the one earlier in the table gets the earlier file and the smaller number |
| Rewrite.SavedOncePerUrl | agent.js:290-353 | when the table's URLs are distinct, no URL gets two files |
| Rewrite.SaveAllIsStaged | agent.js:287-353 | the loop is three stages: keep the successful writes, number them from the start, rewrite the page with them in order |
| Rewrite.FailedWriteLeavesNoTrace | agent.js:326-352 | a resource whose write throws leaves the counter and the page as they were: the loop continues as if it were absent |
| Rewrite.SavedFilesAreTheCommittedOnes | agent.js:290-353 | every pair whose write succeeds gets a file |
| Rewrite.SavedComeFromTable | agent.js:290-353 | every file written belongs to a pair of the table |
| Rewrite.SavedPathsDistinct | agent.js:292-326 | two files written in one run never share a path when no extension starts with a digit |
| Rewrite.PathsOfDifferentIds | agent.js:292-323 | two different counter values never give the same path, whatever the directories, when no extension starts with a digit |
| Rewrite.RewriteOne | agent.js:329-347 | the URL pass, then the path pass when the path is rewritable; see `Rewrite.RewriteOneUntouched`, `Rewrite.OnlyUrlPassWithoutPath` and `Rewrite.PathPassCanHitOwnLocalPath` |
| Rewrite.RewriteOneUntouched | agent.js:329-347 | a page mentioning neither the URL nor its rewritable path is left as it is |
| Rewrite.OnlyUrlPassWithoutPath | agent.js:336-347 | with no parsed path, an empty path or `/`, only the full-URL pass runs |
| Rewrite.PathPassCanHitOwnLocalPath | agent.js:336-347 | the path pass can rewrite inside the local path the URL pass just wrote, so a full-URL reference need not end up as the local path |
| Rewrite.EarlierPathReachesLaterUrl | agent.js:290-347 | one resource's path pass also rewrites the full URL of a resource still to come when that URL ends in the path: the reference becomes the host followed by the earlier local path, and the later URL no longer appears as written |
| Rewrite.CdnUrlRewrittenByEarlierPath | agent.js:290-347 | saving `https://h/a.css` (path `/a.css`) as `./css/asset_0.css` turns `https://cdn.test/a.css` in the page into `https://cdn.test./css/asset_0.css` |
| Meta.MetaTags | agent.js:356-360 | the template literal: a line end, the charset and viewport tags and the `<base href>` tag, each on its own line indented by four spaces, with the URL copied into `href`; `Meta.MetaRoundTrip` and `Meta.InjectMetaLength` rest on its exact text |
| Meta.InjectMeta | agent.js:356-364 | the block goes in right after the first `<head>` only; a page without a literal `<head>` is unchanged |
| Meta.MetaRoundTrip | agent.js:356-364 | taking the block out again right after the first `<head>` gives the page back |
| Meta.InjectMetaLength | agent.js:356-364 | a page with `<head>` grows by exactly the block |
| Meta.Substitute | agent.js:363 | the template expansion of a string-pattern `replace`: `$$` gives `$`, `$&` the matched text, `` $` `` the text before the match, `$'` the text after it, and every other `$` stays literal; text without `$` passes through unchanged (`Meta.SubstituteDollarFree`) and `$&` becomes the match (`Meta.DollarAmpersandExpands`) |
| Meta.JsReplaceFirst | agent.js:363 | `replace` with a string pattern: only the first occurrence is replaced, by the expanded template, and text without the pattern is returned as it is; see `Meta.AsWrittenAgreesWithoutDollar` |
| Meta.InjectMetaAsWritten | agent.js:362-364 | the program's injection leaves a page without a literal `<head>` as it is; see `Meta.AsWrittenAgreesWithoutDollar` and `Meta.DollarAmpersandInsertsHead` |
| Meta.AsWrittenAgreesWithoutDollar | agent.js:362-364 | for a URL without `$` the program's template-expanding `replace` inserts the block literally |
| Meta.DollarAmpersandInsertsHead | agent.js:359-363 | a URL containing `$&` gets `<head>` in its place inside the `<base>` element |
| Manifest.BuildManifest | agent.js:370-389 | the total is the table size and the failure count the failure-set size; each breakdown count is the number of stored URLs whose resource passes that count's filter, and so at most the total |
| Manifest.CountWhere | agent.js:376-387 | a filtered count never exceeds the number of values; see `Manifest.CountCountsUrls` and `Manifest.CountExtremes` |
| Manifest.CountCountsUrls | agent.js:376-387 | each breakdown count is the number of URLs in the table whose resource passes its filter |
| Manifest.CountExtremes | agent.js:376-387 | a count is zero exactly when no value passes its filter, and the total exactly when every value does |
| Manifest.CountMonotone | agent.js:376-387 | a filter that admits no more than another counts no more |
| Manifest.CountsAgainstPlacement | agent.js:376-381 | the css count equals the number placed in `css/`; the js count is at least the number placed in `js/` |
| Manifest.BreakdownCanExceedTotal | agent.js:376-387 | a stylesheet with a `.js` extension is counted as css and as js, so the counts can add up to more than the total |
| Manifest.OtfPlacedButNotCounted | agent.js:384-386 | an `.otf` font is placed in `fonts/` but not counted as a font |
| Manifest.ImageCountIgnoresExtension | agent.js:382-383 | the image count follows the declared type only, not the directory the resource is placed in |
| Manifest.SiteName | agent.js:174 | the site name has the host's length, keeps its ASCII letters and digits and has `_` everywhere else |
| Manifest.SiteNameFixedIff | agent.js:174 | a host is its own site name exactly when it has only letters, digits and `_` |
| Manifest.SiteNameIdempotent | agent.js:174 | sanitising twice is sanitising once |
| Manifest.SiteNamesCollide | agent.js:174 | `a.b`, `a_b` and `a-b` all get the site name `a_b` |
| Manifest.OutputDir | agent.js:175 | the directory name starts with `cloned_`; when the site name has only letters, digits and `_`, as `Manifest.SiteName` guarantees, so does the directory name |
| Manifest.OutputDirInjective | agent.js:175 | the directory name determines the site name and the clock reading |
| Clone.Clone | agent.js:172-400 | the call rejects exactly when the URL does not parse, and completes exactly when every outside step succeeds |
| Clone.CompletedRun | agent.js:370-389 | a completed run's manifest records the URL, time and directory, and counts the table and failure set; files are numbered from 0, none a failed write; removing the meta block gives the rewritten page |
| Clone.SaveSession | agent.js:287-290 | the save loop starts from the snapshot page with the counter at 0 and walks the table in key order; what it yields is stated by `Rewrite.SaveAllIsStaged`, `Clone.FilesInCaptureOrder`, `Clone.SavedAreStored` and `Clone.StoredAreSaved` |
| Clone.CompletedParts | agent.js:287-367 | the files and page of a completed run are those of the save loop, with the meta block added |
| Clone.SavedAreStored | agent.js:205-353 | every file written comes from an exchange that passed the capture test and had its bytes read |
| Clone.StoredAreSaved | agent.js:205-353 | every stored exchange whose write succeeds gets a file |
| Clone.FilesInCaptureOrder | agent.js:205-353 | files follow the table's key order: of two URLs in the table whose writes succeed, the one earlier in the key order gets the earlier file and the smaller number; no URL gets two files; `Capture.KeyOrderIsFirstStoreOrder` ties the key order to the order of first stores |
| Clone.TotalsIgnoreWriteFailures | agent.js:373-374 | the totals do not depend on which writes fail |
| Clone.NothingStoredOnlyMeta | agent.js:287-389 | when nothing is stored, the page is saved as it was plus the meta block, no file is written and the total is 0 |
| Clone.PageAsProgramWritesIt | agent.js:356-364 | for a page URL without `$`, the saved page is exactly what the program's template-expanding `replace` produces |

## Left out

- The Puppeteer session is not modelled: launch, viewport, user agent, request interception, navigation timeout, scrolling, sleeps, `page.content` and `browser.close`. It is an external process driven by timers. Its result is the `Session` input.
- File-system calls are inputs. `fs.mkdir` is one flag; `fs.writeFile` for a resource is the write-failure set; the page and manifest writes are two flags.
- `Date.now()` and `toISOString()` are inputs. `JSON.stringify` formatting and the returned summary strings are not modelled.
- `getExtensionFromUrl` is called but not defined in the file. The extension is taken as a field of each exchange. As written, the call would throw inside the handler's `try`, so every eligible URL would land in the failure set.
- URL parsing (the WHATWG URL Standard) is not modelled. The host name of the page URL and the path of each resource URL are inputs.
- Clone.Clone: the saved page gets the meta block by literal insertion (`Meta.InjectMeta`), not by the template-expanding `replace` of agent.js:363. The two agree when the page URL has no `$` (`Clone.PageAsProgramWritesIt`); for a URL with `$&`, `$$`, `` $` `` or `$'` the program writes a different page (see "## Findings").
- Clone.CompletedRun: its last clause, taking the meta block out gives the rewritten page back, is about the literal insertion. For a page URL with `$` patterns the program's page need not satisfy it.
- Clone.CompletedParts: the page is stated as the literal insertion. It equals the program's page only for a page URL without `$` (`Clone.PageAsProgramWritesIt`).
- Clone.NothingStoredOnlyMeta: the page is stated as the literal insertion, with the same restriction as above.
- Rewrite.RewriteOne: the replacement text (the relative path) is taken as free of `$` patterns. The global `replace` would expand them, and an extension containing `$` is not modelled.
- Text.ReplaceFirst: stated for replacements free of `$` patterns. That holds at the call sites in the command translation; the template expansion itself is modelled in `Meta.Substitute` for the meta block.
- Manifest.SiteName: characters are Unicode scalar values, whereas JavaScript strings are UTF-16 code units. They differ only for non-ASCII host names, and URL parsing turns those into ASCII.
- Manifest.OutputDir: `Date.now()` is taken as a natural number; a clock before 1970 is not modelled.
- The order of exchanges in a `Session` is the order in which their asynchronous buffer reads finish. That order is an input, not derived from the network.
- `executeCommand`, `executeWithWSL`, platform detection and `exec` are process I/O. Only the command strings are modelled.
- The weather and GitHub tools, the tool map and the conversational loop in `main` are not part of this model.

## Findings

| source | as written | input that shows it | evidently intended | confidence | as-written member | corrected member |
|---|---|---|---|---|---|---|
| agent.js:363 | the meta block, page URL included, is passed as the replacement of a string-pattern `replace`, so `$&`, `$$`, `` $` `` and `$'` in the URL are expanded | page URL `https://x.test/?q=$&` and a page with `<head>`: the `<base href>` receives `https://x.test/?q=<head>` | the block, with the URL copied literally, inserted after the first `<head>` | high (not executed) | Meta.DollarAmpersandInsertsHead | Meta.InjectMeta |
