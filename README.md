# HTTPS Everywhere rulesets to Safari content-blocker rules, in Dafny

This project models `gen_json.py`, a script that turns HTTPS Everywhere ruleset files
(XML) into the JSON rule list of a Safari content blocker, and proves properties of
that model.

A ruleset file contributes only when four things hold:

- its extension is `.xml` in any case;
- it has no `<exclusion>`;
- it has exactly one `<rule>`;
- it has at least one `<target>`. An eligible file without one returns an empty list and is skipped like an ineligible one.

It then contributes the `host` of each `<target>`, in document order. Each collected
host becomes one rule, `{"trigger": {"url-filter": "http://" + re.escape(host)}, "action": {"type": "make-https"}}`.
In directory mode the script walks the tree and keeps four things:

- the collected hosts;
- the names of the skipped files;
- the number of contributing files (`good_files`);
- a running `count` of visited files.

An optional `--limit` ends a directory's loop once `good_files` reaches it.

Modules, leaves first:

- `util.dfy` (`Util`): `Option`.
- `paths.dfy` (`Paths`): `os.path.splitext`, `os.path.join`, the base name and ASCII `str.lower`.
- `escape.dfy` (`RegexEscape`): `re.escape` and its inverse.
- `ruleset.dfy` (`Ruleset`): `get_targets`, as a method with its append loop (`GetTargets`) and as a specification function (`Extract`).
- `emit.dfy` (`Emit`): `generate_json` without the printing. It covers the rule records, the append loop that builds them (`BuildRules`) and the skip report.
- `corpus.dfy` (`Corpus`): `parse_dir`. The method `ParseDir` keeps the nested loops and the inner `break`. `RunBatch` and `RunWalk` give the functional specification of those loops.
- `cli.dfy` (`Cli`): `is_xml_file`, `is_json_file`, an ASCII model of `int()`, the limit normalisation, argument validation and `main`.

The script's own prose describes the limit as "the maximum number of files to parse": see the `parse_dir` docstring (gen_json.py:56-57) and the `--limit` help (gen_json.py:167-168). The model follows the code instead, which differs in three ways:

- The test at gen_json.py:75 compares `good_files`, the number of contributing files, with the limit. Parsed files that are skipped do not count towards it, so more files than the limit can be parsed.
- A `--limit` of 0, or any negative value other than -1, does not mean "unlimited". The loop breaks after the first file of every directory (`NonPositiveLimitReadsFirstFiles`).
- The limit caps contributing files per directory, not across the walk. The walk can pass it by one file per later directory (`WalkGoodBound`, `LimitOvershoot`).

## Model

| member | source | states |
|---|---|---|
| `Paths.SplitExtJoins` | gen_json.py:28 | The stem and the extension from `splitext` put back together give the path. |
| `Paths.ExtShape` | gen_json.py:28 | An extension is empty, or it is one dot that is not the whole path followed by characters that are neither dots nor separators. |
| `Paths.HasExtensionIff` | gen_json.py:28 | `splitext(p)[1].lower() == e` holds exactly when the base name ends in `e` in any case after a stem that is not only dots. So `.xml` and `a/..xml` fail and `A.XML` passes. |
| `Paths.ExtOfJoin` | gen_json.py:65 | Putting the walk's directory in front of a file name (`os.path.join`) does not change the extension of a name without `/`. |
| `RegexEscape.UnescapeEscape` | gen_json.py:109 | Removing the escaping backslashes from `re.escape(h)` gives `h` back. |
| `RegexEscape.EscapeIsLiteral` | gen_json.py:109 | In `re.escape(h)` every backslash is followed by a special character it escapes, never by a letter or digit that would form a class such as `\d`, and no special character stands unescaped. So the filter matches `h` literally. |
| `RegexEscape.EscapeConcat` | gen_json.py:109 | Escaping works character by character, so it distributes over concatenation. |
| `RegexEscape.DotEscaped` | gen_json.py:109 | A `.` between two parts of a host shows up as `\.` between their escaped forms. |
| `RegexEscape.EscapeInjective` | gen_json.py:109 | Two different hosts never produce the same url-filter. |
| `Ruleset.GetTargets` | gen_json.py:13-45 | Returns None exactly when the extension (lower-cased) is not `.xml`, or there is an exclusion, or the number of rules is not 1. Otherwise it returns a list as long as the target list whose i-th entry is the i-th target's host. That list may be empty. |
| `Ruleset.ExtractInDirectory` | gen_json.py:28-45 | Extraction of a walked file depends only on its own name and document, not on the directory it was found in. |
| `Ruleset.NonXmlSkipped` | gen_json.py:28-31 | A file whose base name does not end in `.xml` after a real stem is never parsed, whatever its content. |
| `Emit.BuildRules` | gen_json.py:104-112 | The append loop builds exactly one rule per target, with the i-th rule built from the i-th target. |
| `Emit.RuleRoundTrip` | gen_json.py:108-112 | A rule has action `make-https` and a filter that starts with `http://`. Reading the host back from the filter gives the original host, and the rest of the filter is a regex literal in the same sense: only special characters are escaped, and none stands unescaped. |
| `Emit.RuleForExample` | gen_json.py:108-112 | Host `a.com` gives the filter `http://a\.com` and the action `make-https`. |
| `Emit.SkipPercent` | gen_json.py:128-130 | The reported percentage is the largest whole number `p` with `p * (s + g) <= 100 * s`. It is below 100 whenever some file contributed. |
| `Emit.GenerateJson` | gen_json.py:95-130 | Produces nothing exactly when the targets are None or empty. Otherwise it produces the rule list and, only when some file contributed and some file was skipped, the skip report (names, count, percentage). |
| `Emit.EmittedRulesMatchTargets` | gen_json.py:104-112 | For a non-empty target list there are as many rules as targets, in the same order, and rule i upgrades target i. |
| `Emit.SkipReportShown` | gen_json.py:124-130 | The skip report appears exactly when `good_files != 0` and the skipped list is non-empty. It lists the skipped names, gives their number, and its percentage is below 100. |
| `Corpus.ParseDir` | gen_json.py:59-78 | The nested loops with the inner `break` compute `RunWalk` from the initial accumulator (`count` = 1), and then pass its result to `generate_json`. |
| `Corpus.VisitShape` | gen_json.py:66-74 | A visited file either adds its hosts and one good file, or adds its name to the skipped list. Never both. `count` grows by one. |
| `Corpus.BatchAccounting` | gen_json.py:64-76 | One directory's loop adds to `count` exactly the number of new skipped names plus new good files. It only appends to both lists. |
| `Corpus.WalkAccounting` | gen_json.py:63-76 | The same accounting holds across the whole walk. The earlier targets and skipped names stay a prefix of the later ones. |
| `Corpus.EveryFileCountedOnce` | gen_json.py:59-76 | After the walk, the skipped count plus `good_files` equals `count - 1`, the number of visited files. |
| `Corpus.UnlimitedBatch` | gen_json.py:64-76 | With limit -1 a directory is read to the end. Its targets are the concatenated contributions, its skipped names are those of the other files in order, and its count is the number of files. |
| `Corpus.UnlimitedWalk` | gen_json.py:63-76 | With limit -1 every file of every directory is visited, and the result equals the reference definitions over all files in walk order. |
| `Corpus.BatchVisitsPrefix` | gen_json.py:64-76 | Under any limit, one directory's loop visits the first `k` files and collects what an unlimited loop over them collects. `k` is the first position after which `good_files` reaches the limit (the `break` test), or all files when it never does. It is at least 1 when the directory has files. |
| `Corpus.BatchGoodMarks` | gen_json.py:67-71 | The contributing files among the first `j` files are the sum of the first `j` per-file marks (1 for a contributing file, 0 for a skipped one). The stop point is stated over these marks. |
| `Corpus.BatchGoodExact` | gen_json.py:64-76 | Entered below a positive limit, one directory ends with its contributing files added when the total stays below the limit, and with exactly the limit otherwise. |
| `Corpus.WalkVisitsPrefixes` | gen_json.py:63-76 | Under any limit, the walk equals an unlimited walk over a prefix of each directory. Each prefix ends where that directory's loop stops, entered with the contributing files of the prefixes before it (`WalkStops`), and is non-empty wherever the directory is. So each visited file lands in exactly one bucket, in visit order. |
| `Corpus.NonPositiveLimitReadsFirstFiles` | gen_json.py:75-76 | A limit of 0, or any negative other than -1, reads exactly the first file of each directory. |
| `Corpus.VisitedCountBounds` | gen_json.py:63-76 | `count` grows at least by the number of non-empty directories and at most by the number of listed files. |
| `Corpus.BatchGoodBound` | gen_json.py:75-76 | With a positive limit, one directory's loop ends with at most `max(good + 1, limit)` good files. So it stays within the limit if it started below it. |
| `Corpus.WalkGoodBound` | gen_json.py:63-76 | With a positive limit the walk ends with at most `max(good, limit - 1)` plus the number of directories good files. |
| `Corpus.LimitFromStart` | gen_json.py:63-76 | From the start, a positive limit gives at most `limit - 1 + directories` good files, and at most `limit` for a single directory. |
| `Corpus.LimitOvershoot` | gen_json.py:63-76 | Two directories whose first files contribute give two good files under limit 1. So the cross-directory bound is reached. |
| `Cli.IsXmlFile` | gen_json.py:132-133 | True exactly when the base name ends in `.xml` in any case after a stem that is not only dots. |
| `Cli.IsJsonFile` | gen_json.py:135-136 | True exactly when the base name ends in `.json` in any case after a stem that is not only dots. |
| `Cli.ParseRender` | gen_json.py:138-150 | `int()` accepts the decimal spelling of an integer exactly when its magnitude is below `10^4300`, and then returns that integer. This follows CPython's default digit limit. |
| `Cli.NormalizeLimitMeaning` | gen_json.py:189 | An absent limit becomes -1. The decimal spelling of `n` becomes `n` when `int()` accepts it (magnitude below `10^4300`), and -1 otherwise. A string without any digit becomes -1. |
| `Cli.SeparatorBeforeDigits` | gen_json.py:146-150 | `int()` skips only `\t\n\v\f\r` and space around a number, so "\x1c5" is refused and the limit becomes -1. |
| `Cli.LongSpellingIgnored` | gen_json.py:189 | "-1" followed by 4300 or more zeros has too many digits for `int()`, so `is_int` fails and the limit becomes -1 (no limit), not a huge negative number. |
| `Cli.Validate` | gen_json.py:173-185 | The arguments pass exactly when `--dir` is a directory, `--file` (if given) is an XML file name and `--output` (if given) is a JSON file name. The first failing check in that order gives the error: a bad directory, then a bad input file, then a bad output file. |
| `Cli.RunMain` | gen_json.py:172-192 | A run is rejected exactly when validation fails, with validation's error; the verdict reads only the arguments and `isdir`. In single-file mode it emits `generate_json(get_targets(file), [], 0)`. Otherwise it emits `generate_json` of the walk under the normalised limit. |
| `Cli.SingleFileOutcome` | gen_json.py:178-192 | In single-file mode the run produces rules exactly when the document is eligible and has a target, and it never reports skipped files. |

## Left out

- XML parsing with BeautifulSoup is not modelled. A file's content is given as an abstract `Document`: the number of exclusions, the number of rules and the targets. A `<target>` without a `host` attribute (a `KeyError` in the library) is not modelled.
- Opening and reading files is not modelled: read and decoding errors, and the file handle.
- `os.walk` is not modelled. Its listing is an input sequence of directory batches, and its order is whatever that sequence says. `os.path.isdir` is an input predicate, and so is the content of the file named by `--file`.
- Writing the output is not modelled: the `json.dumps` text (indentation, separators), the choice between stdout and the `--output` file, and the write itself. The model yields the list of rule records.
- The console output is not modelled: the progress line, which mixes the global `count` with the per-directory `len(files)`; the error text; the banner; the listing of skipped files; the `single_file` diagnostic. `GetTargets` therefore has no `single_file` parameter.
- `Emit.SkipPercent`: states the exact integer floor of `100 * s / (s + g)`. The script computes `100*(s/(s+g))` in floating point before truncating, so it can print one less. For example, 29 skipped out of 100 prints 28.
- `RegexEscape.Escape`: assumes the special-character set of Python 3.7 and later: `()[]{}?*+-|^$\.&~#`, space and `\t\n\r\v\f`. Python 3.3 to 3.6 escaped every character except ASCII letters, digits and `_`. Earlier versions escaped `_` too.
- `Paths.Lower`: lower-cases ASCII letters only. No non-ASCII character lower-cases into the letters of `.xml` or `.json`, so the extension tests do not depend on this.
- `Cli.ParseInt`: ASCII only. It does not model the non-ASCII digits and white space that Python's `int()` also accepts. ASCII characters behave as modelled in every string. The gap is only the non-ASCII digits and white space that `int()` first maps to ASCII.
- `Cli.ParseInt`: uses CPython's default limit of 4300 digits (`sys.int_max_str_digits`, CPython 3.11 and the 3.7.14, 3.8.14, 3.9.14 and 3.10.7 releases). Earlier releases have no limit, and the `PYTHONINTMAXSTRDIGITS` setting can change it; neither is modelled.
- `argparse` setup, its own usage errors, and raising `ArgumentTypeError` are not modelled; an argument error is a `Rejected` result. The module-level `main()` call is also left out.
- `os.path` is taken to be `posixpath`, with `/` as the only separator. The Windows flavour (`ntpath`) is not modelled: its `\` separator and drive letters in `splitext`, `join` and the base name.
- `Test-HTTPS-Everywhere.safariextension/test.js` is a Safari event listener that only logs. It has no logic to model.
