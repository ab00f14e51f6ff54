# powerline: git back-end and common segments, in Dafny

This project models two files of powerline, the status-line generator.

`powerline/lib/vcs/git.py` is the git back-end of its version-control layer:
- how the metadata directory of a working tree is found (`git_directory`, including gitfiles written as `gitdir: <path>`);
- how the branch name is read from `HEAD` (`_ref_pat`, `branch_name_from_config_file`);
- how `GitRepository.status` routes file queries through the watcher cache and repository queries to `do_status`;
- the two `Repository` classes. The pygit2 one maps libgit2 flag words to porcelain codes and OR-reduces them into a token list. The command-line one reads `git status --porcelain` lines and scans them into three columns. Both have `ignore_event`, and the command-line one has `divergence`.

`powerline/segments/common.py` holds the segments that build on it:
- `divergence` and the highlight choice of `branch`;
- the current-directory breadcrumb (`CwdSegment.get_shortened_path` and `CwdSegment.__call__`);
- `fuzzy_time`, `uptime`, and `_interface_key`, the ranking key for network interfaces.

Modules:
- `Outcomes`: `Option` and `Result`. These stand for Python's `None` and for raised exceptions.
- `Text`: the `str` operations the git and segment code uses. These are `startswith`, slice bounds, one-character `split` and `join`, `strip()` and `str(int)`.
- `Utf8`: `bytes.decode('utf-8')` in strict and `'replace'` mode, and the encoder.
- `PosixPath`: `os.path.join`, `basename`, `normpath` and `abspath`. The working directory is a parameter.
- `Git`: `git.py`. The file system is a map from path to content. libgit2 flag words are `bv32` values with libgit2's constants. The porcelain output is a list of lines.
- `Common`: `common.py`. The clock, the uptime counter, the working directory, `guess` and `tree_status` are parameters.

`CwdSegment.__call__` edits its component list in place and appends to its result list. It is the method `Common.CwdSegmentCall`, proved against the function `Common.Breadcrumb`. The command-line whole-repository scan loops over lines, updating three column variables. It is the method `Git.CliRepoStatus`, proved against `Git.CliRepoSummary`. `GitRepository` is a class.

## Model

| member | source | states |
|---|---|---|
| Git.MatchRefSpec | powerline/lib/vcs/git.py:14 | `_ref_pat.match` yields `name` exactly when the bytes are `ref:`, whitespace, `refs/heads/`, then a non-empty newline-free `name`, followed by a newline or the end |
| Git.MatchRefSound | powerline/lib/vcs/git.py:14 | whatever the matcher returns sits in that layout |
| Git.MatchRefComplete | powerline/lib/vcs/git.py:14 | every input in that layout is matched, with that name |
| Git.BranchNameRoundTrip | powerline/lib/vcs/git.py:17-25 | a `HEAD` holding `ref: refs/heads/` and the UTF-8 of a newline-free name gives that name back |
| Git.DetachedHeadLabel | powerline/lib/vcs/git.py:23-26 | a readable `HEAD` the pattern does not match gives `raw[:7]`: its first seven bytes, as bytes, or the whole file if shorter |
| Git.UnmatchedHeads | powerline/lib/vcs/git.py:14-26 | the pattern matches nothing that lacks `ref:`, nor `ref: refs/tags/...`, nor `ref: refs/heads/` followed by a newline |
| Git.UnreadableHeadLabel | powerline/lib/vcs/git.py:18-22 | a `HEAD` that cannot be opened gives the base name of `directory`, which has no `/` |
| Git.GitfilePathAsWritten | powerline/lib/vcs/git.py:34-40 | the gitfile parse as written raises IndexError exactly for a file holding only `gitdir: ` |
| Git.GitfilePathAsWrittenDiffers | powerline/lib/vcs/git.py:37-40 | the as-written and the intended parse agree on every other file; on that one the intended parse reports "no path in gitfile" |
| Git.GitfilePath | powerline/lib/vcs/git.py:34-40 | an accepted path is non-empty; "invalid gitfile format" exactly when the `gitdir: ` tag is missing |
| Git.GitfilePathSpec | powerline/lib/vcs/git.py:34-40 | "no path" exactly for `gitdir: ` with or without a newline; a decode error exactly when the rest is not UTF-8; an accepted file is the tag, the UTF-8 of the path and at most one newline |
| Git.GitDirectory | powerline/lib/vcs/git.py:29-43 | `<directory>/.git` when that is not a file; a read error when the gitfile cannot be read; for a readable gitfile, it fails exactly when the gitfile's parse fails, with the same error; a result is never empty |
| Git.GitDirectoryRejects | powerline/lib/vcs/git.py:33-40 | for a readable gitfile: `invalid gitfile format` exactly without the tag, `no path in gitfile` exactly for `gitdir: ` with or without a newline, a decode error exactly when the rest is not UTF-8 |
| Git.GitDirectoryAbsolute | powerline/lib/vcs/git.py:41 | a path taken from a gitfile comes back absolute |
| Git.GitfileRoundTrip | powerline/lib/vcs/git.py:29-41 | a gitfile `gitdir: <target>`, with a newline or without one (when the target does not end in one), leads to `abspath(join(directory, target))` |
| Git.IndexLetter | powerline/lib/vcs/git.py:117-124 | the index column is `A`, `D`, `M` or space, by the priority new > deleted > modified, each exactly when its flag decides |
| Git.WorkTreeLetter | powerline/lib/vcs/git.py:126-131 | the working-tree column is `D`, `M` or space, by the priority deleted > modified |
| Git.Pygit2FileStatus | powerline/lib/vcs/git.py:102-133 | `None` exactly when the lookup failed or the file is current; `??` exactly for a new file in the working tree; `!!` exactly for an ignored one; otherwise the code is the index letter followed by the working-tree letter of the status |
| Git.OrReduceHas | powerline/lib/vcs/git.py:136 | the OR of all flag words has a bit of a mask exactly when some word has one |
| Git.MatchingTokens | powerline/lib/vcs/git.py:141-143 | the comprehension yields `tag:kind` for each kind whose mask is covered, and nothing else |
| Git.CheckAllTokens | powerline/lib/vcs/git.py:138-147 | `checkall` names each covered kind, and adds `dirty` exactly when one is covered; it gives `clean` exactly when none is |
| Git.RepoTokensNamed | powerline/lib/vcs/git.py:149-157 | for the aggregate word, each kind is named exactly when its flag is set, and each group is dirty exactly when a flag of that group is set |
| Git.RepoTokensIndexFirst | powerline/lib/vcs/git.py:157 | all `index` tokens precede all `working_tree` tokens |
| Git.Pygit2RepoStatus | powerline/lib/vcs/git.py:134-157 | the intended repository status: the token list of the OR of the files' words |
| Git.Pygit2RepoTokens | powerline/lib/vcs/git.py:134-157 | the repository's tokens name a kind exactly when some file has its flag, and call a group dirty exactly when some file has a flag of it |
| Git.CheckAllExact | powerline/lib/vcs/git.py:138-147 | `checkall` is exactly its group report: the covered kinds once each, in the order new, modified, deleted, then `dirty`; or `clean` alone |
| Git.Pygit2RepoGroups | powerline/lib/vcs/git.py:134-157 | the repository status is exactly the `index` report and then the `working_tree` report, each listing the kinds some file has |
| Git.Pygit2RepoIndexFirst | powerline/lib/vcs/git.py:157 | the repository's `index` tokens come before its `working_tree` tokens |
| Git.Pygit2RepoStatusAsWritten | powerline/lib/vcs/git.py:136 | under Python 3 the repository status always fails, since `reduce` is not defined |
| Git.ReduceUnboundOnPython3 | powerline/lib/vcs/git.py:134-136 | every repository fails as written with NameError, while the intended reading always reports both groups |
| Git.CliFileStatus | powerline/lib/vcs/git.py:189-193 | `None` exactly when git printed nothing; otherwise the first two characters of the first line |
| Git.CliRepoSummary | powerline/lib/vcs/git.py:194-212 | column 1 is `D` exactly when some change line has a non-space second character; column 2 is `I` exactly when one has a non-space first character; column 3 is `U` exactly when a line starts with `?`; `None` exactly when no line is too short for `line[1]` and none of the three columns is set |
| Git.CliRepoStatus | powerline/lib/vcs/git.py:194-212 | the loop over the lines computes exactly `CliRepoSummary` |
| Git.CliRepoSummaryOrderFree | powerline/lib/vcs/git.py:198-210 | the order of the porcelain lines does not matter |
| Git.CliRepoSummaryClean | powerline/lib/vcs/git.py:194-212 | the summary is `None` exactly when every line is ignored or starts with two spaces |
| Git.ScanAgrees | powerline/lib/vcs/git.py:198-210 | over the lines the pygit2 codes would print, the scan's index and working-tree predicates hold exactly when some file has a flag of that group |
| Git.BackendsAgree | powerline/lib/vcs/git.py:102-212 | the two back-ends agree: the command line marks the index dirty exactly when pygit2 says `index:dirty`; it marks the working tree dirty or untracked files present exactly when pygit2 says `working_tree:dirty` |
| Git.CliStatusExamples | powerline/lib/vcs/git.py:188-212 | ` M` and `??` lines give `D U`; `A  staged.txt` gives `A ` |
| Git.IgnoreEvent | powerline/lib/vcs/git.py:178-183 | only the command-line back-end ignores anything, only `index.lock`, and only under a path ending in `.git` |
| Git.IgnoreEventOnlyIndexLock | powerline/lib/vcs/git.py:178-183 | inside a metadata directory the command-line back-end ignores exactly `index.lock`; pygit2 ignores nothing |
| Git.GitRepository.constructor | powerline/lib/vcs/git.py:49-51 | the stored directory is the absolute form of the one given |
| Git.GitRepository.Status | powerline/lib/vcs/git.py:53-81 | with no path, `do_status(directory, path)` is called directly. A file query fails exactly when `git_directory` fails; otherwise it goes through the cache with the file, `<gitdir>/index`, and `logs/HEAD` and `info/exclude` as extra triggers |
| Git.GitRepository.Branch | powerline/lib/vcs/git.py:83-91 | fails exactly when `git_directory` fails; otherwise reads `<gitdir>/HEAD` with the metadata directory as fallback |
| Git.GitRepository.BranchFallbackIsMetadataDirectory | powerline/lib/vcs/git.py:83-91 | in a plain checkout an unreadable `HEAD` labels the branch `.git` |
| Git.GitRepository.PlainCheckoutWatchPaths | powerline/lib/vcs/git.py:67-80 | in a plain checkout the cache watches `<directory>/.git/index`, `.../logs/HEAD` and `.../info/exclude` |
| Common.CommandLineDivergence | powerline/lib/vcs/git.py:214-216 | the command-line `divergence()` is `(0, 0)`, so its segment is always `-` with `divergence_none` |
| Utf8.DecodeEncode | powerline/lib/vcs/git.py:25 | decoding what was encoded gives the string back, in both `'replace'` and strict mode |
| Utf8.EncodeDecodeStrict | powerline/lib/vcs/git.py:36 | bytes that decode strictly are the encoding of what they decode to |
| PosixPath.JoinPath | powerline/lib/vcs/git.py:30 | an absolute second part replaces the first; otherwise exactly one separator joins them |
| PosixPath.Basename | powerline/lib/vcs/git.py:22 | the base name has no separator and ends the path, just after its last separator |
| PosixPath.NormPathAbsolute | powerline/lib/vcs/git.py:50 | `normpath` is never empty and keeps a path absolute exactly when it was |
| PosixPath.AbsPathAbsolute | powerline/lib/vcs/git.py:41 | `abspath` against an absolute working directory is absolute |
| Common.DivergenceSegmentOf | powerline/segments/common.py:55-76 | no repository gives `None`; a `None` divergence raises. Otherwise the group is `divergence_both`, `_ahead`, `_behind` or `_none`, each exactly when ahead and behind are truthy as named |
| Common.DivergenceSymbols | powerline/segments/common.py:65-72 | each group comes with its symbol: ⬍, ⬆, ⬇ or `-` |
| Common.BranchHighlight | powerline/segments/common.py:93-100 | the list ends in `branch`, and has one entry more when status colours are on |
| Common.BranchSegmentOf | powerline/segments/common.py:89-104 | a segment exactly when there is a repository, and its contents are the branch label |
| Common.BranchHighlightChoice | powerline/segments/common.py:93-100 | `branch_dirty` exactly when the status has a non-whitespace character; a failing `tree_status` counts as dirty; without colours the list is exactly `['branch']` |
| Common.ShortenedPath | powerline/segments/common.py:120-137 | ENOENT gives `[not found]`; another OSError propagates; a found directory always gives a path |
| Common.HomeShortening | powerline/segments/common.py:131-136 | the path is shortened exactly when it starts with a non-empty home, and then `~` stands for that prefix; otherwise it is unchanged |
| Common.HomePrefixNotComponentAware | powerline/segments/common.py:135-136 | a home of `/home/al` shortens `/home/alice` to `~ice` |
| Common.ShortenDir | powerline/segments/common.py:148 | a positive `dir_shorten_len` bounds the length; no length, zero or an empty name leaves the name unchanged |
| Common.ShortenComponents | powerline/segments/common.py:148 | every component but the last is shortened; the last is kept whole |
| Common.RootedComponents | powerline/segments/common.py:146-155 | when the list is not empty, its first component is not empty |
| Common.Entries | powerline/segments/common.py:157-166 | every entry the loop appends has non-empty contents, and there is one when the first component is set |
| Common.AppendEntries | powerline/segments/common.py:157-166 | the loop appends exactly one entry per non-empty component, in order |
| Common.MarkCurrentFolder | powerline/segments/common.py:167-171 | the in-place fix-up of the finished list computes exactly `Finish` |
| Common.CwdSegmentCall | powerline/segments/common.py:139-172 | `__call__` returns exactly the breadcrumb of the shortened path, or the error that `get_shortened_path` or `cwd[0]` raised |
| Common.BreadcrumbShape | powerline/segments/common.py:153-172 | only the last entry carries `['cwd:current_folder','cwd']`; every entry has the `cwd:divider` group, draws inner dividers exactly without separators, and has non-empty contents |
| Common.BreadcrumbFails | powerline/segments/common.py:149-154 | the segment raises exactly when the depth limit is negative, leaves nothing and no ellipsis is inserted |
| Common.BreadcrumbDepth | powerline/segments/common.py:149-152 | a positive depth limit `d` gives at most `d+1` entries |
| Common.BreadcrumbComponents | powerline/segments/common.py:154-166 | without separators or limits the entries are `/` for an absolute path, then the non-empty components in order |
| Common.BreadcrumbRoundTrip | powerline/segments/common.py:146-171 | with separators, concatenating the contents gives the path back, for a path without empty inner components |
| Common.BreadcrumbShortened | powerline/segments/common.py:148 | with `dir_shorten_len` n, every entry but the last has at most n characters, and a non-empty last component is shown whole |
| Common.RoundToFive | powerline/segments/common.py:272 | the minute rounds to a multiple of five at most two away |
| Common.Translate | powerline/segments/common.py:219-222 | the translation keeps the length, leaves no `'` or `-`, and changes no other character |
| Common.FuzzyTimeNearest | powerline/segments/common.py:262-277 | away from the fixed phrases, the phrase names the time of day rounded to five minutes: `o'clock` on the hour, `past` up to the half hour, `to` the next hour after it |
| Common.FuzzyTimeUnicode | powerline/segments/common.py:257-282 | with `unicode_text` the result is the translated ASCII phrase; the fixed phrases are returned as they are |
| Common.FuzzyTimeExamples | powerline/segments/common.py:225-282 | 18:14 gives "quarter past six", 9:58 gives "ten o'clock", 23:59 gives "round about midnight" |
| Common.LetterRun | powerline/segments/common.py:337 | the run of lower-case ASCII letters that opens the name |
| Common.InterfaceStartIsLeastMatch | powerline/segments/common.py:337-340 | the pattern matches exactly when some length of letters is followed by a digit or the end. The match is the shortest such, as `+?` demands, and the digit group holds the following digit if there is one |
| Common.InterfaceKeyRange | powerline/segments/common.py:339-351 | a name that does not match gets 0. A matching one gets its prefix's weight times 100, or 500 for an unknown prefix, less its digit: at most 9 below that base, and equal to it exactly when there is no digit or the digit is 0 |
| Common.InterfaceKeyRanking | powerline/segments/common.py:327-351 | of two matching names, the one with the higher base ranks higher whatever their digits |
| Common.InterfaceKeyExampleEthernet | powerline/segments/common.py:327-351 | `eth0` gets 1000 |
| Common.InterfaceKeyExampleWireless | powerline/segments/common.py:327-351 | `wlan1` gets 899 |
| Common.InterfaceKeyExampleFirstDigit | powerline/segments/common.py:337-351 | `enp2s0` gets 998: only the digit right after the letters counts |
| Common.InterfaceKeyExamplesBare | powerline/segments/common.py:327-351 | `lo` -1000 and `teredo` 100: a known prefix with nothing after it keeps its full base |
| Common.InterfaceKeyExampleUnknown | powerline/segments/common.py:339-351 | `docker0` gets 500, the base of an unknown prefix |
| Common.InterfaceKeyExamplesUnmatched | powerline/segments/common.py:337-351 | `br-lan` and `123` get 0 |
| Common.Decompose | powerline/segments/common.py:822-824 | days·86400 + hours·3600 + minutes·60 + seconds is the input, with hours < 24 and minutes, seconds < 60 |
| Common.Uptime | powerline/segments/common.py:817-831 | `None` exactly when the uptime is not available |
| Common.KeepTruthy | powerline/segments/common.py:825-830 | `filter(None, ...)` keeps no empty string and never lengthens the list |
| Common.RenderNonEmpty | powerline/segments/common.py:825-829 | a non-empty format renders to a non-empty string, so the filter drops only the `None` entries |
| Common.UptimePieceCount | powerline/segments/common.py:825-830 | the number of units shown is the number of non-zero units with non-empty formats, capped by `shorten_len`; a negative `shorten_len` drops that many from the end |
| Common.UptimeText | powerline/segments/common.py:825-831 | with the default formats and room for every unit, the text is the units' words, days first, joined by single spaces |
| Common.UptimeRoundTrip | powerline/segments/common.py:801-831 | with the default formats and room for all four units, the text reads back as the uptime it was given |
| Common.UptimeExampleShortened | powerline/segments/common.py:801-831 | with the default `shorten_len` of 3, 90061 seconds show as `1d 1h 1m` |
| Common.UptimeExampleZeroUnits | powerline/segments/common.py:801-831 | 3605 seconds show as `1h 5s`: zero units leave no gap, and the leading space is stripped |

## Left out

- powerline/listers/vim.py is not part of this model. It adapts the `vim` module, and its only arithmetic is a floating-point priority multiplier.
- Process and library calls are inputs: `readlines`/`_gitcmd` become a list of lines, and pygit2's `Repository`, `status_file` and `status` become flag words. A `KeyError`/`ValueError` from `status_file` is a missing lookup.
- The pygit2 `divergence`/`aheadby_external` pair runs `git log` through a shell and is not modelled. The command-line `divergence` is modelled, as `Git.CliDivergence`.
- The caching and watcher layer (`get_file_status`, `get_branch_name`) owns threads and file watches. Only the arguments `status` and `branch` hand to it are modelled. `create_watcher` is an opaque type parameter.
- `guess(path=...)`, `tree_status`, `segment_info['getcwd']`, `segment_info['home']`, the clock and `_get_uptime` are parameters. The `/proc/uptime` and psutil readings behind `_get_uptime` are not modelled.
- The `pl` logger calls (`warn`, `exception`, `info`) are dropped. Segment dictionaries are datatypes.
- The `add_divider_highlight_group('background:divider')` decorator on `uptime` is not modelled. `Common.Uptime` returns the text.
- `u()` in `get_shortened_path` is not modelled: the working directory and home arrive as strings.
- The file-system encoding is taken to be UTF-8.
- Network, IPC and floating-point segments are not modelled.
- `Common.MatchInterfaceStart`: `\d` matches only the ASCII digits. Python 3's `str` patterns also match other Unicode decimal digits, which `int()` accepts.
- `Common.Uptime`: a format string is literal text plus its one `{name:d}` field. Other fields, which would raise KeyError, and other format specifications are not modelled.
- `Common.UptimeRoundTrip`: stated only for a non-negative uptime and the default formats.
- `branch()` passes the metadata directory, not the working tree, to `branch_name_from_config_file`, so an unreadable `HEAD` is labelled `.git` in a plain checkout (see `Git.GitRepository.BranchFallbackIsMetadataDirectory`).
- `Git.GitDirectory`: built on the intended gitfile parse `Git.GitfilePath`, not on the as-written one, so a gitfile holding exactly `gitdir: ` gives the `no path in gitfile` error rather than line 37's IndexError; `Git.GitRepository.Status` and `Git.GitRepository.Branch` inherit this. The as-written parse is `Git.GitfilePathAsWritten` (see Findings).

## Findings

| source | as written | input that shows it | evidently intended | confidence | as-written member | corrected member |
|---|---|---|---|---|---|---|
| powerline/lib/vcs/git.py:37 | `raw[-1]` is read before the emptiness check | a gitfile holding exactly `gitdir: ` | IOError "no path in gitfile" | not executed | Git.GitfilePathAsWritten | Git.GitfilePath |
| powerline/lib/vcs/git.py:136 | `reduce` is neither a Python 3 builtin nor imported | any repository status query with pygit2 under Python 3 | the OR of all files' flag words | not executed | Git.Pygit2RepoStatusAsWritten | Git.Pygit2RepoStatus |
