# Dotfiles helper scripts, modelled in Dafny

This project models the deterministic core of a set of Python helper scripts
from a personal dotfiles repository and proves properties of that model:

- **GGUF model inspector** (`model-info`): a small binary decoder for the GGUF
  model-file format (a little-endian header, then typed key/value metadata).
  It reads the context length and layer count. Around it sit the cache-file
  finder and the rule that picks which file to read.
- **Override updaters** (`update-overrides`, `update_overrides`): pick the
  latest GitHub release, compare it with the version written in a Nix file,
  rewrite the version, put a placeholder hash in place of the old hash, then
  splice in the real hash that a failed build reports.
- **Git-rewrite hooks** (Claude and Gemini): block `commit --amend`, force
  pushes, and pushes to `main`/`master`.
- **Commit-message generator** (`commit.py`): the Conventional Commits header
  and body layout, and the git command lines it builds.
- **Zellij tab renamer**: name cleaning, session-list parsing, screen
  trimming, and the visit/rename/return action sequence.
- **Package size reports** (two marginal-cost reports and `package-sizes`):
  the package-list walks over a Nix syntax tree, the baseline closure, the
  marginal set difference, the stable descending sort and the size buckets.
- **Claude status line**: the lazy reading of the JSON input, the context
  percentage and the cost segment.
- **Model cache tools** (`cleanup_models`, `download_models`,
  `ai/download-models`): the repositories and projector files a llama-swap
  configuration uses, the unused cache files, and the download-check commands.

Binary files are `seq<byte>` read through a `Reader` class with a cursor.
Python strings are `seq<char>`, with ASCII-only character classes.
Subprocesses, HTTP requests, the file system, regular expressions that are
not written out by hand, and the language models are parameters of the
functions that use them.

One Dafny module covers each script, plus these shared modules:

- `Text`: Python string built-ins;
- `JsonValue`: decoded JSON;
- `GitPatterns`: the hooks' regular expressions, written out by hand;
- `OverrideText`, `Scanning`, `HashFields`, `Releases`: regex substitution, repeated search, the hash patterns and release tags;
- `SizeReport`: sorting, buckets and size formatting;
- `PackageTree`: the Nix syntax tree.

## Model

| member | source | states |
|---|---|---|
| GgufFormat.ReadUintAt | configs/nixos/scripts/ai/model-info.py:88-90 | an unsigned little-endian read succeeds exactly when `width` bytes remain, and its value is below 256^width |
| GgufFormat.ReadStringAt | configs/nixos/scripts/ai/model-info.py:28-36 | end of file exactly when no byte is left; a failure exactly when 1 to 7 length bytes are left or the length is 2^63 or more (where `f.read` raises `OverflowError`); otherwise the text is the bytes after the length field, the announced length of them unless the data ends first, and the cursor lies after them |
| GgufFormat.OverlongValueRaises | configs/nixos/scripts/ai/model-info.py:28-39 | a string value announcing 2^63 bytes or more makes `skip_value` raise, so its loop round fails and the whole walk gives nothing |
| GgufFormat.ScalarCases | configs/nixos/scripts/ai/model-info.py:67-78 | 32-bit types fail exactly when fewer than 4 bytes remain and move by 4; 64-bit types likewise with 8; any other type is skipped and yields no value |
| GgufFormat.UnknownTypeRaises | configs/nixos/scripts/ai/model-info.py:61-64 | a type tag above FLOAT64 makes both skipping and scalar reading fail |
| GgufFormat.ArchitectureKeys | configs/nixos/scripts/ai/model-info.py:102-108 | `<arch>.context_length` and `<arch>.context_length_train` are context keys (only the second ends in `_train`); `<arch>.block_count` is a layer key |
| GgufFormat.TrainContextIgnored | configs/nixos/scripts/ai/model-info.py:116-123 | when a non-train and a train context key are both present, the non-train value is the context |
| GgufFormat.ContextPolicy | configs/nixos/scripts/ai/model-info.py:116-123 | the context is the largest non-train value when one exists, else the largest value of all; it is missing exactly when no candidate was read |
| GgufFormat.LayerPolicy | configs/nixos/scripts/ai/model-info.py:126-129 | the layer count is the largest block-count value read, and is missing exactly when none was read |
| GgufFormat.MaxValue | configs/nixos/scripts/ai/model-info.py:121 | `max(d.values())` is one of the values and no value exceeds it |
| GgufFormat.WalkAtEnd | configs/nixos/scripts/ai/model-info.py:95-98 | at the end of the data the key/value loop stops and keeps the candidates found so far |
| GgufEncoding.LeRoundTrip | configs/nixos/scripts/ai/model-info.py:32 | decoding the little-endian encoding of a number below 256^width gives the number back |
| GgufEncoding.SkipEncoded | configs/nixos/scripts/ai/model-info.py:39-64 | skipping an encoded value of its own type lands exactly after its encoding |
| GgufEncoding.SkipArrayEncoded | configs/nixos/scripts/ai/model-info.py:42-46 | an encoded array (element type, count, elements) is skipped exactly to its end |
| GgufEncoding.FixedElements | configs/nixos/scripts/ai/model-info.py:45-46 | skipping `count` fixed-width elements moves by count × width, without bounds checks, as `seek` does |
| GgufEncoding.ArrayWidth | configs/nixos/scripts/ai/model-info.py:42-46 | an array of a fixed-width type is skipped by 12 + count × width |
| GgufEncoding.StringEncoded | configs/nixos/scripts/ai/model-info.py:28-36 | a length-prefixed string reads back as its bytes, and skipping it lands after it |
| GgufEncoding.ScalarEncoded | configs/nixos/scripts/ai/model-info.py:67-78 | reading an encoded value as a scalar returns the integer of 32/64-bit types and none for the rest, moving past the encoding |
| GgufEncoding.LastEntryWins | configs/nixos/scripts/ai/model-info.py:102-113 | a later context or block-count entry overwrites that key's candidate; any other key leaves the candidates unchanged |
| GgufEncoding.EntryEncoded | configs/nixos/scripts/ai/model-info.py:95-113 | one loop round over an encoded entry moves past it and adds exactly its contribution |
| GgufEncoding.WalkEncoded | configs/nixos/scripts/ai/model-info.py:95-113 | walking encoded entries that end the file, with a large enough count, collects exactly their contributions, in order |
| GgufEncoding.WalkEncodedTail | configs/nixos/scripts/ai/model-info.py:95-113 | walking exactly as many encoded entries as declared collects exactly their contributions, whatever bytes follow them |
| GgufEncoding.ReadEncodedFile | configs/nixos/scripts/ai/model-info.py:81-135 | reading an encoded GGUF file that ends after its entries gives the context and layers resolved from its entries and the tensor count from its header, even when the header declares more entries |
| GgufEncoding.ReadEncodedFileTail | configs/nixos/scripts/ai/model-info.py:81-135 | the same result for a header that declares exactly its entries followed by any bytes, such as tensor infos and tensor data |
| GgufEncoding.WalkOverlong | configs/nixos/scripts/ai/model-info.py:95-113 | well-formed entries followed by a string value announcing 2^63 bytes or more make the walk raise |
| GgufEncoding.OverlongStringFile | configs/nixos/scripts/ai/model-info.py:81-139 | a file whose entries are followed by a string value announcing 2^63 bytes or more, whatever came before, has no information |
| GgufEncoding.HeaderRead | configs/nixos/scripts/ai/model-info.py:84-90 | with the magic and a full 24-byte header, the result is the resolution of the entry walk that starts at byte 24 |
| GgufEncoding.BadMagic | configs/nixos/scripts/ai/model-info.py:84-86 | a file not starting with `GGUF` yields no information |
| GgufEncoding.TruncatedHeader | configs/nixos/scripts/ai/model-info.py:88-90 | a file shorter than the 24-byte header yields no information |
| GgufReader.Reader.constructor | configs/nixos/scripts/ai/model-info.py:83 | a freshly opened file is positioned at byte 0 |
| GgufReader.Reader.Read | configs/nixos/scripts/ai/model-info.py:29 | `f.read(n)` raises, moving nothing, exactly when `n` is 2^63 or more; otherwise it returns the available bytes, at most `n`, and advances by their number |
| GgufReader.Reader.Skip | configs/nixos/scripts/ai/model-info.py:62 | `f.seek(n, 1)` advances by `n`, even past the end |
| GgufReader.Unpack | configs/nixos/scripts/ai/model-info.py:89-90 | `struct.unpack` on a read of `width` bytes agrees with ReadUintAt and advances by the width on success |
| GgufReader.ReadString | configs/nixos/scripts/ai/model-info.py:28-36 | agrees with ReadStringAt, the overlong-length failure included; leaves the cursor in place at end of file and after the text on success |
| GgufReader.SkipValue | configs/nixos/scripts/ai/model-info.py:39-64 | succeeds exactly when SkipAt does, and then lands where SkipAt says |
| GgufReader.SkipArray | configs/nixos/scripts/ai/model-info.py:42-46 | the element loop of an array agrees with SkipAt on the array type |
| GgufReader.ReadValueScalar | configs/nixos/scripts/ai/model-info.py:67-78 | agrees with ReadScalarAt, cursor included |
| GgufReader.ReadEntry | configs/nixos/scripts/ai/model-info.py:96-113 | one loop round agrees with RoundAt on the candidates so far |
| GgufReader.ReadGgufInfo | configs/nixos/scripts/ai/model-info.py:81-139 | the imperative reader returns exactly ReadInfo of the file's bytes, so nothing for an overlong string as well |
| GgufReader.HeaderFields | configs/nixos/scripts/ai/model-info.py:84-90 | once the magic and both counts are read, the file has a full header and the result is the walk from byte 24 |
| GgufReader.RoundFailedWalk | configs/nixos/scripts/ai/model-info.py:137-139 | any modelled failure inside the loop (short read, overlong string, unknown type) makes the whole read return nothing |
| ModelInfo.SplitQuery | configs/nixos/scripts/ai/model-info.py:146-150 | a query without `:` is all repository; otherwise it splits at the first `:` and the parts join back to the query |
| ModelInfo.GlobResult | configs/nixos/scripts/ai/model-info.py:152-155 | the candidates are exactly the cache directory joined to the listed names that contain the repository, `/` turned into `_` |
| ModelInfo.ValidFilesExactly | configs/nixos/scripts/ai/model-info.py:157-166 | a file is kept exactly when it is a candidate that is not metadata or an unfinished download and that passes the tag filter |
| ModelInfo.ValidFilesShorter | configs/nixos/scripts/ai/model-info.py:157-166 | the filter never adds files, and keeps all of them when all pass |
| ModelInfo.TagSeesCacheDirectory | configs/nixos/scripts/ai/model-info.py:163 | the tag is looked for in the whole path, so a tag that occurs in the cache directory keeps every file |
| ModelInfo.FindFiles | configs/nixos/scripts/ai/model-info.py:142-168 | an existing file is returned alone; otherwise the filtered glob candidates of the repository part, with the tag part as filter |
| ModelInfo.FirstPlain | configs/nixos/scripts/ai/model-info.py:207-210 | the index of the first `.gguf` that is neither a projector nor a split, or none when there is no such file |
| ModelInfo.LastShard | configs/nixos/scripts/ai/model-info.py:211-212 | the index of the last `00001-of-` file, or none when there is none |
| ModelInfo.MainFilePreferred | configs/nixos/scripts/ai/model-info.py:206-212 | the main file is one of the files: the first plain model if any; else the last first shard if any; else the first file |
| ModelInfo.SelectMainFile | configs/nixos/scripts/ai/model-info.py:206-212 | the loop with its early `break` selects exactly MainFile |
| ModelInfo.RepoName | configs/nixos/scripts/ai/model-info.py:193-197 | a repository name exists exactly when the query is not an existing path, and it is the part before the first `:` |
| ModelInfo.DateText | configs/nixos/scripts/ai/model-info.py:221-226 | anything other than `????` is the fetched creation date of a non-empty repository name, and a non-empty fetched date is always shown |
| ModelInfo.CtxTextReadsBack | configs/nixos/scripts/ai/model-info.py:228 | a non-zero context of at most 4300 digits prints as digits that parse back to it; a missing or zero context prints `????` |
| ModelInfo.LayersTextReadsBack | configs/nixos/scripts/ai/model-info.py:229 | a layer count of at most 4300 digits, zero included, prints as digits that parse back to it; `?` exactly when it is missing |
| ModelInfo.Run | configs/nixos/scripts/ai/model-info.py:185-234 | usage exactly when no argument is given; "no files" exactly when FindFiles is empty; otherwise the summary line built from MainFile's header and the date rule |
| UpdateOverrides.PackageTable | configs/nixos/scripts/ai/update-overrides.py:32-63 | three packages: only ollama is semver and has two hashes; only llama-swap has its version twice in the URL |
| UpdateOverrides.AllSome | configs/nixos/scripts/ai/update-overrides.py:69-72 | the tuple exists exactly when every piece parses, and then holds their values |
| UpdateOverrides.ParseSemverOfVersionText | configs/nixos/scripts/ai/update-overrides.py:66-72 | the dotted text of a version whose numbers have at most 4300 digits, with or without a leading `v`, parses back to that version |
| UpdateOverrides.LongComponentSkipped | configs/nixos/scripts/ai/update-overrides.py:66-72 | a tag with a component of more than 4300 digits does not parse (`int()` raises `ValueError`), so it is no candidate |
| UpdateOverrides.TupleLessIsLex | configs/nixos/scripts/ai/update-overrides.py:94 | Python's tuple `<` is the lexicographic order in which a proper prefix is smaller |
| UpdateOverrides.TupleLessTransitive | configs/nixos/scripts/ai/update-overrides.py:94 | tuple order is transitive |
| UpdateOverrides.TupleLessIrreflexive | configs/nixos/scripts/ai/update-overrides.py:94 | no tuple is below itself |
| UpdateOverrides.TupleLessTotal | configs/nixos/scripts/ai/update-overrides.py:94 | of two different tuples, one is below the other |
| UpdateOverrides.BestOfIsLargest | configs/nixos/scripts/ai/update-overrides.py:86-96 | the selected version is not below any candidate; when text is selected it is a candidate's text and above (0,0,0), otherwise nothing beat (0,0,0) |
| UpdateOverrides.LatestSemver | configs/nixos/scripts/ai/update-overrides.py:86-96 | the loop selects exactly BestOf over the candidates |
| UpdateOverrides.GetLatestRelease | configs/nixos/scripts/ai/update-overrides.py:75-107 | selects exactly LatestRelease for the package; a failed request gives none |
| UpdateOverrides.LatestSemverIsLargest | configs/nixos/scripts/ai/update-overrides.py:86-96 | none exactly when no candidate is above (0,0,0); otherwise the text of a candidate whose tuple nothing exceeds |
| UpdateOverrides.LatestIntegerIsLargest | configs/nixos/scripts/ai/update-overrides.py:97-107 | none exactly when no tag number is positive; otherwise the decimal text of the largest tag number, which some release has |
| UpdateOverrides.CompareWrittenSemvers | configs/nixos/scripts/ai/update-overrides.py:110-114 | comparing two dotted versions of numbers of at most 4300 digits is tuple order on their numbers |
| UpdateOverrides.CompareWrittenIntegers | configs/nixos/scripts/ai/update-overrides.py:110-114 | comparing two decimal versions of at most 4300 digits is integer `<` |
| UpdateOverrides.ReplaceHashesInBlock | configs/nixos/scripts/ai/update-overrides.py:117-126 | the search-and-splice loop computes exactly ReplaceHashes |
| UpdateOverrides.ReplaceHashesSwapsValues | configs/nixos/scripts/ai/update-overrides.py:117-126 | the text splits into gaps and at most `count` hash values after `start`; the result keeps the text before `start` and every gap, with the placeholder in place of each value |
| UpdateOverrides.UpdateVersion | configs/nixos/scripts/ai/update-overrides.py:129-163 | no update leaves the text alone; an update happens exactly when the pattern matches, a latest exists and it compares newer; an unparsable version raises; an update rewrites every version match, then replaces hashes from the first match's start |
| UpdateOverrides.ResolveHashes | configs/nixos/scripts/ai/update-overrides.py:186-202 | the build loop computes exactly Resolve: it stops with exit status 1 at the first build that reports no hash |
| UpdateOverrides.ReplaceFirstDummy | configs/nixos/scripts/ai/update-overrides.py:198 | `replace(DUMMY_HASH, h, 1)` replaces the first placeholder and nothing else |
| UpdateOverrides.ResolveOneHash | configs/nixos/scripts/ai/update-overrides.py:188-199 | for one hash: a reported hash takes the placeholder's place; otherwise the run fails with the text unchanged |
| Releases.Unprefixed | configs/nixos/scripts/update_overrides.py:27-30 | a tag has an unprefixed part exactly when it starts with the prefix, and prefix + part is the tag |
| Releases.MaxTagNumberIsLargest | configs/nixos/scripts/update_overrides.py:24-39 | no tag number exceeds the maximum; a non-zero maximum is some release's number; the maximum is 0 exactly when no number is positive |
| Releases.MaxTag | configs/nixos/scripts/update_overrides.py:24-38 | the loop computes exactly MaxTagNumber |
| Releases.LongTagSkipped | configs/nixos/scripts/update_overrides.py:34-38 | a tag number of more than 4300 digits makes `int()` raise `ValueError`, so the tag is skipped |
| Releases.MaxTagNumberReadsBack | configs/nixos/scripts/update_overrides.py:39 | the maximum is 0 or a parsed tag number, so `str(max_ver)` does not raise and reads back as the maximum |
| UpdateLlama.LatestTag | configs/nixos/scripts/update_overrides.py:14-39 | none exactly when the request failed; otherwise non-empty decimal text of the largest tag number (`"0"` when none parse) |
| UpdateLlama.GetLatestGithubRelease | configs/nixos/scripts/update_overrides.py:14-39 | the method computes exactly LatestTag |
| UpdateLlama.LatestTagIsLargest | configs/nixos/scripts/update_overrides.py:24-39 | the result is `"0"` exactly when no tag number is positive, and no tag number exceeds it |
| UpdateLlama.PlaceDummyPutsPlaceholder | configs/nixos/scripts/update_overrides.py:70-90 | when a hash field follows `from`, its value (possibly empty) is replaced by the placeholder and the text around it is kept |
| UpdateLlama.EmptyValueAccepted | configs/nixos/scripts/update_overrides.py:70 | `hash = "";` matches with an empty value |
| UpdateLlama.UpdateLlamaCpp | configs/nixos/scripts/update_overrides.py:42-92 | an unparsable current version raises; the text is unchanged unless the version matches, the request succeeds and latest is newer; then the version digits become latest and the first hash after the old match's end becomes the placeholder; with no such hash the original text is kept |
| UpdateLlama.UpdateLlamaSwap | configs/nixos/scripts/update_overrides.py:95-152 | as UpdateLlamaCpp, with both URL captures rewritten and the hash searched after the rewritten URL; a rewritten text with no URL match raises |
| UpdateLlama.SwapKeepsContent | configs/nixos/scripts/update_overrides.py:103-124 | no URL match, a failed request or an up-to-date version leave the text unchanged |
| UpdateLlama.FillHash | configs/nixos/scripts/update_overrides.py:193-203 | the fill fails exactly when the build output names no hash |
| UpdateLlama.FillHashReplacesPlaceholder | configs/nixos/scripts/update_overrides.py:196-198 | every placeholder is replaced by the reported hash |
| UpdateLlama.Main | configs/nixos/scripts/update_overrides.py:180-220 | a missing file exits with 1 and stays missing; an exit with 1 after an update leaves the placeholder in the file |
| UpdateLlama.CppUpdateHoldsPlaceholder | configs/nixos/scripts/update_overrides.py:189-192 | the text written after a llama-cpp update holds the placeholder |
| UpdateLlama.SwapUpdateHoldsPlaceholder | configs/nixos/scripts/update_overrides.py:207-209 | the text written after a llama-swap update holds the placeholder |
| UpdateLlama.MainWithoutUpdates | configs/nixos/scripts/update_overrides.py:180-220 | when neither package is behind, the file is left as it was and the script finishes |
| OverrideText.SubReplacesVersions | configs/nixos/scripts/ai/update-overrides.py:153-158 | `re.sub` with the `\g<1>latest\g<3>` template (or the five-group one) equals putting latest into every version capture |
| OverrideText.SpliceKeepsGaps | configs/nixos/scripts/ai/update-overrides.py:153-158 | splicing keeps all text between the replaced regions and puts the replacement between them |
| OverrideText.VersionSpans | configs/nixos/scripts/ai/update-overrides.py:153-158 | the version captures of successive matches are ordered, non-overlapping regions |
| OverrideText.VersionTemplate | configs/nixos/scripts/ai/update-overrides.py:155-158 | the template only refers to groups the pattern has |
| OverrideText.ExpandTwice | configs/nixos/scripts/ai/update-overrides.py:154-156 | the llama-swap template keeps groups 1, 3 and 5 and puts latest in groups 2 and 4 |
| OverrideText.DummyFirstAt | configs/nixos/scripts/ai/update-overrides.py:198 | in text with no placeholder before `a + DUMMY + b`, the first placeholder is at `len(a)` |
| Scanning.Scan | configs/nixos/scripts/ai/update-overrides.py:122 | `pattern.search(s, pos)` reports a region inside the text at or after `pos` |
| Scanning.ScanNoneIffNoMatch | configs/nixos/scripts/ai/update-overrides.py:122 | the search fails exactly when no position from `pos` on matches |
| Scanning.ScanFindsFirstMatch | configs/nixos/scripts/ai/update-overrides.py:122 | the search reports the match at the leftmost matching position |
| Scanning.ReplaceFirstCapture | configs/nixos/scripts/update_overrides.py:71-90 | splicing the first match after `pos`: none exactly when nothing matches; otherwise the first match's capture replaced and the rest kept |
| Scanning.ReplaceCapturesLoop | configs/nixos/scripts/ai/update-overrides.py:120-126 | the loop that searches again after each replacement computes exactly ReplaceCaptures |
| Scanning.ReplaceCapturesSwaps | configs/nixos/scripts/ai/update-overrides.py:117-126 | the result is the text before `start` followed by the gaps joined by the replacement; the original is those gaps woven with at most `count` captures |
| HashFields.FieldAtFront | configs/nixos/scripts/ai/update-overrides.py:119 | a match of `(vendor)?[Hh]ash = "sha256-…";` reports a region holding a `sha256-` value without quotes |
| HashFields.LazyAtFront | configs/nixos/scripts/update_overrides.py:70 | a match of the lazy hash pattern reports the shortest value up to `";` within the line, possibly empty |
| HashFields.GotAtFront | configs/nixos/scripts/ai/update-overrides.py:179 | a `got:` line reports a non-empty `sha256-` word after at least one blank |
| HashFields.Search | configs/nixos/scripts/ai/update-overrides.py:122 | a reported hash value lies at or after the start position and satisfies the pattern |
| HashFields.NewHash | configs/nixos/scripts/ai/update-overrides.py:166-183 | a hash read from the build output is a `sha256-` word |
| CommitMessage.Header | scripts/commit.py:99-100 | the header starts with the commit type and ends with `: ` and the subject |
| CommitMessage.HeaderReadsBack | scripts/commit.py:99-100 | the header parses back to the type, the scope when it is non-empty, and the subject |
| CommitMessage.ToMessage | scripts/commit.py:93-110 | the message starts with the header |
| CommitMessage.MessageReadsBack | scripts/commit.py:93-110 | the message parses back to the header and the formatted body, which is absent exactly when the body is empty or missing |
| CommitMessage.MessageLayout | scripts/commit.py:102-110 | with a body, the message is header, a blank line, then the stripped body with every `". "` turned into `".\n"`, and no `". "` remains |
| CommitMessage.FormatBodyReplaces | scripts/commit.py:106-108 | replacing line by line and rejoining equals replacing in the whole stripped body |
| CommitMessage.JoinBreaks | scripts/commit.py:106-108 | splitting at line breaks, replacing, and joining again is one replacement over the joined text |
| CommitMessage.NoSentenceEndLeft | scripts/commit.py:107 | after the replacement no `". "` is left |
| CommitMessage.BreakSentences | scripts/commit.py:107 | each line is replaced independently, and the line count is kept |
| CommitMessage.DiffCommand | scripts/commit.py:176-181 | `git diff` with `--staged` exactly when not all changes are wanted, ending in the submodule and raw-patch options |
| CommitMessage.CommitCommand | scripts/commit.py:286-289 | `git commit` with `-a` exactly when all changes are wanted, ending in `-F -` |
| CommitMessage.EditCommand | scripts/commit.py:330-333 | `git commit --edit --verbose`, `-a` exactly when all changes are wanted, ending in `--file=<path>` |
| CommitMessage.Instructions | scripts/commit.py:203-209 | the instructions start with the fixed text, are only that text exactly when no custom prompt is given, and otherwise append the prompt after the fixed lead |
| CommitMessage.AfterDiff | scripts/commit.py:241-255 | a failed diff exits with 1; a blank diff ends with the staged/tracked notice; otherwise the diff is passed on as it is |
| ZellijTabs.CleanName | scripts/zellij-rename-tabs.py:188 | a cleaned name has at most 20 characters, no space and no upper-case letter |
| ZellijTabs.CleanNameKeepsClean | scripts/zellij-rename-tabs.py:188 | an already clean name of at most 20 characters is unchanged |
| ZellijTabs.SingleTabName | scripts/zellij-rename-tabs.py:194-227 | the name is never empty, is `shell` for a blank screen or a failed model call, and is otherwise the cleaned reply, `shell` when that is empty |
| ZellijTabs.ValidateTabCount | scripts/zellij-rename-tabs.py:176-189 | a retry exactly when the count is wrong, with the count message; otherwise every name cleaned, in order |
| ZellijTabs.ValidatedNamesAreClean | scripts/zellij-rename-tabs.py:181-189 | names that pass validation number exactly `expected`, each at most 20 characters and without spaces |
| ZellijTabs.FallbackNames | scripts/zellij-rename-tabs.py:297 | the i-th fallback name is `tab-<i+1>` |
| ZellijTabs.FallbackNamesDistinct | scripts/zellij-rename-tabs.py:297 | fallback names are pairwise distinct |
| ZellijTabs.ChosenNames | scripts/zellij-rename-tabs.py:282-297 | one name per tab: the validated reply, or the fallback names when the model fails |
| ZellijTabs.EscapeLength | scripts/zellij-rename-tabs.py:119 | an escape sequence found is `ESC [`, digits and semicolons, then `m` |
| ZellijTabs.RemoveAnsiPlain | scripts/zellij-rename-tabs.py:119 | text without ESC is unchanged |
| ZellijTabs.RemoveAnsiDropsColour | scripts/zellij-rename-tabs.py:119 | a leading colour sequence is removed entirely |
| ZellijTabs.KeptLines | scripts/zellij-rename-tabs.py:116 | every kept line is non-empty and does not mention `EXITED` |
| ZellijTabs.SessionNames | scripts/zellij-rename-tabs.py:115-120 | a result exactly when every kept line has a first word; then one name per kept line, the first word without colour codes |
| ZellijTabs.ExitedLinesIgnored | scripts/zellij-rename-tabs.py:116 | an empty or EXITED line does not change the session list |
| ZellijTabs.ActiveSessions | scripts/zellij-rename-tabs.py:104-123 | no session when `zellij` cannot run; otherwise the session names of the stripped output's lines |
| ZellijTabs.SessionsStayFailed | scripts/zellij-rename-tabs.py:118 | once a kept line without words raises, the whole listing fails |
| ZellijTabs.ChooseSession | scripts/zellij-rename-tabs.py:337-355 | an explicit session wins; inside Zellij the current session is used; otherwise exactly one active session is used, and none or several end with their error messages |
| ZellijTabs.TabCount | scripts/zellij-rename-tabs.py:142-147 | zero exactly for empty output; otherwise one more than the line breaks of the stripped output |
| ZellijTabs.DumpScreen | scripts/zellij-rename-tabs.py:126-137 | empty when the dump fails; otherwise the lines are the last 30 lines of the stripped dump |
| ZellijTabs.DumpScreenBounded | scripts/zellij-rename-tabs.py:134 | a dumped screen has fewer than 30 line breaks |
| ZellijTabs.MarkedTab | scripts/zellij-rename-tabs.py:244-254 | the original tab is the last tab whose screen shows the marker, or tab 1 when none does |
| ZellijTabs.CollectScreens | scripts/zellij-rename-tabs.py:244-254 | the loop visits tabs 1..n in order, collects their screens, and finds MarkedTab |
| ZellijTabs.ApplyNames | scripts/zellij-rename-tabs.py:301-304 | for tab i: go to tab i, then rename it to the i-th name |
| ZellijTabs.RenameAllTabs | scripts/zellij-rename-tabs.py:230-308 | fails exactly when no tab is reported; otherwise visits all tabs, returns to the original one, renames every tab with ChosenNames, and returns again |
| ClaudeHook.FirstMatch | configs/claude/hooks/block-git-rewrites.py:81-84 | none exactly when no pattern matches; otherwise the message of the first matching pattern |
| ClaudeHook.CheckPatterns | configs/claude/hooks/block-git-rewrites.py:81-84 | the pattern loop gives exactly FirstMatch over the four patterns |
| ClaudeHook.PatternsAreRewrites | configs/claude/hooks/block-git-rewrites.py:10-18 | some pattern matches exactly when the command amends a commit or force-pushes |
| ClaudeHook.WithLeaseReportedAsForce | configs/claude/hooks/block-git-rewrites.py:12-17 | a `--force-with-lease` push is reported with the `--force` message, because that pattern comes first |
| ClaudeHook.CommandPolicy | configs/claude/hooks/block-git-rewrites.py:80-92 | exit status 2 exactly when the command rewrites history or pushes to a protected branch, and 0 otherwise |
| ClaudeHook.Run | configs/claude/hooks/block-git-rewrites.py:67-92 | invalid JSON exits with 1 and the decoder's message; a non-object input or `tool_input` crashes; a non-Bash tool or a falsy command exits with 0; a truthy non-string command crashes; a Bash command string gets CommandPolicy |
| ClaudeHook.HooksAgree | configs/claude/hooks/block-git-rewrites.py:80-90 | the Claude hook blocks a command exactly when the Gemini hook denies it |
| GeminiHook.DenyWith | configs/gemini/hooks/block-git-rewrites.py:62-70 | a denial carries the reason and the system message `🚫 Blocked: <reason>` |
| GeminiHook.ShellCommand | configs/gemini/hooks/block-git-rewrites.py:84-96 | a command is checked only for a shell tool and a non-empty command |
| GeminiHook.HookPolicy | configs/gemini/hooks/block-git-rewrites.py:78-114 | silent exactly on a terminal; malformed input and other tools are allowed; a rewrite is denied with the rewrite reason; a command without `git push` is allowed; every denial has the matching system message |
| GeminiHook.OtherToolsAllowed | configs/gemini/hooks/block-git-rewrites.py:89-91 | a tool other than the shell tool is allowed |
| GitPatterns.WithLeaseIsForce | configs/claude/hooks/block-git-rewrites.py:12-17 | every command matching the `--force-with-lease` pattern also matches the `--force` pattern |
| GitPatterns.PushLineFrom | configs/gemini/hooks/block-git-rewrites.py:46 | the leftmost `git push` whose rest of line reaches the end of the text, or none when there is none |
| GitPatterns.PushArgs | configs/gemini/hooks/block-git-rewrites.py:46-48 | the captured rest has no line break and is the tail of the text, without a final line break |
| GitPatterns.FlagMatch | configs/gemini/hooks/block-git-rewrites.py:50 | a flag match starts with blanks and then `-`, and covers at least two characters |
| GitPatterns.DropFlagsShortens | configs/gemini/hooks/block-git-rewrites.py:50 | removing flags never lengthens the text, and leaves text without `-` alone |
| GitPatterns.FirstNamed | configs/gemini/hooks/block-git-rewrites.py:41-43 | the first branch, in iteration order, that a push names as a word, or none when the push names none |
| GitPatterns.ProtectedPushPolicy | configs/gemini/hooks/block-git-rewrites.py:35-59 | an error needs a `git push`; a push naming the first or second branch is refused with that branch's message; without a named branch the error is exactly a bare push while on a protected branch, with the "while on" message |
| GitPatterns.NamingIsPushing | configs/gemini/hooks/block-git-rewrites.py:42 | naming a branch after `git push` implies a `git push` |
| GitPatterns.OrderIrrelevantForOneBranch | configs/gemini/hooks/block-git-rewrites.py:41-43 | the set's iteration order only matters when both branches are named |
| StatusLine.UsageOf | configs/claude/statusline.py:69 | `CurrentUsage(**d)` succeeds exactly for an object with known keys, and keeps each given count, 0 for missing ones, whatever its type |
| StatusLine.WindowOf | configs/claude/statusline.py:66-80 | no window exactly when it is absent or empty; a crash for a non-object window or a truthy usage that is not a proper usage object; otherwise the size is the given one (0 when missing) |
| StatusLine.ParseInput | configs/claude/statusline.py:65-93 | a status only when all top-level keys are present and each nested object fits its class; the project directory, the cost and the window come from the input |
| StatusLine.ParseKeepsNullCounts | configs/claude/statusline.py:69 | a `null` count does not stop parsing, since nothing is checked there |
| StatusLine.Number | configs/claude/statusline.py:147-156 | only integers and booleans take part in the arithmetic, booleans as 0/1 |
| StatusLine.TokensFail | configs/claude/statusline.py:146-153 | the token sum fails exactly when one of the summed counts is not a number; output tokens do not count when a usage exists |
| StatusLine.TokensIgnoreOutput | configs/claude/statusline.py:147-151 | with a current usage, output and total counts do not affect the sum |
| StatusLine.Percent | configs/claude/statusline.py:144-156 | a crash exactly when a window exists and its size is not a number, or the size is positive and the sum fails; shown exactly for a positive size and a positive sum; the percentage is the floor of tokens×100/size |
| StatusLine.EmptyWindowIgnoresCounts | configs/claude/statusline.py:144 | a zero size hides the segment whatever the counts are |
| StatusLine.PercentNotClamped | configs/claude/statusline.py:156 | the percentage is not clamped: 2001 tokens (a `true` count adds 1) in a window of 1000 show 200 |
| StatusLine.PercentBounds | configs/claude/statusline.py:155-156 | the percentage is at least 1 exactly when tokens×100 ≥ size, and a full window shows 100 |
| StatusLine.ContextInfo | configs/claude/statusline.py:143-157 | none exactly on a crash; empty exactly when hidden; otherwise ends with the percentage, `%` and the reset code |
| StatusLine.ContextInfoShown | configs/claude/statusline.py:156-157 | the shown segment is the magenta chart icon, the percentage (tokens×100 // size) and `%` |
| StatusLine.CostInfo | configs/claude/statusline.py:160-162 | a crash exactly when the cost is not a number; empty for a cost ≤ 0; otherwise it ends with the amount to two decimals and the reset code |
| StatusLine.RepoName | configs/claude/statusline.py:98-109 | from a successful `get-url`: the last path part without `.git`; otherwise the base name of the project directory; never contains `/` |
| StatusLine.Branch | configs/claude/statusline.py:111-120 | `@` and the stripped branch when git ran and printed one; otherwise empty |
| StatusLine.Hostname | configs/claude/statusline.py:123 | the node name up to its first `.` |
| StatusLine.Render | configs/claude/statusline.py:96-166 | the line fails exactly when parsing, the context segment or the cost segment fails; otherwise it has the repository, branch, host, folder, context and cost parts |
| StatusLine.RepoAndBranch | configs/claude/statusline.py:98-120 | the git block gives exactly RepoName and Branch |
| StatusLine.ContextPart | configs/claude/statusline.py:143-157 | the step-by-step computation gives exactly ContextInfo |
| PackageTree.KindOf | configs/nixos/scripts/nix/package-marginal-cost.py:42-65 | a node type name maps to a kind whose type name it is; `OtherKind` never carries one of the six names the walks compare with |
| PackageTree.ExtractBasePkg | configs/nixos/scripts/nix/package-marginal-cost.py:40-50 | a base name only for a call whose first child chain is select, variable, identifier, and then it is an identifier of the call |
| PackageTree.BaseOfSelectCall | configs/nixos/scripts/nix/package-marginal-cost.py:40-50 | `base.attr args` reports `base`, whatever the arguments are |
| PackageTree.RemoveSkipped | configs/nixos/scripts/nix/package-marginal-cost.py:72-73 | no skip word survives the filter |
| PackageTree.RemoveSkippedCounts | configs/nixos/scripts/package-marginal-cost.py:71-72 | every other name keeps all its duplicates |
| PackageTree.RemoveSkippedAppend | configs/nixos/scripts/package-marginal-cost.py:72 | the filter keeps the walk's order |
| NixPackageWalk.ParsePackages | configs/nixos/scripts/nix/package-marginal-cost.py:52-73 | no reported name is a skip word |
| NixPackageWalk.NoListNoNames | configs/nixos/scripts/nix/package-marginal-cost.py:52-70 | a tree without a list expression yields no names |
| NixPackageWalk.CollectedAreIdentifiers | configs/nixos/scripts/nix/package-marginal-cost.py:52-70 | every yielded name is the text of an identifier in the tree |
| NixPackageWalk.VarsCollected | configs/nixos/scripts/nix/package-marginal-cost.py:58-61 | list elements that are plain variables yield their names in order |
| NixPackageWalk.PlainListAsWritten | configs/nixos/scripts/nix/package-marginal-cost.py:54-61 | a list of plain variables yields exactly its names |
| PackageWalk.PackageCollector.constructor | configs/nixos/scripts/package-marginal-cost.py:37 | the packages list starts empty |
| PackageWalk.PackageCollector.Extract | configs/nixos/scripts/package-marginal-cost.py:39-66 | the recursive walk appends exactly Identifiers of the node to the list |
| PackageWalk.PackageCollector.ExtractAll | configs/nixos/scripts/package-marginal-cost.py:42-47 | visiting children in order appends their identifiers in order |
| PackageWalk.ParsePackages | configs/nixos/scripts/package-marginal-cost.py:68-74 | the result is the walk's names with the keywords removed |
| PackageWalk.NoListNoNames | configs/nixos/scripts/package-marginal-cost.py:39-66 | outside any list nothing is appended |
| PackageWalk.InListCollectsAll | configs/nixos/scripts/package-marginal-cost.py:48-50 | inside a list, a tree without calls yields every identifier in it |
| PackageWalk.CallArgumentsSkipped | configs/nixos/scripts/package-marginal-cost.py:51-63 | a `base.attr args` element yields only `base` |
| PackageWalk.NewerWithinOlder | configs/nixos/scripts/nix/package-marginal-cost.py:52-70 | every name the newer walk yields, with its multiplicity, is also yielded by the older walk |
| PackageWalk.NewerIgnoresSelected | configs/nixos/scripts/nix/package-marginal-cost.py:58-61 | for `[ git pkgs.hello ]` the newer walk reports only `git` |
| PackageWalk.OlderReportsSelected | configs/nixos/scripts/package-marginal-cost.py:48-50 | for `[ git pkgs.hello ]` the older walk reports `git` and `hello` |
| MarginalCost.BuildBaseline | configs/nixos/scripts/nix/package-marginal-cost.py:169-180 | the loop computes exactly the union of the base packages' closures |
| MarginalCost.InBaseline | configs/nixos/scripts/nix/package-marginal-cost.py:178-179 | a path is in the baseline exactly when some base package's closure has it |
| MarginalCost.PathsSize | configs/nixos/scripts/nix/package-marginal-cost.py:93-109 | no paths, or a failed query, count 0 |
| MarginalCost.NarSize | configs/nixos/scripts/nix/package-marginal-cost.py:207-231 | the package's own size is known exactly when its store path evaluates to non-blank text and its size query succeeds; otherwise -1 |
| MarginalCost.RowFor | configs/nixos/scripts/nix/package-marginal-cost.py:197-234 | an empty closure gives `(pkg, -1, -1, -1)`; otherwise the marginal size is that of the closure minus the baseline, next to the closure and own sizes |
| MarginalCost.CoveredCostsNothing | configs/nixos/scripts/nix/package-marginal-cost.py:203-204 | a package whose closure is inside the baseline has marginal size 0 |
| MarginalCost.MarginalPathsExactly | configs/nixos/scripts/nix/package-marginal-cost.py:203 | a marginal path is in the package's closure and in no base package's closure |
| MarginalCost.Analyze | configs/nixos/scripts/nix/package-marginal-cost.py:194-235 | one row per package, in package order, each RowFor |
| MarginalCost.MarginalBucket | configs/nixos/scripts/nix/package-marginal-cost.py:252-268 | failed rows are small; otherwise above 50 MiB large, above 10 MiB medium, else small |
| MarginalCost.SplitByMarginal | configs/nixos/scripts/nix/package-marginal-cost.py:252-268 | each bucket list holds exactly the rows of that bucket, in row order |
| MarginalCost.EntriesOrdered | configs/nixos/scripts/nix/package-marginal-cost.py:238 | entries of rows sorted by marginal size are sorted by size |
| MarginalCost.MarginalReport | configs/nixos/scripts/nix/package-marginal-cost.py:169-298 | rows are sorted non-increasingly by marginal size; the three buckets partition them at 50 MiB and 10 MiB; the summary's re-sort leaves the large and medium buckets unchanged |
| PackageSizes.PackageSize | configs/nixos/scripts/package-sizes.py:30-62 | a successful lookup gives the sizes reported for the stripped store path; any failure gives `(pkg, -1, -1)` |
| PackageSizes.FailedLookupIsSmall | configs/nixos/scripts/package-sizes.py:108-116 | a failed lookup counts as a small package |
| PackageSizes.TotalClosureIsMax | configs/nixos/scripts/package-sizes.py:101-103 | the total is the largest positive closure, not a sum, or 0 |
| PackageSizes.TotalOfSorted | configs/nixos/scripts/package-sizes.py:90-103 | after sorting, the total is the first row's closure when positive |
| PackageSizes.Tally | configs/nixos/scripts/package-sizes.py:96-116 | the loop computes the largest closure and the three bucket lists in row order |
| PackageSizes.Report | configs/nixos/scripts/package-sizes.py:76-133 | the rows, in any completion order, are sorted non-increasingly by closure; they are a permutation of the completed rows; the total is the first row's closure when positive; the buckets partition them at 100 MiB and 50 MiB; the summary's re-sort leaves the large and medium buckets unchanged |
| SizeReport.SortDescSorted | configs/nixos/scripts/package-sizes.py:90 | `sort(key, reverse=True)` gives a non-increasing permutation |
| SizeReport.SortDescStable | configs/nixos/scripts/package-sizes.py:90 | rows with equal keys keep their relative order |
| SizeReport.SortDescOfSorted | configs/nixos/scripts/package-sizes.py:128 | re-sorting sorted rows changes nothing |
| SizeReport.GatherPartition | configs/nixos/scripts/package-sizes.py:101-116 | the three buckets together hold exactly the rows |
| SizeReport.GatherExactly | configs/nixos/scripts/package-sizes.py:108-116 | a row is in a bucket exactly when it classifies there |
| SizeReport.GatherKeepsOrder | configs/nixos/scripts/package-sizes.py:108-116 | buckets of sorted rows are sorted |
| SizeReport.SummaryOrderUnchanged | configs/nixos/scripts/package-sizes.py:128-133 | `sorted(bucket, key=-size)` returns the bucket as built |
| SizeReport.UnitOf | configs/nixos/scripts/package-sizes.py:69-73 | the unit is the largest power of 1024 not above the size, at most TB |
| SizeReport.DividedBelow | configs/nixos/scripts/package-sizes.py:70-72 | after i divisions by 1024 the value is below c exactly when the size is below c × 1024^i |
| SizeReport.FormatSize | configs/nixos/scripts/package-sizes.py:65-73 | negative sizes show `N/A`; others show the size divided into the unit UnitOf chooses |
| SizeReport.NaturalSize | configs/nixos/scripts/nix/package-marginal-cost.py:112-116 | `N/A` exactly for negative sizes; otherwise the binary natural size of the byte count |
| CleanupModels.RepoValue | configs/nixos/scripts/cleanup_models.py:36 | none exactly when no position of the command starts `-hf`/`--hf-repo`, blanks and a value; a value found is one non-blank word |
| CleanupModels.MmprojValue | configs/nixos/scripts/cleanup_models.py:44 | none exactly when no position of the command starts `--mmproj-url`, blanks and a value; a value found is one non-blank word |
| CleanupModels.GetConfiguredModels | configs/nixos/scripts/cleanup_models.py:29-50 | the loop collects exactly the repositories and projector file names of the models, in order |
| CleanupModels.ReposFromModels | configs/nixos/scripts/cleanup_models.py:32-41 | a repository is listed exactly when some model's command names it before any `:` |
| CleanupModels.MmprojFilesFromModels | configs/nixos/scripts/cleanup_models.py:43-48 | a file is listed exactly when some model's projector URL ends in it |
| CleanupModels.Patterns | configs/nixos/scripts/cleanup_models.py:70 | one pattern per repository, in order; each is as long as its repository and holds no `/` |
| CleanupModels.MatchesPattern | configs/nixos/scripts/cleanup_models.py:94-97 | the early-exit loop finds a pattern exactly when one occurs in the lower-cased name |
| CleanupModels.FindUnused | configs/nixos/scripts/cleanup_models.py:83-114 | the loop collects exactly the unused entries and their total size |
| CleanupModels.UnusedExactly | configs/nixos/scripts/cleanup_models.py:83-112 | an entry is listed exactly when it is a cached file belonging to no repository, not a configured file, and not metadata |
| CleanupModels.RepositoryFilesKept | configs/nixos/scripts/cleanup_models.py:94-97 | a file whose name holds a repository's pattern is never unused |
| CleanupModels.EmptyRepoKeepsEverything | configs/nixos/scripts/cleanup_models.py:95 | an empty repository name protects every file |
| CleanupModels.ConfirmsIff | configs/nixos/scripts/cleanup_models.py:120-121 | deletion goes ahead exactly when the stripped reply is `y` or `Y` |
| CleanupModels.Cleanup | configs/nixos/scripts/cleanup_models.py:66-132 | a missing configuration exits; with no unused files nothing is asked; otherwise the unused files are deleted on a confirming reply and kept otherwise |
| CleanupModels.DeletedAreUnused | configs/nixos/scripts/cleanup_models.py:104-124 | a deleted file is a cached plain file, not metadata, holds no repository pattern and is no configured projector file |
| DownloadModels.ParseArgsFromCmd | configs/nixos/scripts/download_models.py:44-64 | the loop computes exactly RelevantArgs (identical code in ai/download-models.py lines 16-36) |
| DownloadModels.RelevantArgsSubsequence | configs/nixos/scripts/download_models.py:53-62 | the kept arguments are the words with some left out, in order |
| DownloadModels.FlagsAtEvenPositions | configs/nixos/scripts/download_models.py:56-60 | every even position of the result holds a recognised flag |
| DownloadModels.NoArgsIffNoFlag | configs/nixos/scripts/download_models.py:56 | nothing is kept exactly when no word is a recognised flag |
| DownloadModels.ValueIsNotReexamined | configs/nixos/scripts/download_models.py:58-60 | the word after a flag is taken as its value even when it is a flag itself |
| DownloadModels.TrailingFlagKeptAlone | configs/nixos/scripts/download_models.py:58 | a flag as the last word is kept without a value |
| DownloadModels.PlanModel | configs/nixos/scripts/download_models.py:94-113 | a model is skipped exactly when its command is empty or names no flag; otherwise the command is the binary, the kept arguments, then the fixed check arguments |
| DownloadModels.PlanOf | configs/nixos/scripts/ai/download-models.py:60-85 | the planned command written out for a model with a command |
| DownloadModels.DownloadAll | configs/nixos/scripts/download_models.py:93-130 | the loop runs exactly Attempts |
| DownloadModels.AttemptsStep | configs/nixos/scripts/ai/download-models.py:59-102 | one model's step: skipped models add nothing; a run follows, and a missing binary ends the pass |
| DownloadModels.PlannedFromModels | configs/nixos/scripts/download_models.py:93-113 | every planned command comes from some model, and there are no more of them than models |
| DownloadModels.NothingPlannedIffAllSkipped | configs/nixos/scripts/download_models.py:95-104 | nothing runs exactly when every model is skipped |
| DownloadModels.AttemptsFollowPlan | configs/nixos/scripts/download_models.py:117-128 | the commands run are a prefix of the plan; all but the last found the binary; the pass stops early only after a missing binary |
| DownloadModels.AllRunWhenInstalled | configs/nixos/scripts/download_models.py:117-123 | with the binary installed, every planned command runs, failed runs included |
| DownloadModels.BlockText | configs/nixos/scripts/download_models.py:24-33 | none exactly when no position starts the block; the block never contains its closing `'';` |
| DownloadModels.ExtractYaml | configs/nixos/scripts/download_models.py:19-41 | none exactly when no block is found; the extracted YAML holds no `${PORT}` |
| DownloadModels.SanitizeRemovesPort | configs/nixos/scripts/download_models.py:39 | no `${PORT}` is left after sanitising |
| DownloadModels.SanitizeKeepsPlain | configs/nixos/scripts/download_models.py:37-39 | text without `$` is unchanged by sanitising |
| DownloadModels.ConfigText | configs/nixos/scripts/download_models.py:68-80 | the configuration file wins; otherwise the text parsed is the extracted `ai.nix` block; none exactly when neither exists or the block is missing |
| Text.SplitFirst | configs/nixos/scripts/ai/model-info.py:150 | `s.split(c, 1)`: the parts join back with `c` and the first has no `c` |
| Text.Split | scripts/zellij-rename-tabs.py:147 | `s.split(c)`: at least one part, none holding `c`, joined back with `c` to `s` |
| Text.SplitJoin | scripts/commit.py:106-108 | splitting the join of parts without `c` gives the parts back |
| Text.SplitLength | scripts/zellij-rename-tabs.py:147 | the number of parts is one more than the separators |
| Text.StripEnds | scripts/commit.py:106 | the stripped text has no blank at either end, and is empty exactly for all-blank text |
| Text.StripChars | scripts/zellij-rename-tabs.py:188 | `strip(chars)` removes a run of those characters at each end and no more |
| Text.Words | scripts/zellij-rename-tabs.py:118 | `split()` gives non-empty words without blanks, and no word exactly for blank text |
| Text.ReplaceChar | configs/nixos/scripts/ai/model-info.py:152 | `replace(a, b)` on one character changes each `a` to `b` and keeps the length |
| Text.FindFrom | scripts/commit.py:107 | the leftmost occurrence at or after `from`, or none exactly when there is none |
| Text.ReplaceFirstAt | configs/nixos/scripts/ai/update-overrides.py:198 | `replace(pat, rep, 1)` replaces the leftmost occurrence |
| Text.ReplaceAllAt | configs/nixos/scripts/update_overrides.py:196-198 | `replace(pat, rep)` replaces the leftmost occurrence and continues after it |
| Text.NatToStr | configs/nixos/scripts/ai/model-info.py:228 | `str(n)` is decimal digits without a leading zero whose value is `n` |
| Text.ParseInt | configs/nixos/scripts/ai/update-overrides.py:103 | every number `int()` returns has at most 4300 digits, so `str()` of it does not raise |
| Text.ParseTooLong | configs/nixos/scripts/ai/update-overrides.py:103 | decimal text of more than 4300 digits makes `int()` raise `ValueError` (the limit of Python 3.11 and later) |
| Text.ParseIntOfIntToStr | configs/nixos/scripts/ai/update-overrides.py:103 | `int(str(n)) == n` for every `n` of at most 4300 digits, where `str(n)` does not raise |
| Text.ParseMinus | configs/nixos/scripts/ai/update-overrides.py:103 | `int("-" + digits)` is minus the digits' value |
| Text.IndexOf | configs/nixos/scripts/ai/model-info.py:149 | the first index of `c`, or none exactly when `c` does not occur |
| Text.LastPart | configs/claude/statusline.py:109 | `split(c)[-1]` is a suffix without `c`, preceded by `c` when shorter than the text |
| Text.RemoveSuffix | configs/claude/statusline.py:109 | `removesuffix` drops the suffix exactly when the text ends with it |
| Text.TakeLast | scripts/zellij-rename-tabs.py:134 | `s[-n:]` is the last min(n, len) elements |
| Text.LStripChar | configs/nixos/scripts/ai/update-overrides.py:68 | `lstrip("v")` removes the whole leading run of `v` |
| JsonValue.Get | configs/claude/hooks/block-git-rewrites.py:73-75 | `d.get(key, default)` is the value for a present key and the default otherwise |

## Left out

- JsonValue.Json: `JNum` holds integers only. A JSON float, such as `total_cost_usd` or a fractional count, is not represented, so a float in the status-line input is not modelled the way Python reads it.
- Text.IsSpace: whitespace is ASCII only. `str.isspace`, `str.split()`, `strip()` and `\s` also accept Unicode spaces such as U+00A0, and those are not blanks here.
- Text.IsWordChar: `\w` and `\b` cover only ASCII letters, digits and `_`. Python's `re` also counts Unicode letters as word characters.
- Text.Lower: only ASCII case mapping. `str.lower()` and `re.IGNORECASE` on other letters are not modelled.
- Text.Strip: strips ASCII whitespace only, for the same reason as IsSpace.
- GgufFormat.ReadStringAt: keys stay raw bytes. `decode("utf-8", errors="ignore")` is not modelled, so a key is compared byte by byte and invalid UTF-8 is not dropped. The 1,000,000-byte "safety cap" branch reads exactly like the other branch, so nothing is lost there. A length of 2^63 or more fails, as the `OverflowError` of `f.read` does. A smaller length that the machine cannot allocate raises `MemoryError` in CPython; that depends on the machine's memory, so the model returns the available bytes instead.
- GgufReader.ReadGgufInfo: a string value whose length is below 2^63 but too large to allocate makes `read_gguf_info` return `None` through `MemoryError`; the model, like ReadStringAt, reads the available bytes and goes on.
- GgufFormat.SkipAt: Python's recursion limit is not modelled. `skip_value` calls itself once per level of array nesting, and an array of arrays nested about a thousand levels deep raises `RecursionError`; the exact depth depends on the interpreter version and on the frames already on the stack. The model recurses without bound and skips such a value.
- GgufReader.ReadGgufInfo: for the same reason, a file with arrays nested past the recursion limit makes `read_gguf_info` return `None` through that `RecursionError`, while the model reads it as any other array.
- GgufReader.SkipValue: recurses without the recursion limit, as GgufFormat.SkipAt does.
- GgufReader.SkipArray: its element loop calls SkipValue at any nesting depth, with no recursion limit.
- GgufReader.RoundFailedWalk: covers the failures the model has (short reads, overlong strings, unknown types). `RecursionError` and `MemoryError` are not among them.
- GgufEncoding.SkipEncoded: `WellTyped` allows any nesting depth, so skipping succeeds even past Python's recursion limit.
- GgufEncoding.SkipArrayEncoded: the same holds for nested arrays.
- GgufEncoding.ReadEncodedFile: the result is also claimed for entries whose arrays nest past the recursion limit, where Python returns `None`.
- Text.NatToStr: `str(n)` of a number with more than 4300 digits raises `ValueError` from Python 3.11 on, but the model writes it out. For that reason the read-back lemmas (Text.ParseIntOfIntToStr, ModelInfo.CtxTextReadsBack, ModelInfo.LayersTextReadsBack, UpdateOverrides.ParseSemverOfVersionText, UpdateOverrides.CompareWrittenSemvers, UpdateOverrides.CompareWrittenIntegers) are stated for numbers of at most 4300 digits. GGUF values are below 2^64, far inside that bound, and a parsed tag number fits it by Text.ParseInt.
- ModelInfo.GlobMatch: the `*<repo>*` glob is a substring test. The repository name is taken literally: glob metacharacters `[`, `?`, `*` in it are not interpreted. The directory listing and its order are inputs.
- ModelInfo.Run: `os.path.exists`, `os.path.isfile`, the Hugging Face date request and the formatted total size (`size_gb:.1f`) are inputs.
- UpdateOverrides.UpdateVersion: the matches of the version and URL patterns are oracles (a list of group spans per text, any text). The patterns themselves are not written out.
- UpdateLlama.UpdateLlamaSwap: the URL pattern's matches are an oracle, as in UpdateVersion. The inconsistent-versions warning only prints, so it is not modelled.
- UpdateOverrides.GetLatestRelease: the HTTP request is an input. A failed request or bad JSON is `None` for the release list.
- UpdateOverrides: the `main` loop of ai/update-overrides.py over the three packages, with its file writes, is not modelled as one function. Its steps, UpdateVersion and ResolveHashes, are.
- CleanupModels.GetConfiguredModels: the YAML is an input as the models' `cmd` texts in configuration order. A `cmd` that is not a string, or badly shaped YAML, crashes Python; that is not modelled. The `yaml.YAMLError` exit path is not modelled either.
- DownloadModels.DownloadAll: the models come in configuration order and are already parsed. A non-string `cmd`, badly shaped YAML and the `yaml.YAMLError` exit (download_models.py lines 82-86, ai/download-models.py lines 48-52) are not modelled.
- DownloadModels.ParseArgsFromCmd: `shlex.split` is an input function and is total. Python raises ValueError on an unbalanced quote; that exception is not modelled.
- DownloadModels.Attempts: a run result is success, failure or a missing binary. Any other OSError that `subprocess.run` raises would end the script with a traceback; that is not modelled.
- DownloadModels.Sanitize: the `${pkgs.llama-cpp}` replacement is modelled as a literal replacement. A nested or partly overlapping interpolation is not treated specially.
- PackageSizes.Report: the thread pool's completion order is an input. `completed` may be any order of the rows.
- GitPatterns.FirstNamed: the iteration order of `PROTECTED_BRANCHES`, a Python set, depends on string hashing. It is a parameter: one of the two orders of `main` and `master`.
- SizeReport.FormatSize: sizes are exact reals. Python's first division turns the integer into a float, which rounds sizes above 2^53; the rounding and the `.1f` rendering are not modelled.
- SizeReport.NaturalSize: `humanize.naturalsize` is modelled as the exact binary size value. Its float arithmetic and text rendering are not modelled.
- StatusLine.Percent: counts are integers or booleans. A float count (`JNum` holds only integers) is not modelled; Python would give a float percentage.
- StatusLine.CostInfo: the cost is an integer or a boolean. A float `total_cost_usd`, the usual case, is not modelled, and `.2f` renders the integer with `.00`.
- StatusLine.Render: git runs, the node name and stdin are inputs. Timeout and other exceptions of the git block are a `Raised` run result.
- ZellijTabs.RenameAllTabs: the language model is an input. Its reply is absent when it fails or when pydantic-ai gives up after retries. The prompt text, the 0.05 s pauses and debug printing are not modelled.
- MarginalCost.MarginalReport: the `nix` commands are oracles, including their failures. The tree-sitter parser is left out: the syntax tree is the input.
- CommitMessage: the language model, the clipboard, the editor, the temporary file and git itself are outside the model; only the command lines are built.
- Printing, colours of tables and progress bars, and process exit through exceptions not named above are not modelled.
