# duplicate-file-finder, modelled in Dafny

`find_duplicates.py` scans a folder tree for duplicate files and then asks the operator what to do with them. It detects duplicates in two independent ways:

* **Name pairs.** Files whose names share a normalised key (extension split off, a trailing number removed, whitespace stripped, lower-cased) are compared pairwise with difflib's `SequenceMatcher`. Every pair whose ratio reaches 0.85 becomes a two-element group.
* **Digest groups.** Files that share a size with at least one other file are hashed with SHA-256 and grouped by digest. Every digest group with more than one member is appended after the name pairs, unless an equal list is already present.

The operator then chooses one of three answers:

* "1" deletes every member after the first of each group.
* "2" moves every member after the first into a `Trash` folder. A taken name is renamed to `{stem}_{k}{ext}`.
* Anything else keeps everything.

The model covers the following:

* the key (`normalize_filename`) and the fuzzy test (`similar_name`);
* the two insertion-ordered `defaultdict(list)`s filled during the traversal;
* the pairing loop, the hashing loop and the merge into `duplicates`;
* the delete and move-to-trash dispositions, including the rename search of `move_to_trash`.

Each loop of the source is a Dafny method with loop invariants. The detection loops (`BucketFiles`, `PairRow`, `PairBucket`, `PairSimilarNames`, `HashBucket`, `GroupByDigest`, `AppendHashGroups`) are proved equal to recursive specification functions, and the properties of the detection are proved as lemmas about those functions. The deletion loops (`DeleteGroupExtras`, `DeleteExtras`) are proved to remove exactly the extras given by the functions `TailUpTo` and `Tails`. The rename search `TrashDestination` is proved against the predicate `IsTrashDestination`. The state-changing dispositions (`MoveToTrash`, `QuarantineGroupExtras`, `QuarantineExtras`, `Dispose`) state the invariants they keep (the number of paths, the paths left outside the trash folder); `MoveToTrash` also gives the destination of its move, and `Dispose` gives the whole new file system under answer "1" and under any answer that changes nothing.

Modules:

* `Text`: the part of Python's `str` used on names: `\d`, `isspace`, `lower`, `strip` and `str(n)`. It covers ASCII only.
* `FileNames`: `os.path.splitext`, `normalize_filename` and `similar_name`.
* `OrderedDict`: a `defaultdict(list)` read back through `.values()`, as an association list in first-insertion order.
* `Finder`: the detection stages of `find_duplicate_files`.
* `Disposal`: `move_to_trash` and the answers "1", "2" and "3".
* `Scenarios`: whole runs on small directories.

The environment is passed in as values:

* **Traversal.** The paths `os.walk` yields, in traversal order, are a `seq<Path>`. A `Path(dir, name)` stands for `os.path.join(root, name)`, whose base name is `name`.
* **File system.** The set of existing paths is a `set<Path>`. It is read by `os.path.exists` and updated by `os.remove` and `shutil.move`.
* **File size.** `os.path.getsize` is a function `Path -> Option<nat>`. `None` means the call raised `OSError`.
* **Digest.** `calculate_file_hash` is a function `Path -> Option<string>`. `None` means it returned `None`.
* **Fuzzy ratio.** difflib's `ratio()` is a function `(string, string) -> real`.
* **Operator's answer.** The string typed at the prompt is a parameter.
* **Trash folder.** The path `os.path.join(folder_path, "Trash")` is a parameter.

Behaviours of the code worth noting:

* Name pairs come first and digest groups after them.
* Name pairing does not skip files that are already in a digest group. A path can therefore be in a name pair and in a digest group at once (`Scenarios.PathInPairAndDigestGroup`).
* A digest group is skipped only when an equal list is already in `duplicates`.
* `hash_dict` is one dictionary across all size buckets. Its order is size-bucket order, and inside a bucket it is traversal order.
* Hashing is sequential.
* Symbolic links are not treated specially.
* Under answer "1" the first member of one group can be deleted as an extra of another group, so every copy of a content can be lost (`Scenarios.PhotoLoss`).

## Model

| member | source | states |
|---|---|---|
| Text.Lower | find_duplicates.py:24 | `str.lower` on ASCII, one character at a time; what it guarantees is stated by `Text.LowerSpec` |
| Text.LowerSpec | find_duplicates.py:24 | `lower()` keeps the length and maps each character on its own (ASCII letters to lower case, everything else unchanged) |
| Text.DropTrailingDigits | find_duplicates.py:23 | `re.sub(r'\d+$', '', s)`: drops the digits that end the string, one at a time from the right; what it guarantees is stated by `Text.DropTrailingDigitsSpec` |
| Text.DropTrailingDigitsSpec | find_duplicates.py:23 | `re.sub(r'\d+$', '', name)` keeps a prefix; everything it removes is a digit; what it keeps does not end in a digit (the whole trailing digit run goes) |
| Text.TrimEndSpec | find_duplicates.py:23 | `rstrip` keeps a prefix, removes only whitespace and leaves no whitespace at the end |
| Text.TrimStartSpec | find_duplicates.py:23 | `lstrip` keeps a suffix, removes only whitespace and leaves no whitespace at the start |
| Text.Strip | find_duplicates.py:23 | `str.strip()` as `rstrip` followed by `lstrip`; what it guarantees is stated by `Text.StripSpec` |
| Text.StripSpec | find_duplicates.py:23 | `strip()` returns a slice of its argument with only whitespace cut on either side, and the slice neither starts nor ends with whitespace |
| Text.NatToString | find_duplicates.py:38 | `str(counter)` is a non-empty string of decimal digits that reads back as `counter` |
| Text.NatToStringInjective | find_duplicates.py:38 | different counters print differently |
| FileNames.LastIndexOfSpec | find_duplicates.py:22 | the dot `splitext` cuts at is the last dot of the name |
| FileNames.SplitExt | find_duplicates.py:22 | `os.path.splitext` on a base name: cut at the last dot unless only dots precede it; what it guarantees is stated by `FileNames.SplitExtSpec` and `FileNames.SplitExtOf` |
| FileNames.SplitExtSpec | find_duplicates.py:22 | stem + extension rebuilds the name; a non-empty extension is one dot followed by no other dot and its stem is not all dots; an empty extension means every dot is preceded only by dots |
| FileNames.SplitExtOf | find_duplicates.py:22 | a stem that is not all dots followed by a real extension splits back into exactly those two parts |
| FileNames.Normalize | find_duplicates.py:20-24 | `normalize_filename`: the stem without its trailing digits, stripped and lower-cased, followed by the lower-cased extension; what it guarantees is stated by the `FileNames.Normalize*` and `FileNames.TrailingDigitsIgnored` rows |
| FileNames.NormalizeIsLower | find_duplicates.py:20-24 | a key contains no upper-case letter |
| FileNames.TrailingDigitsIgnored | find_duplicates.py:20-24 | digits appended to the stem do not change the key (`normalize("invoice1.pdf") == normalize("invoice.pdf")`) |
| FileNames.NormalizePlain | find_duplicates.py:20-24 | for a stem with no trailing digit and no edge whitespace, the key is `lower(stem) + lower(ext)` |
| FileNames.StemKeyCase | find_duplicates.py:23-24 | digit removal, stripping and lower-casing give case-variant stems the same result |
| FileNames.NormalizeIgnoresCase | find_duplicates.py:20-24 | names that differ only in the case of ASCII letters have the same key |
| FileNames.Similar | find_duplicates.py:50-52 | `similar_name`: the ratio of the two keys reaches 0.85; what follows from it is stated by `FileNames.SameKeyIsSimilar` |
| FileNames.SameKeyIsSimilar | find_duplicates.py:50-52 | two names with the same key pass `similar_name` at threshold 0.85, given that a string scores 1 against itself |
| OrderedDict.Find | find_duplicates.py:68-69 | the position found holds the key, and -1 means no bucket has it |
| OrderedDict.Append | find_duplicates.py:68-69 | `d[k].append(v)` keeps keys distinct and lists non-empty, and adds a bucket exactly when `k` is new |
| OrderedDict.AppendKeys | find_duplicates.py:68-69 | `d[k].append(v)` keeps every existing key at its position, and a new key goes after all of them |
| OrderedDict.AppendLookup | find_duplicates.py:68-69 | after `d[k].append(v)` the list of `k` has grown by `v` and every other list is unchanged |
| OrderedDict.GroupBy | find_duplicates.py:56-58 | the dictionary built by appending a sequence of entries has distinct keys, no empty list, and at most one bucket per entry |
| OrderedDict.GroupBySnoc | find_duplicates.py:68-69 | one more entry is one more `append` |
| OrderedDict.GroupByLookup | find_duplicates.py:68-69 | the list under `k` is the values of the entries with key `k`, in entry order |
| OrderedDict.GroupByHasKey | find_duplicates.py:68-69 | a key has a bucket exactly when some entry has it |
| OrderedDict.GroupByAt | find_duplicates.py:74 | each bucket read by `.values()` holds exactly the entries of its key, and is non-empty |
| OrderedDict.FirstIndex | find_duplicates.py:68-69 | the position of the first entry inserted under a key is an entry with that key and no earlier entry has it; -1 means no entry has it |
| OrderedDict.GroupByOrder | find_duplicates.py:74 | `.values()` order: every inserted key has a bucket, and bucket `i` precedes bucket `j` exactly when the key of `i` was first inserted before the key of `j` |
| Finder.BucketFiles | find_duplicates.py:62-71 | the traversal loop builds `size_dict` and `name_dict` equal to grouping the readable existing paths by size and by key, in traversal order |
| Finder.SizeClass | find_duplicates.py:66-68 | every member of a size class was traversed, exists, and has that size |
| Finder.NameClass | find_duplicates.py:66-69 | every member of a name class was traversed, exists, has a readable size, and has that key |
| Finder.SizeBucketIsSizeClass | find_duplicates.py:62-68 | `size_dict[s]` is exactly the traversed existing paths of size `s`, in traversal order |
| Finder.NameBucketIsNameClass | find_duplicates.py:62-69 | `name_dict[key]` is exactly the traversed existing paths with a readable size and that key, in traversal order |
| Finder.SizeClassCount | find_duplicates.py:62-68 | a path occurs in its size bucket as often as the traversal yields it, and never if it does not exist or its size cannot be read |
| Finder.NameClassCount | find_duplicates.py:62-69 | a path occurs in its name bucket as often as the traversal yields it, and never if it does not exist or its size cannot be read |
| Finder.InOwnSizeClass | find_duplicates.py:66-68 | a traversed existing path with a readable size is in the bucket of its size |
| Finder.PairRow | find_duplicates.py:77-79 | the inner `j` loop appends exactly the row of pairs `[l[i], l[j]]`, `j > i`, that pass `similar_name`, in order |
| Finder.PairBucket | find_duplicates.py:76-79 | the `i`/`j` loops over one bucket append the rows for `i = 0, 1, ...` in order |
| Finder.PairSimilarNames | find_duplicates.py:74-79 | the loop over `name_dict.values()` appends the pairs of every bucket, bucket by bucket |
| Finder.NamePairsSound | find_duplicates.py:74-79 | every name pair is `[l[i], l[k]]` for some bucket `l` and `i < k`, and passes `similar_name` |
| Finder.BucketPairsComplete | find_duplicates.py:75-79 | a bucket of `n` members all passing the test yields exactly `n(n-1)/2` pairs, and every pair `i < k` is among them |
| Finder.NameBucketFullyPaired | find_duplicates.py:74-79 | every name bucket yields all `n(n-1)/2` pairs of its members, given that a string scores 1 against itself |
| Finder.HashBucket | find_duplicates.py:84-88 | the loop over one size bucket appends each existing member with a truthy hash under its digest |
| Finder.GroupByDigest | find_duplicates.py:82-88 | the loop over `size_dict.values()` fills `hash_dict` from the buckets with more than one member only |
| Finder.DigestEntriesMembers | find_duplicates.py:84-88 | a path is entered under digest `dg` from a bucket exactly when it is in the bucket, exists, and hashes to a non-empty `dg` |
| Finder.HashEntriesMembers | find_duplicates.py:82-88 | a path is entered under `dg` exactly when it is in a size bucket of more than one member and hashes to a non-empty `dg` |
| Finder.DigestGroupMembers | find_duplicates.py:62-88 | a path is in the digest group of `dg` exactly when it was traversed, exists, has a readable size shared by another traversed file, and has a non-empty hash equal to `dg` |
| Finder.AppendHashGroups | find_duplicates.py:90-93 | the loop over `hash_dict.values()` appends each group of more than one member that is not already present |
| Finder.MergeHashGroupsSpec | find_duplicates.py:90-93 | the name pairs stay in front unchanged; each appended group has more than one member, is a digest group and equals no earlier group; every digest group of more than one member ends up in the list |
| Finder.Duplicates | find_duplicates.py:54-93 | the `duplicates` list as a function of the environment: the name pairs of the name buckets, merged with the digest groups; what it guarantees is stated by `Finder.FindDuplicates`, `Finder.MergeHashGroupsSpec` and `Finder.SameContentSameGroup` |
| Finder.FindDuplicates | find_duplicates.py:54-93 | `duplicates` has only groups of at least two paths, starts with all the name pairs, and contains every digest group of more than one member |
| Finder.SameContentSameGroup | find_duplicates.py:82-93 | two different traversed files of one size and one digest are in the same digest group, and that group is in `duplicates` |
| Finder.DigestGroupOneSize | find_duplicates.py:82-88 | where equal digests come only from equal sizes, all members of a digest group have one size |
| Disposal.TailsSpec | find_duplicates.py:111-112 | the extras of `duplicates` are exactly the paths at index 1 or later of some group |
| Disposal.DeleteGroupExtras | find_duplicates.py:112-117 | the loop over `file_list[1:]` removes exactly that group's existing extras |
| Disposal.DeleteExtras | find_duplicates.py:110-117 | answer "1" leaves exactly the existing paths that are not an extra of any group |
| Disposal.Candidate | find_duplicates.py:37-38 | the name `{stem}_{counter}{ext}` tried by the rename search; what it guarantees is stated by `Disposal.CandidateInjective` |
| Disposal.CandidateInjective | find_duplicates.py:37-39 | different counters give different `{stem}_{counter}{ext}` names |
| Disposal.TriedMembers | find_duplicates.py:35-40 | the names tried up to `counter = n + 1` are the candidates 1 to n |
| Disposal.TriedCard | find_duplicates.py:35-40 | the first `n` candidates are `n` different paths |
| Disposal.AllTriedTaken | find_duplicates.py:36 | if the first `n` candidates all exist, they are among the existing paths |
| Disposal.FreeCandidate | find_duplicates.py:35-40 | one of the first `|fs| + 1` candidates is free, so the rename loop ends |
| Disposal.IsTrashDestination | find_duplicates.py:32-40 | where `move_to_trash` moves a file: a path in the trash folder that does not exist, the base name when it is free, otherwise the candidate for the smallest `k >= 1` whose candidates `1..k-1` all exist |
| Disposal.TrashDestinationUnique | find_duplicates.py:32-40 | the destination of a move is determined by the file system |
| Disposal.TrashDestination | find_duplicates.py:32-40 | the search returns a trash path that does not exist: the base name if free, otherwise `{stem}_{k}{ext}` for the smallest free `k >= 1` |
| Disposal.MoveToTrash | find_duplicates.py:26-43 | a missing file changes nothing; otherwise the file is replaced by its trash destination, and the number of paths is unchanged |
| Disposal.QuarantineGroupExtras | find_duplicates.py:122-123 | moving one group's extras keeps the count of paths, keeps every non-extra, and leaves outside the trash folder only paths that existed and were not moved |
| Disposal.QuarantineExtras | find_duplicates.py:118-123 | answer "2" keeps the number of paths and every non-extra; outside the trash folder exactly the paths that are not extras remain |
| Disposal.Dispose | find_duplicates.py:96-127 | with no groups nothing changes; the stripped answer "1" deletes the extras, "2" moves them to the trash folder, and any other answer changes nothing |
| Disposal.FindDuplicateFiles | find_duplicates.py:54-129 | detection followed by disposition, with the outcome of each answer stated on the detected groups |
| Scenarios.FileKey | find_duplicates.py:23 | `normalize("file2.txt") == normalize("file.txt") == "file.txt"` |
| Scenarios.InnerDigitsKept | find_duplicates.py:23 | `normalize("file2x.txt") != "file.txt"`: digits are removed only where they end the stem |
| Scenarios.TwoCopies | find_duplicates.py:62-93 | two existing files of one size and one digest with different keys give exactly the one group `[a, b]` |
| Scenarios.ReportKeys | find_duplicates.py:20-24 | `report.txt` and `report_copy.txt` have different keys |
| Scenarios.ReportAndCopy | find_duplicates.py:54-117 | `report.txt` and its byte copy `report_copy.txt` give `[[report, report_copy]]`, and answer "1" leaves only `report.txt` |
| Scenarios.TwoSimilarNames | find_duplicates.py:62-93 | two files of one size with different digests and similar names with the same key give exactly the name pair |
| Scenarios.InvoiceKeys | find_duplicates.py:20-24 | `invoice1.pdf` and `invoice2.pdf` share a key |
| Scenarios.InvoicePair | find_duplicates.py:54-93 | `invoice1.pdf` and `invoice2.pdf`, 50 bytes each with different content, give no digest group and exactly one name pair |
| Scenarios.SingleFile | find_duplicates.py:54-96 | a traversal of one file gives no groups, so the operator is not asked anything |
| Scenarios.ThreeCopies | find_duplicates.py:74-93 | three identical files with one key give the three pairs in loop order, followed by the digest group of all three |
| Scenarios.PathInPairAndDigestGroup | find_duplicates.py:74-93 | with `x1.txt`, `x2.txt` and `x3.txt`, `x1.txt` is in a name pair and in a digest group |
| Scenarios.WholeGroupDeleted | find_duplicates.py:74-117 | when a name pair `[a, b]` precedes the digest group `[b, c]`, answer "1" removes both `b` and `c` |
| Scenarios.PhotoLoss | find_duplicates.py:54-117 | `photo1.jpg`, `photo2.jpg` and `other.jpg` (a copy of `photo2.jpg`) give `[[photo1, photo2], [photo2, other]]`; answer "1" keeps only `photo1.jpg` and deletes both copies of the second picture |

## Left out

- `calculate_file_hash` (find_duplicates.py:8-18): hashlib, the chunked reads, the MD5 option and the error message are not modelled. The digest is a function parameter, and `None` stands for an unreadable file.
- `os.walk`: the traversal order is an input sequence. How directories are listed is not modelled.
- `os.path.exists` and `os.path.getsize`: one file-system snapshot serves the whole detection phase. Files that appear or vanish between the checks are not modelled.
- difflib's `SequenceMatcher.ratio`: the real-valued ratio is a parameter. The only fact used is that a string scores 1 against itself. Symmetry of `similar_name` is not claimed, because difflib does not guarantee it.
- Finder.DigestGroupMembers: states which paths are in a digest group, not their order. The order is size-bucket order and traversal order within a bucket.
- Finder.DigestGroupOneSize: assumes that equal digests come only from files of equal size. `hash_dict` is shared by all size buckets, so a SHA-256 collision between files of different sizes would put them in one group.
- `print` output and the `input` prompt: the answer is a parameter. The messages printed are not modelled.
- `os.makedirs` for the trash folder: folders are not modelled. The trash folder is a path prefix given as a parameter.
- `shutil.move` errors (find_duplicates.py:45-48): every move of an existing file succeeds. The source catches these errors and prints a message; the `except` branches are not modelled.
- `os.remove` errors (find_duplicates.py:114): the source has no handler there, so an `OSError` on removal ends the run. The model assumes that removing an existing file always succeeds.
- Disposal.QuarantineGroupExtras: does not give the new contents of the trash folder, nor the trash name of each moved file. `Disposal.MoveToTrash` states the destination for one move.
- Disposal.QuarantineExtras: for the same reason, states what remains outside the trash folder and the number of paths, not the trash names.
- The `__main__` block with its hard-coded folder (find_duplicates.py:131-136).
- Unicode: `\d`, `isspace`, `lower` and `strip` are modelled on ASCII only. Names are assumed not to contain a newline, so the special meaning of `$` before a trailing newline does not arise.
- Path joining: a path is the pair (folder, base name). `os.path.basename` returns the second part, and separators inside names are not modelled.
