/**
 * The detection pipeline of `find_duplicate_files`: bucket the traversed files by size
 * and by name key, pair up files whose names are similar, group the members of shared
 * size buckets by content digest, and append the digest groups to the pairs.
 *
 * The file system is a snapshot: `fs` holds the paths for which `os.path.exists` is
 * true, `size` stands for `os.path.getsize` (None where it raises OSError) and `hash`
 * for `calculate_file_hash` (None where the file cannot be read).
 */
module Finder {
  import opened Wrappers
  import opened Text
  import opened FileNames
  import opened OrderedDict

  type FileSet = set<Path>
  type SizeOf = Path -> Option<nat>
  type Digest = string
  type HashOf = Path -> Option<Digest>

  /** One entry of the `duplicates` list: a list of paths, the first one to be kept. */
  type Group = seq<Path>

  // ---------------------------------------------------------------------------
  // Stage 1: bucketing by size and by name key

  /** The path exists and its size can be read: only such paths are bucketed. */
  predicate Sized(p: Path, fs: FileSet, size: SizeOf)
  {
    p in fs && size(p).Some?
  }

  /** The `size_dict[file_size].append(file_path)` calls of the traversal, in order. */
  function SizeEntries(walk: seq<Path>, fs: FileSet, size: SizeOf): seq<(nat, Path)>
    decreases |walk|
  {
    if walk == [] then []
    else
      var n := |walk| - 1;
      SizeEntries(walk[..n], fs, size)
        + (if Sized(walk[n], fs, size) then [(size(walk[n]).value, walk[n])] else [])
  }

  /** The `name_dict[normalize_filename(file)].append(file_path)` calls, in order. */
  function NameEntries(walk: seq<Path>, fs: FileSet, size: SizeOf): seq<(string, Path)>
    decreases |walk|
  {
    if walk == [] then []
    else
      var n := |walk| - 1;
      NameEntries(walk[..n], fs, size)
        + (if Sized(walk[n], fs, size) then [(Normalize(walk[n].name), walk[n])] else [])
  }

  /** One more traversed path adds at most one entry to each dictionary's insertion sequence. */
  lemma EntriesSnoc(walk: seq<Path>, fs: FileSet, size: SizeOf, i: nat)
    requires i < |walk|
    ensures SizeEntries(walk[..i + 1], fs, size)
            == SizeEntries(walk[..i], fs, size) + (if Sized(walk[i], fs, size) then [(size(walk[i]).value, walk[i])] else [])
    ensures NameEntries(walk[..i + 1], fs, size)
            == NameEntries(walk[..i], fs, size) + (if Sized(walk[i], fs, size) then [(Normalize(walk[i].name), walk[i])] else [])
  {
    assert walk[..i + 1][..i] == walk[..i];
  }

  /** The traversal loop: `walk` lists `os.path.join(root, file)` for every file that
      `os.walk` yields, in the order it yields them. */
  method BucketFiles(walk: seq<Path>, fs: FileSet, size: SizeOf)
    returns (sizeDict: Dict<nat, Path>, nameDict: Dict<string, Path>)
    ensures sizeDict == GroupBy(SizeEntries(walk, fs, size))
    ensures nameDict == GroupBy(NameEntries(walk, fs, size))
  {
    sizeDict, nameDict := [], [];
    for i := 0 to |walk|
      invariant sizeDict == GroupBy(SizeEntries(walk[..i], fs, size))
      invariant nameDict == GroupBy(NameEntries(walk[..i], fs, size))
    {
      var filePath := walk[i];
      ghost var se, ne := SizeEntries(walk[..i], fs, size), NameEntries(walk[..i], fs, size);
      EntriesSnoc(walk, fs, size, i);
      if filePath in fs {
        var fileSize := size(filePath);
        if fileSize.Some? {
          var key := Normalize(filePath.name);
          GroupBySnoc(se, (fileSize.value, filePath));
          GroupBySnoc(ne, (key, filePath));
          sizeDict := Append(sizeDict, fileSize.value, filePath);
          nameDict := Append(nameDict, key, filePath);
        } else {
          assert se + [] == se && ne + [] == ne;
        }
      } else {
        assert se + [] == se && ne + [] == ne;
      }
    }
    assert walk[..|walk|] == walk;
  }

  /** Reference definition: the traversed paths of size `s`, in traversal order. */
  function SizeClass(walk: seq<Path>, fs: FileSet, size: SizeOf, s: nat): (r: seq<Path>)
    ensures forall p :: p in r ==> p in walk && Sized(p, fs, size) && size(p) == Some(s)
    decreases |walk|
  {
    if walk == [] then []
    else
      var n := |walk| - 1;
      var p := walk[n];
      SizeClass(walk[..n], fs, size, s) + (if Sized(p, fs, size) && size(p) == Some(s) then [p] else [])
  }

  /** Reference definition: the traversed paths whose name key is `key`, in traversal order. */
  function NameClass(walk: seq<Path>, fs: FileSet, size: SizeOf, key: string): (r: seq<Path>)
    ensures forall p :: p in r ==> p in walk && Sized(p, fs, size) && Normalize(p.name) == key
    decreases |walk|
  {
    if walk == [] then []
    else
      var n := |walk| - 1;
      var p := walk[n];
      NameClass(walk[..n], fs, size, key) + (if Sized(p, fs, size) && Normalize(p.name) == key then [p] else [])
  }

  lemma {:induction false} SizeEntriesMembers(walk: seq<Path>, fs: FileSet, size: SizeOf, s: nat)
    ensures Members(SizeEntries(walk, fs, size), s) == SizeClass(walk, fs, size, s)
    decreases |walk|
  {
    if walk != [] {
      var n := |walk| - 1;
      SizeEntriesMembers(walk[..n], fs, size, s);
      if Sized(walk[n], fs, size) {
        MembersSnoc(SizeEntries(walk[..n], fs, size), (size(walk[n]).value, walk[n]), s);
      } else {
        assert SizeEntries(walk, fs, size) == SizeEntries(walk[..n], fs, size);
      }
    }
  }

  lemma {:induction false} NameEntriesMembers(walk: seq<Path>, fs: FileSet, size: SizeOf, key: string)
    ensures Members(NameEntries(walk, fs, size), key) == NameClass(walk, fs, size, key)
    decreases |walk|
  {
    if walk != [] {
      var n := |walk| - 1;
      NameEntriesMembers(walk[..n], fs, size, key);
      if Sized(walk[n], fs, size) {
        MembersSnoc(NameEntries(walk[..n], fs, size), (Normalize(walk[n].name), walk[n]), key);
      } else {
        assert NameEntries(walk, fs, size) == NameEntries(walk[..n], fs, size);
      }
    }
  }

  /** The size bucket of `s` holds exactly the traversed paths of size `s`, in traversal order. */
  lemma SizeBucketIsSizeClass(walk: seq<Path>, fs: FileSet, size: SizeOf, s: nat)
    ensures Lookup(GroupBy(SizeEntries(walk, fs, size)), s) == SizeClass(walk, fs, size, s)
  {
    GroupByLookup(SizeEntries(walk, fs, size), s);
    SizeEntriesMembers(walk, fs, size, s);
  }

  /** The name bucket of `key` holds exactly the traversed paths with that key, in traversal order. */
  lemma NameBucketIsNameClass(walk: seq<Path>, fs: FileSet, size: SizeOf, key: string)
    ensures Lookup(GroupBy(NameEntries(walk, fs, size)), key) == NameClass(walk, fs, size, key)
  {
    GroupByLookup(NameEntries(walk, fs, size), key);
    NameEntriesMembers(walk, fs, size, key);
  }

  /** A path occurs in the size class of `s` as often as the traversal yields it when it
      exists with size `s`, and never otherwise. */
  lemma {:induction false} SizeClassCount(walk: seq<Path>, fs: FileSet, size: SizeOf, s: nat, p: Path)
    ensures multiset(SizeClass(walk, fs, size, s))[p]
            == if Sized(p, fs, size) && size(p) == Some(s) then multiset(walk)[p] else 0
    decreases |walk|
  {
    if walk != [] {
      var n := |walk| - 1;
      SizeClassCount(walk[..n], fs, size, s, p);
      assert walk == walk[..n] + [walk[n]];
    }
  }

  /** A path occurs in the name class of `key` as often as the traversal yields it when it
      exists, has a readable size and has that key, and never otherwise. */
  lemma {:induction false} NameClassCount(walk: seq<Path>, fs: FileSet, size: SizeOf, key: string, p: Path)
    ensures multiset(NameClass(walk, fs, size, key))[p]
            == if Sized(p, fs, size) && Normalize(p.name) == key then multiset(walk)[p] else 0
    decreases |walk|
  {
    if walk != [] {
      var n := |walk| - 1;
      NameClassCount(walk[..n], fs, size, key, p);
      assert walk == walk[..n] + [walk[n]];
    }
  }

  /** A traversed path that exists with a readable size belongs to the size class of its size. */
  lemma {:induction false} InOwnSizeClass(walk: seq<Path>, fs: FileSet, size: SizeOf, p: Path)
    requires p in walk && Sized(p, fs, size)
    ensures p in SizeClass(walk, fs, size, size(p).value)
  {
    SizeClassCount(walk, fs, size, size(p).value, p);
  }

  // ---------------------------------------------------------------------------
  // Stage 2: pairs of similar names inside each name bucket

  /** A test on two members of one name bucket. */
  type PairTest = (Path, Path) -> bool

  /** The test the pairing stage applies: `similar_name` on the two base names. */
  function NameTest(ratio: Ratio): PairTest
  {
    (a: Path, b: Path) => Similar(ratio, a.name, b.name)
  }

  /** The pairs `[l[i], l[k]]` for `i < k < j` that pass the test, in order of `k`. */
  function Row(l: Group, i: nat, j: nat, test: PairTest): seq<Group>
    requires i < |l| && j <= |l|
    decreases j
  {
    if j <= i + 1 then []
    else
      Row(l, i, j - 1, test) + (if test(l[i], l[j - 1]) then [[l[i], l[j - 1]]] else [])
  }

  /** The rows of `i = 0 .. m - 1`, one after the other. */
  function Rows(l: Group, m: nat, test: PairTest): seq<Group>
    requires m <= |l|
    decreases m
  {
    if m == 0 then [] else Rows(l, m - 1, test) + Row(l, m - 1, |l|, test)
  }

  /** The pairs one name bucket contributes: none unless it has more than one member. */
  function BucketPairs(l: Group, test: PairTest): seq<Group>
  {
    if |l| > 1 then Rows(l, |l|, test) else []
  }

  /** The pairs of all name buckets, bucket after bucket. */
  function NamePairs(nameDict: Dict<string, Path>, ratio: Ratio): seq<Group>
    decreases |nameDict|
  {
    if nameDict == [] then []
    else
      var n := |nameDict| - 1;
      NamePairs(nameDict[..n], ratio) + BucketPairs(nameDict[n].items, NameTest(ratio))
  }

  lemma NamePairsSnoc(nameDict: Dict<string, Path>, ratio: Ratio, b: nat)
    requires b < |nameDict|
    ensures NamePairs(nameDict[..b + 1], ratio)
            == NamePairs(nameDict[..b], ratio) + BucketPairs(nameDict[b].items, NameTest(ratio))
  {
    assert nameDict[..b + 1][..b] == nameDict[..b];
  }

  /** The innermost loop of the pairing stage: `file_list[i]` tested against every later member. */
  method PairRow(fileList: Group, i: nat, test: PairTest) returns (row: seq<Group>)
    requires i < |fileList|
    ensures row == Row(fileList, i, |fileList|, test)
  {
    row := [];
    for j := i + 1 to |fileList|
      invariant row == Row(fileList, i, j, test)
    {
      if test(fileList[i], fileList[j]) {
        row := row + [[fileList[i], fileList[j]]];
      }
    }
  }

  /** The two inner loops of the pairing stage, on one name bucket. */
  method PairBucket(fileList: Group, test: PairTest) returns (pairs: seq<Group>)
    ensures pairs == BucketPairs(fileList, test)
  {
    pairs := [];
    if |fileList| > 1 {
      for i := 0 to |fileList|
        invariant pairs == Rows(fileList, i, test)
      {
        var row := PairRow(fileList, i, test);
        pairs := pairs + row;
      }
    }
  }

  /** The loop over `name_dict.values()`: each bucket's pairs are appended to `duplicates`. */
  method PairSimilarNames(nameDict: Dict<string, Path>, ratio: Ratio) returns (duplicates: seq<Group>)
    ensures duplicates == NamePairs(nameDict, ratio)
  {
    duplicates := [];
    for b := 0 to |nameDict|
      invariant duplicates == NamePairs(nameDict[..b], ratio)
    {
      var pairs := PairBucket(nameDict[b].items, NameTest(ratio));
      NamePairsSnoc(nameDict, ratio, b);
      duplicates := duplicates + pairs;
    }
    assert nameDict[..|nameDict|] == nameDict;
  }

  lemma {:induction false} RowSound(l: Group, i: nat, j: nat, test: PairTest, g: Group)
    requires i < |l| && j <= |l| && g in Row(l, i, j, test)
    ensures exists k :: i < k < j && g == [l[i], l[k]] && test(l[i], l[k])
    decreases j
  {
    if j > i + 1 && g in Row(l, i, j - 1, test) {
      RowSound(l, i, j - 1, test, g);
    }
  }

  lemma {:induction false} RowsSound(l: Group, m: nat, test: PairTest, g: Group)
    requires m <= |l| && g in Rows(l, m, test)
    ensures exists i, k :: 0 <= i < k < |l| && i < m && g == [l[i], l[k]] && test(l[i], l[k])
    decreases m
  {
    assert Rows(l, m, test) == Rows(l, m - 1, test) + Row(l, m - 1, |l|, test);
    if g in Rows(l, m - 1, test) {
      RowsSound(l, m - 1, test, g);
      var i, k :| 0 <= i < k < |l| && i < m - 1 && g == [l[i], l[k]] && test(l[i], l[k]);
      assert i < m;
    } else {
      RowSound(l, m - 1, |l|, test, g);
      var k :| m - 1 < k < |l| && g == [l[m - 1], l[k]] && test(l[m - 1], l[k]);
      assert 0 <= m - 1 < k < |l| && m - 1 < m;
    }
  }

  /** Every group the name stage emits is a pair `[l[i], l[k]]` with `i < k` taken from one
      name bucket `l`, and the two base names pass `similar_name`. */
  lemma {:induction false} NamePairsSound(nameDict: Dict<string, Path>, ratio: Ratio, g: Group)
    requires g in NamePairs(nameDict, ratio)
    ensures exists b, i, k :: 0 <= b < |nameDict| && 0 <= i < k < |nameDict[b].items|
                              && g == [nameDict[b].items[i], nameDict[b].items[k]]
                              && Similar(ratio, nameDict[b].items[i].name, nameDict[b].items[k].name)
    decreases |nameDict|
  {
    var n := |nameDict| - 1;
    var l := nameDict[n].items;
    if g in NamePairs(nameDict[..n], ratio) {
      NamePairsSound(nameDict[..n], ratio, g);
      var b, i, k :| 0 <= b < n && 0 <= i < k < |nameDict[..n][b].items|
                     && g == [nameDict[..n][b].items[i], nameDict[..n][b].items[k]]
                     && Similar(ratio, nameDict[..n][b].items[i].name, nameDict[..n][b].items[k].name);
      assert nameDict[..n][b] == nameDict[b];
    } else {
      RowsSound(l, |l|, NameTest(ratio), g);
      var i, k :| 0 <= i < k < |l| && i < |l| && g == [l[i], l[k]] && NameTest(ratio)(l[i], l[k]);
      assert Similar(ratio, nameDict[n].items[i].name, nameDict[n].items[k].name);
    }
  }

  /** Every two members of the list pass the test, whichever comes first. */
  predicate AllPairsPass(l: Group, test: PairTest)
  {
    forall i, k :: 0 <= i < k < |l| ==> test(l[i], l[k])
  }

  lemma {:induction false} RowLength(l: Group, i: nat, j: nat, test: PairTest)
    requires i < |l| && j <= |l| && AllPairsPass(l, test)
    ensures |Row(l, i, j, test)| == if j <= i + 1 then 0 else j - i - 1
    decreases j
  {
    if j > i + 1 {
      RowLength(l, i, j - 1, test);
    }
  }

  lemma {:induction false} RowContent(l: Group, i: nat, j: nat, test: PairTest)
    requires i < |l| && j <= |l| && AllPairsPass(l, test)
    ensures forall k :: i < k < j ==> [l[i], l[k]] in Row(l, i, j, test)
    decreases j
  {
    if j > i + 1 {
      RowContent(l, i, j - 1, test);
      var prev := Row(l, i, j - 1, test);
      assert Row(l, i, j, test) == prev + [[l[i], l[j - 1]]];
      forall k | i < k < j ensures [l[i], l[k]] in prev + [[l[i], l[j - 1]]] {
        if k < j - 1 {
          assert [l[i], l[k]] in prev;
        }
      }
    }
  }

  /** `m` rows of a list of `n` members hold `m(2n - m - 1)/2` pairs when all pass. */
  lemma PairCountStep(m: nat, n: nat)
    requires 0 < m <= n
    ensures (m - 1) * (2 * n - m) + 2 * (n - m) == m * (2 * n - m - 1)
  {
    assert (m - 1) * (2 * n - m) == m * (2 * n - m) - (2 * n - m);
    assert m * (2 * n - m) - m == m * (2 * n - m - 1);
  }

  lemma {:induction false} RowsCount(l: Group, m: nat, test: PairTest)
    requires m <= |l| && AllPairsPass(l, test)
    ensures 2 * |Rows(l, m, test)| == m * (2 * |l| - m - 1)
    decreases m
  {
    if m > 0 {
      RowsCount(l, m - 1, test);
      RowLength(l, m - 1, |l|, test);
      PairCountStep(m, |l|);
    }
  }

  lemma {:induction false} RowsContain(l: Group, m: nat, test: PairTest)
    requires m <= |l| && AllPairsPass(l, test)
    ensures forall i, k :: 0 <= i < m && i < k < |l| ==> [l[i], l[k]] in Rows(l, m, test)
    decreases m
  {
    if m > 0 {
      RowsContain(l, m - 1, test);
      RowContent(l, m - 1, |l|, test);
      var prev, row := Rows(l, m - 1, test), Row(l, m - 1, |l|, test);
      assert Rows(l, m, test) == prev + row;
      forall i, k | 0 <= i < m && i < k < |l| ensures [l[i], l[k]] in prev + row {
        if i < m - 1 {
          assert [l[i], l[k]] in prev;
        } else {
          assert [l[m - 1], l[k]] in row;
        }
      }
    }
  }

  /** When every two members pass the test, a bucket of n members yields every pair
      `i < k`, n(n-1)/2 pairs in all. */
  lemma BucketPairsComplete(l: Group, test: PairTest)
    requires AllPairsPass(l, test)
    ensures 2 * |BucketPairs(l, test)| == |l| * (|l| - 1)
    ensures forall i, k :: 0 <= i < k < |l| ==> [l[i], l[k]] in BucketPairs(l, test)
  {
    RowsCount(l, |l|, test);
    RowsContain(l, |l|, test);
  }

  /** Every member of the list has name key `key`. */
  predicate SameKey(l: Group, key: string)
  {
    forall k :: 0 <= k < |l| ==> Normalize(l[k].name) == key
  }

  /**
   * On the name buckets the traversal builds, with difflib's guarantee that a string
   * matches itself fully, every bucket yields all n(n-1)/2 pairs of its members.
   */
  lemma NameBucketFullyPaired(walk: seq<Path>, fs: FileSet, size: SizeOf, ratio: Ratio, b: nat)
    requires SelfRatioIsOne(ratio)
    requires b < |GroupBy(NameEntries(walk, fs, size))|
    ensures var l := GroupBy(NameEntries(walk, fs, size))[b].items;
            2 * |BucketPairs(l, NameTest(ratio))| == |l| * (|l| - 1)
            && forall i, k :: 0 <= i < k < |l| ==> [l[i], l[k]] in BucketPairs(l, NameTest(ratio))
  {
    var d := GroupBy(NameEntries(walk, fs, size));
    var key := d[b].key;
    var l := d[b].items;
    LookupAt(d, b);
    NameBucketIsNameClass(walk, fs, size, key);
    assert SameKey(l, key);
    forall i, k | 0 <= i < k < |l| ensures NameTest(ratio)(l[i], l[k]) {
      SameKeyIsSimilar(ratio, l[i].name, l[k].name);
    }
    BucketPairsComplete(l, NameTest(ratio));
  }

  // ---------------------------------------------------------------------------
  // Stage 3: grouping members of shared size buckets by digest

  /** `os.path.exists(file)` holds and the hash is truthy (present and non-empty). */
  predicate Hashed(p: Path, fs: FileSet, hash: HashOf)
  {
    p in fs && hash(p).Some? && hash(p).value != []
  }

  /** The `hash_dict[file_hash].append(file)` calls for the members of one size bucket. */
  function DigestEntries(l: Group, fs: FileSet, hash: HashOf): seq<(Digest, Path)>
    decreases |l|
  {
    if l == [] then []
    else
      var n := |l| - 1;
      DigestEntries(l[..n], fs, hash) + (if Hashed(l[n], fs, hash) then [(hash(l[n]).value, l[n])] else [])
  }

  /** The `hash_dict` appends of all size buckets with more than one member, bucket after bucket. */
  function HashEntries(sizeDict: Dict<nat, Path>, fs: FileSet, hash: HashOf): seq<(Digest, Path)>
    decreases |sizeDict|
  {
    if sizeDict == [] then []
    else
      var n := |sizeDict| - 1;
      var l := sizeDict[n].items;
      HashEntries(sizeDict[..n], fs, hash) + (if |l| > 1 then DigestEntries(l, fs, hash) else [])
  }

  /** The inner loop over one size bucket: each existing member with a truthy hash is
      appended under its digest. */
  method HashBucket(hashDict: Dict<Digest, Path>, ghost done: seq<(Digest, Path)>, fileList: Group, fs: FileSet, hash: HashOf)
    returns (hashDict': Dict<Digest, Path>)
    requires hashDict == GroupBy(done)
    ensures hashDict' == GroupBy(done + DigestEntries(fileList, fs, hash))
  {
    hashDict' := hashDict;
    assert done + DigestEntries(fileList[..0], fs, hash) == done;
    for i := 0 to |fileList|
      invariant hashDict' == GroupBy(done + DigestEntries(fileList[..i], fs, hash))
    {
      var file := fileList[i];
      ghost var prev := done + DigestEntries(fileList[..i], fs, hash);
      DigestEntriesStep(done, fileList, fs, hash, i);
      if file in fs {
        var fileHash := hash(file);
        if fileHash.Some? && fileHash.value != [] {
          GroupBySnoc(prev, (fileHash.value, file));
          hashDict' := Append(hashDict', fileHash.value, file);
        } else {
          assert prev + [] == prev;
        }
      } else {
        assert prev + [] == prev;
      }
    }
    assert fileList[..|fileList|] == fileList;
  }

  lemma DigestEntriesStep(done: seq<(Digest, Path)>, l: Group, fs: FileSet, hash: HashOf, i: nat)
    requires i < |l|
    ensures done + DigestEntries(l[..i + 1], fs, hash)
            == done + DigestEntries(l[..i], fs, hash) + (if Hashed(l[i], fs, hash) then [(hash(l[i]).value, l[i])] else [])
  {
    assert l[..i + 1][..i] == l[..i];
  }

  lemma HashEntriesSnoc(sizeDict: Dict<nat, Path>, fs: FileSet, hash: HashOf, b: nat)
    requires b < |sizeDict|
    ensures HashEntries(sizeDict[..b + 1], fs, hash)
            == HashEntries(sizeDict[..b], fs, hash)
               + (if |sizeDict[b].items| > 1 then DigestEntries(sizeDict[b].items, fs, hash) else [])
  {
    assert sizeDict[..b + 1][..b] == sizeDict[..b];
  }

  /** The loop over `size_dict.values()` that fills `hash_dict`. */
  method GroupByDigest(sizeDict: Dict<nat, Path>, fs: FileSet, hash: HashOf) returns (hashDict: Dict<Digest, Path>)
    ensures hashDict == GroupBy(HashEntries(sizeDict, fs, hash))
  {
    hashDict := [];
    for b := 0 to |sizeDict|
      invariant hashDict == GroupBy(HashEntries(sizeDict[..b], fs, hash))
    {
      ghost var before := HashEntries(sizeDict[..b], fs, hash);
      var fileList := sizeDict[b].items;
      HashEntriesSnoc(sizeDict, fs, hash, b);
      if |fileList| > 1 {
        hashDict := HashBucket(hashDict, before, fileList, fs, hash);
      } else {
        assert before + [] == before;
      }
    }
    assert sizeDict[..|sizeDict|] == sizeDict;
  }

  lemma {:induction false} MembersConcat<K(!new), V>(a: seq<(K, V)>, b: seq<(K, V)>, k: K)
    ensures Members(a + b, k) == Members(a, k) + Members(b, k)
    decreases |b|
  {
    if b == [] {
      assert a + b == a;
    } else {
      var n := |b| - 1;
      assert (a + b)[..|a + b| - 1] == a + b[..n];
      MembersConcat(a, b[..n], k);
    }
  }

  lemma {:induction false} DigestEntriesMembers(l: Group, fs: FileSet, hash: HashOf, dg: Digest, p: Path)
    ensures p in Members(DigestEntries(l, fs, hash), dg) <==> p in l && Hashed(p, fs, hash) && hash(p).value == dg
    decreases |l|
  {
    if l != [] {
      var n := |l| - 1;
      var prev := DigestEntries(l[..n], fs, hash);
      var last := if Hashed(l[n], fs, hash) then [(hash(l[n]).value, l[n])] else [];
      MembersConcat(prev, last, dg);
      DigestEntriesMembers(l[..n], fs, hash, dg, p);
      assert l == l[..n] + [l[n]];
    }
  }

  /** `p` is a member of some size bucket with more than one member. */
  predicate InSharedBucket(sizeDict: Dict<nat, Path>, p: Path)
  {
    exists b :: 0 <= b < |sizeDict| && |sizeDict[b].items| > 1 && p in sizeDict[b].items
  }

  lemma InSharedBucketSnoc(sizeDict: Dict<nat, Path>, p: Path)
    requires sizeDict != []
    ensures var n := |sizeDict| - 1;
            InSharedBucket(sizeDict, p)
            <==> InSharedBucket(sizeDict[..n], p) || (|sizeDict[n].items| > 1 && p in sizeDict[n].items)
  {
    var n := |sizeDict| - 1;
    var l := sizeDict[n].items;
    if InSharedBucket(sizeDict, p) && !(|l| > 1 && p in l) {
      var b :| 0 <= b < |sizeDict| && |sizeDict[b].items| > 1 && p in sizeDict[b].items;
      assert sizeDict[..n][b] == sizeDict[b];
    }
    if InSharedBucket(sizeDict[..n], p) {
      var b :| 0 <= b < n && |sizeDict[..n][b].items| > 1 && p in sizeDict[..n][b].items;
      assert sizeDict[..n][b] == sizeDict[b];
    }
  }

  lemma {:induction false} HashEntriesMembers(sizeDict: Dict<nat, Path>, fs: FileSet, hash: HashOf, dg: Digest, p: Path)
    ensures p in Members(HashEntries(sizeDict, fs, hash), dg)
            <==> Hashed(p, fs, hash) && hash(p).value == dg && InSharedBucket(sizeDict, p)
    decreases |sizeDict|
  {
    if sizeDict != [] {
      var n := |sizeDict| - 1;
      var l := sizeDict[n].items;
      var prev := HashEntries(sizeDict[..n], fs, hash);
      var last := if |l| > 1 then DigestEntries(l, fs, hash) else [];
      assert HashEntries(sizeDict, fs, hash) == prev + last;
      MembersConcat(prev, last, dg);
      HashEntriesMembers(sizeDict[..n], fs, hash, dg, p);
      DigestEntriesMembers(l, fs, hash, dg, p);
      InSharedBucketSnoc(sizeDict, p);
    }
  }

  /** `hash_dict` as the traversal leaves it. */
  function HashDict(walk: seq<Path>, fs: FileSet, size: SizeOf, hash: HashOf): Dict<Digest, Path>
  {
    GroupBy(HashEntries(GroupBy(SizeEntries(walk, fs, size)), fs, hash))
  }

  /**
   * A path is in the digest group of `dg` exactly when the traversal yields it, it exists,
   * its size can be read and is shared with another traversed file, and its hash is
   * present, non-empty and equal to `dg`.
   */
  lemma DigestGroupMembers(walk: seq<Path>, fs: FileSet, size: SizeOf, hash: HashOf, dg: Digest, p: Path)
    ensures p in Lookup(HashDict(walk, fs, size, hash), dg)
            <==> p in walk && Sized(p, fs, size) && |SizeClass(walk, fs, size, size(p).value)| > 1
                 && Hashed(p, fs, hash) && hash(p).value == dg
  {
    var sizeDict := GroupBy(SizeEntries(walk, fs, size));
    GroupByLookup(HashEntries(sizeDict, fs, hash), dg);
    HashEntriesMembers(sizeDict, fs, hash, dg, p);
    if p in Lookup(HashDict(walk, fs, size, hash), dg) {
      assert InSharedBucket(sizeDict, p);
      var b :| 0 <= b < |sizeDict| && |sizeDict[b].items| > 1 && p in sizeDict[b].items;
      LookupAt(sizeDict, b);
      SizeBucketIsSizeClass(walk, fs, size, sizeDict[b].key);
    }
    if p in walk && Sized(p, fs, size) && |SizeClass(walk, fs, size, size(p).value)| > 1
       && Hashed(p, fs, hash) && hash(p).value == dg {
      var s := size(p).value;
      SizeBucketIsSizeClass(walk, fs, size, s);
      InOwnSizeClass(walk, fs, size, p);
      GroupByHasKey(SizeEntries(walk, fs, size), s);
      var b := Find(sizeDict, s);
      assert sizeDict[b].items == SizeClass(walk, fs, size, s);
    }
  }

  // ---------------------------------------------------------------------------
  // Stage 4: appending the digest groups

  /** `duplicates` after the loop over `hash_dict.values()`: a group with more than one
      member is appended unless an equal list is already there. */
  function MergeHashGroups(groups: seq<Group>, hashDict: Dict<Digest, Path>): seq<Group>
    decreases |hashDict|
  {
    if hashDict == [] then groups
    else
      var n := |hashDict| - 1;
      var prev := MergeHashGroups(groups, hashDict[..n]);
      var fileList := hashDict[n].items;
      if |fileList| > 1 && fileList !in prev then prev + [fileList] else prev
  }

  method AppendHashGroups(groups: seq<Group>, hashDict: Dict<Digest, Path>) returns (duplicates: seq<Group>)
    ensures duplicates == MergeHashGroups(groups, hashDict)
  {
    duplicates := groups;
    for b := 0 to |hashDict|
      invariant duplicates == MergeHashGroups(groups, hashDict[..b])
    {
      var fileList := hashDict[b].items;
      assert hashDict[..b + 1][..b] == hashDict[..b];
      if |fileList| > 1 && fileList !in duplicates {
        duplicates := duplicates + [fileList];
      }
    }
    assert hashDict[..|hashDict|] == hashDict;
  }

  /**
   * The groups already present stay in front, unchanged; each appended group has more than
   * one member, is one of the digest groups and equals no group before it; and every
   * digest group with more than one member ends up in the list.
   */
  lemma {:induction false} MergeHashGroupsSpec(groups: seq<Group>, hashDict: Dict<Digest, Path>)
    ensures groups <= MergeHashGroups(groups, hashDict)
    ensures var r := MergeHashGroups(groups, hashDict);
            forall t :: |groups| <= t < |r| ==>
              |r[t]| > 1 && r[t] !in r[..t] && exists b :: 0 <= b < |hashDict| && r[t] == hashDict[b].items
    ensures forall b :: 0 <= b < |hashDict| && |hashDict[b].items| > 1 ==> hashDict[b].items in MergeHashGroups(groups, hashDict)
    decreases |hashDict|
  {
    if hashDict != [] {
      var n := |hashDict| - 1;
      MergeHashGroupsSpec(groups, hashDict[..n]);
      var prev := MergeHashGroups(groups, hashDict[..n]);
      var r := MergeHashGroups(groups, hashDict);
      assert forall b :: 0 <= b < n ==> hashDict[..n][b] == hashDict[b];
      assert prev <= r;
      forall t | |groups| <= t < |r|
        ensures |r[t]| > 1 && r[t] !in r[..t] && exists b :: 0 <= b < |hashDict| && r[t] == hashDict[b].items
      {
        if t < |prev| {
          assert r[..t] == prev[..t];
          var b :| 0 <= b < n && prev[t] == hashDict[..n][b].items;
        } else {
          assert r[..t] == prev;
        }
      }
    }
  }

  // ---------------------------------------------------------------------------
  // The whole detection pipeline

  /** `duplicates` as `find_duplicate_files` builds it before reporting. */
  function Duplicates(walk: seq<Path>, fs: FileSet, size: SizeOf, hash: HashOf, ratio: Ratio): seq<Group>
  {
    MergeHashGroups(NamePairs(GroupBy(NameEntries(walk, fs, size)), ratio), HashDict(walk, fs, size, hash))
  }

  /**
   * The detection part of `find_duplicate_files`. Every group has at least two members,
   * all name pairs come first and in bucket order, and every digest group with more than
   * one member follows them unless an equal list is already present.
   */
  method FindDuplicates(walk: seq<Path>, fs: FileSet, size: SizeOf, hash: HashOf, ratio: Ratio)
    returns (duplicates: seq<Group>)
    ensures duplicates == Duplicates(walk, fs, size, hash, ratio)
    ensures forall g :: g in duplicates ==> |g| >= 2
    ensures NamePairs(GroupBy(NameEntries(walk, fs, size)), ratio) <= duplicates
    ensures forall dg :: |Lookup(HashDict(walk, fs, size, hash), dg)| > 1 ==> Lookup(HashDict(walk, fs, size, hash), dg) in duplicates
  {
    var sizeDict, nameDict := BucketFiles(walk, fs, size);
    var pairs := PairSimilarNames(nameDict, ratio);
    var hashDict := GroupByDigest(sizeDict, fs, hash);
    duplicates := AppendHashGroups(pairs, hashDict);
    MergeHashGroupsSpec(pairs, hashDict);
    forall g | g in duplicates ensures |g| >= 2 {
      var t :| 0 <= t < |duplicates| && duplicates[t] == g;
      if t < |pairs| {
        NamePairsSound(nameDict, ratio, g);
      }
    }
    forall dg | |Lookup(hashDict, dg)| > 1 ensures Lookup(hashDict, dg) in duplicates {
      LookupAt(hashDict, Find(hashDict, dg));
    }
  }

  /**
   * Two different traversed files that exist, share a size and share a digest end up in
   * the same digest group, and that group is among the duplicates.
   */
  lemma SameContentSameGroup(walk: seq<Path>, fs: FileSet, size: SizeOf, hash: HashOf, ratio: Ratio, p: Path, q: Path)
    requires p in walk && q in walk && p != q
    requires Sized(p, fs, size) && Sized(q, fs, size) && size(p) == size(q)
    requires Hashed(p, fs, hash) && Hashed(q, fs, hash) && hash(p) == hash(q)
    ensures var g := Lookup(HashDict(walk, fs, size, hash), hash(p).value);
            p in g && q in g && g in Duplicates(walk, fs, size, hash, ratio)
  {
    var s, dg := size(p).value, hash(p).value;
    var c := SizeClass(walk, fs, size, s);
    InOwnSizeClass(walk, fs, size, p);
    InOwnSizeClass(walk, fs, size, q);
    TwoMembers(c, p, q);
    DigestGroupMembers(walk, fs, size, hash, dg, p);
    DigestGroupMembers(walk, fs, size, hash, dg, q);
    var hashDict := HashDict(walk, fs, size, hash);
    var g := Lookup(hashDict, dg);
    var b := Find(hashDict, dg);
    assert b >= 0 && g == hashDict[b].items;
    TwoMembers(g, p, q);
    MergeHashGroupsSpec(NamePairs(GroupBy(NameEntries(walk, fs, size)), ratio), hashDict);
  }

  lemma TwoMembers<T>(s: seq<T>, x: T, y: T)
    requires x in s && y in s && x != y
    ensures |s| > 1
  {
  }

  /**
   * When equal digests only ever come from equal sizes (no hash collision across sizes),
   * every member of a digest group has the same size: files of different sizes never share
   * a group.
   */
  lemma DigestGroupOneSize(walk: seq<Path>, fs: FileSet, size: SizeOf, hash: HashOf, dg: Digest, p: Path, q: Path)
    requires forall x, y :: Hashed(x, fs, hash) && Hashed(y, fs, hash) && hash(x) == hash(y) ==> size(x) == size(y)
    requires p in Lookup(HashDict(walk, fs, size, hash), dg) && q in Lookup(HashDict(walk, fs, size, hash), dg)
    ensures Sized(p, fs, size) && Sized(q, fs, size) && size(p) == size(q)
  {
    DigestGroupMembers(walk, fs, size, hash, dg, p);
    DigestGroupMembers(walk, fs, size, hash, dg, q);
  }
}
