/**
 * Concrete runs of the pipeline on small directories: the behaviour the system is
 * expected to show end to end, and two behaviours of the code that a reader might not
 * expect (a path in both a name pair and a digest group; a whole set of copies lost
 * under choice "1").
 */
module Scenarios {
  import opened Wrappers
  import opened Text
  import opened FileNames
  import opened OrderedDict
  import opened Finder
  import opened Disposal

  // ---------------------------------------------------------------------------
  // Small dictionaries

  lemma GroupByTwo<K, V>(k1: K, v1: V, k2: K, v2: V)
    ensures GroupBy([(k1, v1), (k2, v2)])
            == if k1 == k2 then [Bucket(k1, [v1, v2])] else [Bucket(k1, [v1]), Bucket(k2, [v2])]
  {
    GroupBySnoc([], (k1, v1));
    assert [] + [(k1, v1)] == [(k1, v1)];
    var d1 := GroupBy([(k1, v1)]);
    assert d1 == [Bucket(k1, [v1])];
    GroupBySnoc([(k1, v1)], (k2, v2));
    assert [(k1, v1)] + [(k2, v2)] == [(k1, v1), (k2, v2)];
    if k1 == k2 {
      assert Find(d1, k2) == 0;
      assert [v1] + [v2] == [v1, v2];
    } else {
      assert Find(d1, k2) == -1;
    }
  }

  lemma GroupByThreeSame<K, V>(k: K, v1: V, v2: V, v3: V)
    ensures GroupBy([(k, v1), (k, v2), (k, v3)]) == [Bucket(k, [v1, v2, v3])]
  {
    GroupByTwo(k, v1, k, v2);
    GroupBySnoc([(k, v1), (k, v2)], (k, v3));
    var d2 := [Bucket(k, [v1, v2])];
    assert Find(d2, k) == 0;
    assert [v1, v2] + [v3] == [v1, v2, v3];
    assert [(k, v1), (k, v2)] + [(k, v3)] == [(k, v1), (k, v2), (k, v3)];
  }

  /** The pairs of a bucket of one member: none. */
  lemma SingletonPairs(p: Path, test: PairTest)
    ensures BucketPairs([p], test) == []
  {
  }

  /** A bucket of two members yields their pair exactly when it passes the test. */
  lemma PairOfTwo(p: Path, q: Path, test: PairTest)
    ensures BucketPairs([p, q], test) == if test(p, q) then [[p, q]] else []
  {
    var l := [p, q];
    assert Row(l, 1, 2, test) == [];
    assert Row(l, 0, 2, test) == Row(l, 0, 1, test) + (if test(p, q) then [[p, q]] else []);
    assert Rows(l, 2, test) == Rows(l, 1, test) + Row(l, 1, 2, test);
  }

  // ---------------------------------------------------------------------------
  // The stages on two or three files

  lemma EntriesOfTwo(a: Path, b: Path, fs: FileSet, size: SizeOf)
    requires Sized(a, fs, size) && Sized(b, fs, size)
    ensures SizeEntries([a, b], fs, size) == [(size(a).value, a), (size(b).value, b)]
    ensures NameEntries([a, b], fs, size) == [(Normalize(a.name), a), (Normalize(b.name), b)]
  {
    assert [a, b][..1] == [a];
    assert [a][..0] == [];
    var sa, sb := (size(a).value, a), (size(b).value, b);
    var na, nb := (Normalize(a.name), a), (Normalize(b.name), b);
    assert SizeEntries([a], fs, size) == [] + [sa] == [sa];
    assert NameEntries([a], fs, size) == [] + [na] == [na];
    assert SizeEntries([a, b], fs, size) == [sa] + [sb] == [sa, sb];
    assert NameEntries([a, b], fs, size) == [na] + [nb] == [na, nb];
  }

  lemma EntriesOfThree(a: Path, b: Path, c: Path, fs: FileSet, size: SizeOf)
    requires Sized(a, fs, size) && Sized(b, fs, size) && Sized(c, fs, size)
    ensures SizeEntries([a, b, c], fs, size) == [(size(a).value, a), (size(b).value, b), (size(c).value, c)]
    ensures NameEntries([a, b, c], fs, size) == [(Normalize(a.name), a), (Normalize(b.name), b), (Normalize(c.name), c)]
  {
    assert [a, b, c][..2] == [a, b];
    EntriesOfTwo(a, b, fs, size);
    var sa, sb, sc := (size(a).value, a), (size(b).value, b), (size(c).value, c);
    var na, nb, nc := (Normalize(a.name), a), (Normalize(b.name), b), (Normalize(c.name), c);
    assert SizeEntries([a, b, c], fs, size) == [sa, sb] + [sc] == [sa, sb, sc];
    assert NameEntries([a, b, c], fs, size) == [na, nb] + [nc] == [na, nb, nc];
  }

  lemma NamePairsOneBucket(k: string, l: Group, ratio: Ratio)
    ensures NamePairs([Bucket(k, l)], ratio) == BucketPairs(l, NameTest(ratio))
  {
    assert [Bucket(k, l)][..0] == [];
  }

  lemma NamePairsTwoSingletons(ka: string, a: Path, kb: string, b: Path, ratio: Ratio)
    ensures NamePairs([Bucket(ka, [a]), Bucket(kb, [b])], ratio) == []
  {
    var d := [Bucket(ka, [a]), Bucket(kb, [b])];
    assert d[..1] == [Bucket(ka, [a])];
    NamePairsOneBucket(ka, [a], ratio);
  }

  lemma DigestEntriesOfTwo(a: Path, b: Path, fs: FileSet, hash: HashOf)
    requires Hashed(a, fs, hash) && Hashed(b, fs, hash)
    ensures DigestEntries([a, b], fs, hash) == [(hash(a).value, a), (hash(b).value, b)]
  {
    assert [a, b][..1] == [a];
    assert [a][..0] == [];
    var ea, eb := (hash(a).value, a), (hash(b).value, b);
    assert DigestEntries([a], fs, hash) == [] + [ea] == [ea];
    assert DigestEntries([a, b], fs, hash) == [ea] + [eb] == [ea, eb];
  }

  lemma DigestEntriesOfThree(a: Path, b: Path, c: Path, fs: FileSet, hash: HashOf)
    requires Hashed(a, fs, hash) && Hashed(b, fs, hash) && Hashed(c, fs, hash)
    ensures DigestEntries([a, b, c], fs, hash) == [(hash(a).value, a), (hash(b).value, b), (hash(c).value, c)]
  {
    assert [a, b, c][..2] == [a, b];
    DigestEntriesOfTwo(a, b, fs, hash);
    var ea, eb, ec := (hash(a).value, a), (hash(b).value, b), (hash(c).value, c);
    assert DigestEntries([a, b, c], fs, hash) == [ea, eb] + [ec] == [ea, eb, ec];
  }

  lemma HashEntriesOneBucket(s: nat, l: Group, fs: FileSet, hash: HashOf)
    requires |l| > 1
    ensures HashEntries([Bucket(s, l)], fs, hash) == DigestEntries(l, fs, hash)
  {
    assert [Bucket(s, l)][..0] == [];
  }

  lemma MergeOneBucket(groups: seq<Group>, dg: Digest, l: Group)
    ensures MergeHashGroups(groups, [Bucket(dg, l)]) == if |l| > 1 && l !in groups then groups + [l] else groups
  {
    assert [Bucket(dg, l)][..0] == [];
  }

  lemma MergeTwoSingletons(groups: seq<Group>, d1: Digest, a: Path, d2: Digest, b: Path)
    ensures MergeHashGroups(groups, [Bucket(d1, [a]), Bucket(d2, [b])]) == groups
  {
    assert [Bucket(d1, [a]), Bucket(d2, [b])][..1] == [Bucket(d1, [a])];
    MergeOneBucket(groups, d1, [a]);
  }

  lemma TailsOfOne(g: Group)
    ensures Tails([g]) == TailUpTo(g, |g|)
  {
    assert [g][..0] == [];
  }

  lemma GroupByPairThenNew<K, V>(k: K, v1: V, v2: V, k': K, v3: V)
    requires k != k'
    ensures GroupBy([(k, v1), (k, v2), (k', v3)]) == [Bucket(k, [v1, v2]), Bucket(k', [v3])]
  {
    GroupByTwo(k, v1, k, v2);
    GroupBySnoc([(k, v1), (k, v2)], (k', v3));
    assert Find([Bucket(k, [v1, v2])], k') == -1;
    assert [(k, v1), (k, v2)] + [(k', v3)] == [(k, v1), (k, v2), (k', v3)];
  }

  lemma GroupByNewThenPair<K, V>(k: K, v1: V, k': K, v2: V, v3: V)
    requires k != k'
    ensures GroupBy([(k, v1), (k', v2), (k', v3)]) == [Bucket(k, [v1]), Bucket(k', [v2, v3])]
  {
    GroupByTwo(k, v1, k', v2);
    GroupBySnoc([(k, v1), (k', v2)], (k', v3));
    assert Find([Bucket(k, [v1]), Bucket(k', [v2])], k') == 1;
    assert [v2] + [v3] == [v2, v3];
    assert [(k, v1), (k', v2)] + [(k', v3)] == [(k, v1), (k', v2), (k', v3)];
  }

  /** A bucket of three members that all pass the test yields its three pairs in loop order. */
  lemma PairsOfThree(p: Path, q: Path, r: Path, test: PairTest)
    requires test(p, q) && test(p, r) && test(q, r)
    ensures BucketPairs([p, q, r], test) == [[p, q], [p, r], [q, r]]
  {
    var l := [p, q, r];
    assert Row(l, 0, 3, test) == Row(l, 0, 2, test) + [[p, r]];
    assert Row(l, 0, 2, test) == Row(l, 0, 1, test) + [[p, q]];
    assert Row(l, 1, 3, test) == Row(l, 1, 2, test) + [[q, r]];
    assert Row(l, 2, 3, test) == [];
    assert Rows(l, 3, test) == Rows(l, 2, test) + Row(l, 2, 3, test);
    assert Rows(l, 2, test) == Rows(l, 1, test) + Row(l, 1, 3, test);
    assert Rows(l, 1, test) == Rows(l, 0, test) + Row(l, 0, 3, test);
  }

  lemma NamePairsTwoBuckets(k1: string, l1: Group, k2: string, l2: Group, ratio: Ratio)
    ensures NamePairs([Bucket(k1, l1), Bucket(k2, l2)], ratio)
            == BucketPairs(l1, NameTest(ratio)) + BucketPairs(l2, NameTest(ratio))
  {
    assert [Bucket(k1, l1), Bucket(k2, l2)][..1] == [Bucket(k1, l1)];
    NamePairsOneBucket(k1, l1, ratio);
  }

  lemma HashEntriesSingletonThenShared(s1: nat, a: Path, s2: nat, l: Group, fs: FileSet, hash: HashOf)
    requires |l| > 1
    ensures HashEntries([Bucket(s1, [a]), Bucket(s2, l)], fs, hash) == DigestEntries(l, fs, hash)
  {
    var d := [Bucket(s1, [a]), Bucket(s2, l)];
    assert d[..1] == [Bucket(s1, [a])];
    assert [Bucket(s1, [a])][..0] == [];
    assert HashEntries([Bucket(s1, [a])], fs, hash) == [] + [] == [];
    assert HashEntries(d, fs, hash) == [] + DigestEntries(l, fs, hash);
  }

  /** The key of a name made of a plain stem, a number and an extension. */
  lemma NumberedKey(stem: string, digits: string, ext: string, name: Name)
    requires name == stem + digits + ext && AllDigits(digits)
    requires IsExtension(ext) && !AllDots(stem)
    requires stem != [] && !IsDigit(stem[|stem| - 1]) && !IsSpace(stem[0]) && !IsSpace(stem[|stem| - 1])
    ensures Normalize(name) == Lower(stem) + Lower(ext)
    ensures |Normalize(name)| == |stem| + |ext|
  {
    TrailingDigitsIgnored(stem, digits, ext);
    NormalizePlain(stem, ext);
    LowerSpec(stem);
    LowerSpec(ext);
  }

  /** Lower-casing leaves a string without upper-case letters as it is. */
  lemma LowerOfLowerCase(s: string)
    requires forall k :: 0 <= k < |s| ==> !IsUpper(s[k])
    ensures Lower(s) == s
  {
    LowerSpec(s);
  }

  /** Digits are removed where they end the stem: "file2.txt" has the key "file.txt".
      The names are parameters pinned by `requires`, so the verifier never unfolds
      `Normalize` on a string literal; the helper lemmas compute the keys instead. */
  lemma FileKey(numbered: Name, plain: Name)
    requires numbered == "file2.txt" && plain == "file.txt"
    ensures Normalize(numbered) == Normalize(plain) == plain
  {
    var stem, ext := "file", ".txt";
    assert IsExtension(ext) && !AllDots(stem) by {
      assert stem[0] != '.';
    }
    assert AllDigits("2");
    NumberedKey(stem, "2", ext, numbered);
    PlainKey(stem, ext, plain);
    LowerOfLowerCase(stem);
    LowerOfLowerCase(ext);
  }

  /** The key of a name made of a plain stem and an extension. */
  lemma PlainKey(stem: string, ext: string, name: Name)
    requires name == stem + ext
    requires IsExtension(ext) && !AllDots(stem)
    requires stem != [] && !IsDigit(stem[|stem| - 1]) && !IsSpace(stem[0]) && !IsSpace(stem[|stem| - 1])
    ensures Normalize(name) == Lower(stem) + Lower(ext)
    ensures |Normalize(name)| == |stem| + |ext|
  {
    NormalizePlain(stem, ext);
    LowerSpec(stem);
    LowerSpec(ext);
  }

  /** Digits inside the stem stay: "file2x.txt" does not have the key "file.txt".
      The names are parameters pinned by `requires`, so the verifier never unfolds
      `Normalize` on a string literal; the helper lemmas compute the keys instead. */
  lemma InnerDigitsKept(name: Name)
    requires name == "file2x.txt"
    ensures Normalize(name) != "file.txt"
  {
    var stem, ext := "file2x", ".txt";
    assert IsExtension(ext) && !AllDots(stem) by {
      assert stem[0] != '.';
    }
    PlainKey(stem, ext, name);
  }

  // ---------------------------------------------------------------------------
  // Two copies under different names

  /** Two existing files of one size and one digest whose keys differ: one group, the pair. */
  lemma TwoCopies(a: Path, b: Path, fs: FileSet, size: SizeOf, hash: HashOf, ratio: Ratio)
    requires Sized(a, fs, size) && Sized(b, fs, size) && size(a) == size(b)
    requires Hashed(a, fs, hash) && Hashed(b, fs, hash) && hash(a) == hash(b)
    requires Normalize(a.name) != Normalize(b.name)
    ensures Duplicates([a, b], fs, size, hash, ratio) == [[a, b]]
  {
    var ka, kb := Normalize(a.name), Normalize(b.name);
    var s, dg := size(a).value, hash(a).value;
    EntriesOfTwo(a, b, fs, size);
    GroupByTwo(ka, a, kb, b);
    GroupByTwo(s, a, s, b);
    NamePairsTwoSingletons(ka, a, kb, b, ratio);
    DigestEntriesOfTwo(a, b, fs, hash);
    HashEntriesOneBucket(s, [a, b], fs, hash);
    GroupByTwo(dg, a, dg, b);
    MergeOneBucket([], dg, [a, b]);
  }

  /** "report.txt" and "report_copy.txt" have different keys.
      The names are parameters pinned by `requires`, so the verifier never unfolds
      `Normalize` on a string literal; the helper lemmas compute the keys instead. */
  lemma ReportKeys(original: Name, copy: Name)
    requires original == "report.txt" && copy == "report_copy.txt"
    ensures Normalize(original) != Normalize(copy)
  {
    var ext := ".txt";
    assert IsExtension(ext) && !AllDots("report") && !AllDots("report_copy") by {
      assert "report"[0] != '.' && "report_copy"[0] != '.';
    }
    PlainKey("report", ext, original);
    PlainKey("report_copy", ext, copy);
  }

  /**
   * `report.txt` and `report_copy.txt`, 100 bytes each with the same content: their keys
   * differ, so no name pair is formed; they share a size bucket and a digest, so the result
   * is exactly one group of two, and choice "1" leaves exactly one of them.
   */
  lemma ReportAndCopy(ratio: Ratio)
    ensures var a, b := Path("docs", "report.txt"), Path("docs", "report_copy.txt");
            var fs := {a, b};
            var dups := Duplicates([a, b], fs, p => Some(100), p => Some("5d41"), ratio);
            dups == [[a, b]] && fs - Tails(dups) == {a}
  {
    var a, b := Path("docs", "report.txt"), Path("docs", "report_copy.txt");
    ReportKeys(a.name, b.name);
    TwoCopies(a, b, {a, b}, p => Some(100), p => Some("5d41"), ratio);
    TailsOfOne([a, b]);
    assert TailUpTo([a, b], 2) == {b};
  }

  // ---------------------------------------------------------------------------
  // Two names that differ only in a trailing number

  /** Two existing files of one size whose keys agree and pass `similar_name` but whose
      digests differ: no digest group, one name pair. */
  lemma TwoSimilarNames(a: Path, b: Path, fs: FileSet, size: SizeOf, hash: HashOf, ratio: Ratio)
    requires Sized(a, fs, size) && Sized(b, fs, size) && size(a) == size(b)
    requires Hashed(a, fs, hash) && Hashed(b, fs, hash) && hash(a) != hash(b)
    requires Normalize(a.name) == Normalize(b.name) && Similar(ratio, a.name, b.name)
    ensures Duplicates([a, b], fs, size, hash, ratio) == [[a, b]]
  {
    var k, s := Normalize(a.name), size(a).value;
    EntriesOfTwo(a, b, fs, size);
    GroupByTwo(k, a, k, b);
    GroupByTwo(s, a, s, b);
    NamePairsOneBucket(k, [a, b], ratio);
    PairOfTwo(a, b, NameTest(ratio));
    DigestEntriesOfTwo(a, b, fs, hash);
    HashEntriesOneBucket(s, [a, b], fs, hash);
    GroupByTwo(hash(a).value, a, hash(b).value, b);
    MergeTwoSingletons([[a, b]], hash(a).value, a, hash(b).value, b);
  }

  /** "invoice1.pdf" and "invoice2.pdf" have one key.
      The names are parameters pinned by `requires`, so the verifier never unfolds
      `Normalize` on a string literal; the helper lemmas compute the keys instead. */
  lemma InvoiceKeys(first: Name, second: Name)
    requires first == "invoice1.pdf" && second == "invoice2.pdf"
    ensures Normalize(first) == Normalize(second)
  {
    var stem, ext := "invoice", ".pdf";
    assert IsExtension(ext) && !AllDots(stem) by {
      assert stem[0] != '.';
    }
    assert AllDigits("1") && AllDigits("2");
    NumberedKey(stem, "1", ext, first);
    NumberedKey(stem, "2", ext, second);
  }

  /**
   * `invoice1.pdf` and `invoice2.pdf`, 50 bytes each with different content: the digests
   * differ, so no digest group; the names share a key, which difflib scores 1 against
   * itself, so the result is exactly the one name pair.
   */
  lemma InvoicePair(ratio: Ratio)
    requires SelfRatioIsOne(ratio)
    ensures var a, b := Path("docs", "invoice1.pdf"), Path("docs", "invoice2.pdf");
            Duplicates([a, b], {a, b}, p => Some(50), p => if p == a then Some("aa") else Some("bb"), ratio)
            == [[a, b]]
  {
    var a, b := Path("docs", "invoice1.pdf"), Path("docs", "invoice2.pdf");
    InvoiceKeys(a.name, b.name);
    SameKeyIsSimilar(ratio, a.name, b.name);
    TwoSimilarNames(a, b, {a, b}, p => Some(50), p => if p == a then Some("aa") else Some("bb"), ratio);
  }

  // ---------------------------------------------------------------------------
  // A single file

  /** A directory holding a single file yields no group at all, so nothing is asked and
      nothing changes. */
  lemma SingleFile(a: Path, fs: FileSet, size: SizeOf, hash: HashOf, ratio: Ratio)
    ensures Duplicates([a], fs, size, hash, ratio) == []
  {
    assert [a][..0] == [];
    if Sized(a, fs, size) {
      var k, s := Normalize(a.name), size(a).value;
      assert NameEntries([a], fs, size) == [] + [(k, a)] == [(k, a)];
      assert SizeEntries([a], fs, size) == [] + [(s, a)] == [(s, a)];
      GroupBySnoc([], (k, a));
      GroupBySnoc([], (s, a));
      assert GroupBy(NameEntries([a], fs, size)) == [Bucket(k, [a])];
      assert GroupBy(SizeEntries([a], fs, size)) == [Bucket(s, [a])];
      NamePairsOneBucket(k, [a], ratio);
      assert [Bucket(s, [a])][..0] == [];
      assert HashEntries([Bucket(s, [a])], fs, hash) == [] + [] == [];
    } else {
      assert NameEntries([a], fs, size) == [] && SizeEntries([a], fs, size) == [];
    }
    assert HashDict([a], fs, size, hash) == [];
  }

  // ---------------------------------------------------------------------------
  // A path in a name pair and in a digest group

  /**
   * Three copies `x1.txt`, `x2.txt`, `x3.txt` of one file: the name stage pairs all three
   * and the digest group of all three follows, so `x1.txt` sits both in a name pair and in
   * a digest group. Nothing keeps the stages apart.
   */
  lemma ThreeCopies(a: Path, b: Path, c: Path, fs: FileSet, size: SizeOf, hash: HashOf, ratio: Ratio)
    requires Sized(a, fs, size) && Sized(b, fs, size) && Sized(c, fs, size)
    requires size(a) == size(b) == size(c)
    requires Hashed(a, fs, hash) && Hashed(b, fs, hash) && Hashed(c, fs, hash)
    requires hash(a) == hash(b) == hash(c)
    requires Normalize(a.name) == Normalize(b.name) == Normalize(c.name)
    requires Similar(ratio, a.name, b.name) && Similar(ratio, a.name, c.name) && Similar(ratio, b.name, c.name)
    ensures Duplicates([a, b, c], fs, size, hash, ratio) == [[a, b], [a, c], [b, c], [a, b, c]]
  {
    var k, s, dg := Normalize(a.name), size(a).value, hash(a).value;
    EntriesOfThree(a, b, c, fs, size);
    GroupByThreeSame(k, a, b, c);
    GroupByThreeSame(s, a, b, c);
    NamePairsOneBucket(k, [a, b, c], ratio);
    PairsOfThree(a, b, c, NameTest(ratio));
    DigestEntriesOfThree(a, b, c, fs, hash);
    HashEntriesOneBucket(s, [a, b, c], fs, hash);
    GroupByThreeSame(dg, a, b, c);
    var pairs := [[a, b], [a, c], [b, c]];
    assert [a, b, c] !in pairs by {
      forall t | 0 <= t < 3 ensures pairs[t] != [a, b, c] {
        assert |pairs[t]| == 2;
      }
    }
    MergeOneBucket(pairs, dg, [a, b, c]);
  }

  /** "x1.txt", "x2.txt" and "x3.txt" have one key.
      The names are parameters pinned by `requires`, so the verifier never unfolds
      `Normalize` on a string literal; the helper lemmas compute the keys instead. */
  lemma XKeys(n1: Name, n2: Name, n3: Name)
    requires n1 == "x1.txt" && n2 == "x2.txt" && n3 == "x3.txt"
    ensures Normalize(n1) == Normalize(n2) == Normalize(n3)
  {
    var stem, ext := "x", ".txt";
    assert IsExtension(ext) && !AllDots(stem) by {
      assert stem[0] != '.';
    }
    assert AllDigits("1") && AllDigits("2") && AllDigits("3");
    NumberedKey(stem, "1", ext, n1);
    NumberedKey(stem, "2", ext, n2);
    NumberedKey(stem, "3", ext, n3);
  }

  /** With `x1.txt`, `x2.txt` and `x3.txt` under one directory: `x1.txt` is in the first
      name pair and in the digest group appended after the pairs. */
  lemma PathInPairAndDigestGroup(ratio: Ratio)
    requires SelfRatioIsOne(ratio)
    ensures var a, b, c := Path("d", "x1.txt"), Path("d", "x2.txt"), Path("d", "x3.txt");
            var dups := Duplicates([a, b, c], {a, b, c}, p => Some(7), p => Some("e3b0"), ratio);
            |dups| == 4 && a in dups[0] && a in dups[3] && |dups[0]| == 2 && |dups[3]| == 3
  {
    var a, b, c := Path("d", "x1.txt"), Path("d", "x2.txt"), Path("d", "x3.txt");
    XKeys(a.name, b.name, c.name);
    SameKeyIsSimilar(ratio, a.name, b.name);
    SameKeyIsSimilar(ratio, a.name, c.name);
    SameKeyIsSimilar(ratio, b.name, c.name);
    ThreeCopies(a, b, c, {a, b, c}, p => Some(7), p => Some("e3b0"), ratio);
  }

  // ---------------------------------------------------------------------------
  // Choice "1" can remove every copy of a content

  /**
   * `photo1.jpg` (content X) and `photo2.jpg` (content Y) share a key and form a name pair;
   * `other.jpg` is a byte copy of `photo2.jpg`. The result is `[[photo1, photo2],
   * [photo2, other]]`, whose extras are `photo2` and `other`: choice "1" removes both,
   * so no member of the second group survives and content Y is gone.
   */
  lemma WholeGroupDeleted(a: Path, b: Path, c: Path, fs: FileSet, size: SizeOf, hash: HashOf, ratio: Ratio)
    requires Sized(a, fs, size) && Sized(b, fs, size) && Sized(c, fs, size)
    requires size(a) != size(b) && size(b) == size(c)
    requires Hashed(b, fs, hash) && Hashed(c, fs, hash) && hash(b) == hash(c)
    requires Normalize(a.name) == Normalize(b.name) != Normalize(c.name)
    requires Similar(ratio, a.name, b.name)
    ensures Duplicates([a, b, c], fs, size, hash, ratio) == [[a, b], [b, c]]
    ensures Tails([[a, b], [b, c]]) == {b, c}
  {
    OneNamePair(a, b, c, fs, size, ratio);
    OneDigestGroup(a, b, c, fs, size, hash);
    ChainMerge(a, b, c, hash(b).value);
    ExtrasOfChain(a, b, c);
  }

  lemma ExtrasOfChain(a: Path, b: Path, c: Path)
    ensures Tails([[a, b], [b, c]]) == {b, c}
  {
    TailsOfTwo([a, b], [b, c]);
    TailOfPair(a, b);
    TailOfPair(b, c);
  }

  lemma TailOfPair(a: Path, b: Path)
    ensures TailUpTo([a, b], 2) == {b}
  {
    assert [a, b][1] == b;
  }

  lemma ChainMerge(a: Path, b: Path, c: Path, dg: Digest)
    requires a != b || b != c
    ensures MergeHashGroups([[a, b]], [Bucket(dg, [b, c])]) == [[a, b], [b, c]]
  {
    assert [b, c] != [a, b] by {
      assert [a, b][0] == a && [a, b][1] == b && [b, c][0] == b && [b, c][1] == c;
    }
    MergeOneBucket([[a, b]], dg, [b, c]);
  }

  lemma OneNamePair(a: Path, b: Path, c: Path, fs: FileSet, size: SizeOf, ratio: Ratio)
    requires Sized(a, fs, size) && Sized(b, fs, size) && Sized(c, fs, size)
    requires Normalize(a.name) == Normalize(b.name) != Normalize(c.name)
    requires Similar(ratio, a.name, b.name)
    ensures NamePairs(GroupBy(NameEntries([a, b, c], fs, size)), ratio) == [[a, b]]
  {
    EntriesOfThree(a, b, c, fs, size);
    GroupByPairThenNew(Normalize(a.name), a, b, Normalize(c.name), c);
    NamePairsTwoBuckets(Normalize(a.name), [a, b], Normalize(c.name), [c], ratio);
    PairOfTwo(a, b, NameTest(ratio));
    assert [[a, b]] + [] == [[a, b]];
  }

  lemma OneDigestGroup(a: Path, b: Path, c: Path, fs: FileSet, size: SizeOf, hash: HashOf)
    requires Sized(a, fs, size) && Sized(b, fs, size) && Sized(c, fs, size)
    requires size(a) != size(b) && size(b) == size(c)
    requires Hashed(b, fs, hash) && Hashed(c, fs, hash) && hash(b) == hash(c)
    ensures HashDict([a, b, c], fs, size, hash) == [Bucket(hash(b).value, [b, c])]
  {
    EntriesOfThree(a, b, c, fs, size);
    GroupByNewThenPair(size(a).value, a, size(b).value, b, c);
    HashEntriesSingletonThenShared(size(a).value, a, size(b).value, [b, c], fs, hash);
    DigestEntriesOfTwo(b, c, fs, hash);
    GroupByTwo(hash(b).value, b, hash(c).value, c);
  }

  lemma TailsOfTwo(g: Group, h: Group)
    ensures Tails([g, h]) == TailUpTo(g, |g|) + TailUpTo(h, |h|)
  {
    assert [g, h][..1] == [g];
    TailsOfOne(g);
  }

  /** "photo1.jpg" and "photo2.jpg" share the key "photo.jpg"; "other.jpg" has a different one.
      The names are parameters pinned by `requires`, so the verifier never unfolds
      `Normalize` on a string literal; the helper lemmas compute the keys instead. */
  lemma PhotoKeys(first: Name, second: Name, other: Name)
    requires first == "photo1.jpg" && second == "photo2.jpg" && other == "other.jpg"
    ensures Normalize(first) == Normalize(second) != Normalize(other)
  {
    var ext := ".jpg";
    assert IsExtension(ext) && !AllDots("photo") && !AllDots("other") by {
      assert "photo"[0] != '.' && "other"[0] != '.';
    }
    assert AllDigits("1") && AllDigits("2");
    NumberedKey("photo", "1", ext, first);
    NumberedKey("photo", "2", ext, second);
    PlainKey("other", ext, other);
    LowerFirstDiffers("photo", "other", Lower(ext), Lower(ext));
  }

  /** Strings whose first characters lower-case differently stay different after `lower`. */
  lemma LowerFirstDiffers(s: string, t: string, u: string, v: string)
    requires s != [] && t != [] && LowerChar(s[0]) != LowerChar(t[0])
    ensures Lower(s) + u != Lower(t) + v
  {
    LowerSpec(s);
    LowerSpec(t);
    assert (Lower(s) + u)[0] != (Lower(t) + v)[0];
  }

  /**
   * `photo1.jpg` (10 bytes) and `photo2.jpg` (20 bytes) are different pictures with
   * numbered names; `other.jpg` is a byte copy of `photo2.jpg`. Choice "1" keeps only
   * `photo1.jpg`: both copies of the second picture are deleted.
   */
  lemma PhotoLoss(ratio: Ratio)
    requires SelfRatioIsOne(ratio)
    ensures var a, b, c := Path("p", "photo1.jpg"), Path("p", "photo2.jpg"), Path("p", "other.jpg");
            var fs := {a, b, c};
            var dups := Duplicates([a, b, c], fs, p => if p == a then Some(10) else Some(20), p => Some("9f86"), ratio);
            dups == [[a, b], [b, c]] && fs - Tails(dups) == {a}
  {
    var a, b, c := Path("p", "photo1.jpg"), Path("p", "photo2.jpg"), Path("p", "other.jpg");
    var fs: FileSet, size: SizeOf, hash: HashOf := {a, b, c}, p => if p == a then Some(10) else Some(20), p => Some("9f86");
    PhotoKeys(a.name, b.name, c.name);
    SameKeyIsSimilar(ratio, a.name, b.name);
    PhotoPaths();
    WholeGroupDeleted(a, b, c, fs, size, hash, ratio);
  }

  lemma PhotoPaths()
    ensures var a, b, c := Path("p", "photo1.jpg"), Path("p", "photo2.jpg"), Path("p", "other.jpg");
            a != b && b != c && a != c && {a, b, c} - {b, c} == {a}
  {
    assert "photo1.jpg"[5] != "photo2.jpg"[5];
    assert "photo1.jpg"[0] != "other.jpg"[0];
  }
}
