/**
 * File names and paths: `os.path.splitext` on a base name, the comparison key
 * `normalize_filename` and the fuzzy test `similar_name`.
 */
module FileNames {
  import opened Text

  /** A path produced by the traversal, `os.path.join(root, name)`; its base name is `name`. */
  datatype Path = Path(dir: string, name: string)

  /** A base name of any length; the separators of a full path never occur in one. */
  type Name = string

  /** Index of the last occurrence of `c` in `s`, or -1 (`str.rfind`). */
  function LastIndexOf(s: string, c: char): (r: int)
    ensures -1 <= r < |s|
    decreases |s|
  {
    if s == [] then -1
    else if s[|s| - 1] == c then |s| - 1
    else LastIndexOf(s[..|s| - 1], c)
  }

  /** The index found holds `c` and no later character is `c`; -1 means `c` does not occur. */
  lemma {:induction false} LastIndexOfSpec(s: string, c: char)
    ensures LastIndexOf(s, c) >= 0 ==> s[LastIndexOf(s, c)] == c
    ensures forall k :: LastIndexOf(s, c) < k < |s| ==> s[k] != c
    decreases |s|
  {
    if s != [] && s[|s| - 1] != c {
      LastIndexOfSpec(s[..|s| - 1], c);
    }
  }

  predicate AllDots(s: string) { forall k :: 0 <= k < |s| ==> s[k] == '.' }

  /** An extension as `splitext` returns it when it finds one: a dot, then no further dot. */
  predicate IsExtension(e: string) { |e| >= 1 && e[0] == '.' && forall k :: 1 <= k < |e| ==> e[k] != '.' }

  /**
   * `os.path.splitext(name)` for a base name: cut at the last dot, unless every
   * character before that dot is itself a dot (a leading run of dots is no extension).
   */
  function SplitExt(name: Name): (r: (string, string))
  {
    var d := LastIndexOf(name, '.');
    if d >= 0 && !AllDots(name[..d]) then (name[..d], name[d..]) else (name, [])
  }

  /** The two parts rebuild the name; the extension, when there is one, is a dot followed by
      no other dot and the stem is not all dots; there is none only when every dot in the name
      is preceded by dots alone. */
  lemma SplitExtSpec(name: Name)
    ensures SplitExt(name).0 + SplitExt(name).1 == name
    ensures SplitExt(name).1 == [] || IsExtension(SplitExt(name).1)
    ensures SplitExt(name).1 != [] ==> !AllDots(SplitExt(name).0)
    ensures SplitExt(name).1 == [] ==> forall d :: 0 <= d < |name| && name[d] == '.' ==> AllDots(name[..d])
  {
    var d := LastIndexOf(name, '.');
    LastIndexOfSpec(name, '.');
    if d >= 0 && !AllDots(name[..d]) {
      assert name[..d] + name[d..] == name;
    } else {
      forall e | 0 <= e < |name| && name[e] == '.' ensures AllDots(name[..e]) {
        assert e <= d;
        if e < d {
          assert AllDots(name[..d]);
          assert name[..e] == name[..d][..e];
        }
      }
    }
  }

  /** Where the stem has a character other than a dot and the extension is a real one
      (or there is no dot at all), `splitext` gives back exactly those two parts. */
  lemma SplitExtOf(stem: string, ext: string)
    requires (IsExtension(ext) && !AllDots(stem)) || (ext == [] && forall k :: 0 <= k < |stem| ==> stem[k] != '.')
    ensures SplitExt(stem + ext) == (stem, ext)
  {
    var name := stem + ext;
    var d := LastIndexOf(name, '.');
    LastIndexOfSpec(name, '.');
    if ext == [] {
      assert name == stem;
      assert forall k :: 0 <= k < |name| ==> name[k] != '.';
    } else {
      assert name[|stem|] == '.';
      assert forall k :: |stem| < k < |name| ==> name[k] == ext[k - |stem|] && name[k] != '.';
      assert d == |stem|;
      assert name[..d] == stem;
      assert name[d..] == ext;
    }
  }

  /**
   * `normalize_filename(filename)`: split off the extension, remove the trailing digit
   * run of the stem, strip whitespace, lower-case both parts and join them again.
   */
  function Normalize(filename: Name): (key: string)
  {
    var split := SplitExt(filename);
    Lower(Strip(DropTrailingDigits(split.0))) + Lower(split.1)
  }

  /** The key has no upper-case letter. */
  lemma NormalizeIsLower(filename: Name)
    ensures forall k :: 0 <= k < |Normalize(filename)| ==> !IsUpper(Normalize(filename)[k])
  {
    var split := SplitExt(filename);
    var stem := Strip(DropTrailingDigits(split.0));
    LowerSpec(stem);
    LowerSpec(split.1);
    assert forall k :: 0 <= k < |Lower(stem)| ==> !IsUpper(Lower(stem)[k]);
  }

  lemma DropTrailingDigitsAppend(s: string, digits: string)
    requires AllDigits(digits)
    ensures DropTrailingDigits(s + digits) == DropTrailingDigits(s)
    decreases |digits|
  {
    if digits != [] {
      var n := |digits| - 1;
      assert (s + digits)[..|s + digits| - 1] == s + digits[..n];
      DropTrailingDigitsAppend(s, digits[..n]);
    } else {
      assert s + digits == s;
    }
  }

  /**
   * A run of digits at the very end of the stem does not change the key:
   * "file2.txt", "file17.txt" and "file.txt" all normalise alike.
   */
  lemma {:induction false} TrailingDigitsIgnored(stem: string, digits: string, ext: string)
    requires AllDigits(digits)
    requires (IsExtension(ext) && !AllDots(stem)) || (ext == [] && forall k :: 0 <= k < |stem| ==> stem[k] != '.')
    ensures Normalize(stem + digits + ext) == Normalize(stem + ext)
  {
    SplitExtOf(stem, ext);
    assert forall k :: 0 <= k < |stem + digits| ==> (stem + digits)[k] != '.' || (k < |stem| && stem[k] == '.');
    if !AllDots(stem) {
      assert !AllDots(stem + digits);
    }
    SplitExtOf(stem + digits, ext);
    DropTrailingDigitsAppend(stem, digits);
  }

  /** A stem that does not end in a digit and has no whitespace at either end, followed by
      an extension, normalises to its plain lower-case form. */
  lemma NormalizePlain(stem: string, ext: string)
    requires IsExtension(ext) && !AllDots(stem)
    requires stem != [] && !IsDigit(stem[|stem| - 1]) && !IsSpace(stem[0]) && !IsSpace(stem[|stem| - 1])
    ensures Normalize(stem + ext) == Lower(stem) + Lower(ext)
  {
    SplitExtOf(stem, ext);
    assert DropTrailingDigits(stem) == stem;
    assert TrimEnd(stem) == stem;
    assert TrimStart(stem) == stem;
  }

  /** Two names that differ only in the case of ASCII letters. */
  predicate SameIgnoringCase(a: string, b: string)
  {
    |a| == |b| && forall k :: 0 <= k < |a| ==> LowerChar(a[k]) == LowerChar(b[k])
  }

  lemma SameIgnoringCaseSlice(a: string, b: string, i: nat, j: nat)
    requires SameIgnoringCase(a, b) && i <= j <= |a|
    ensures SameIgnoringCase(a[i..j], b[i..j])
  {
  }

  /** Case-variant characters agree on being a digit, a space or a dot. */
  lemma CaseVariantClass(x: char, y: char)
    requires LowerChar(x) == LowerChar(y)
    ensures IsDigit(x) == IsDigit(y) && IsSpace(x) == IsSpace(y) && (x == '.') == (y == '.')
  {
  }

  lemma {:induction false} DropTrailingDigitsCase(a: string, b: string)
    requires SameIgnoringCase(a, b)
    ensures |DropTrailingDigits(a)| == |DropTrailingDigits(b)|
    decreases |a|
  {
    if a != [] {
      CaseVariantClass(a[|a| - 1], b[|b| - 1]);
      if IsDigit(a[|a| - 1]) {
        SameIgnoringCaseSlice(a, b, 0, |a| - 1);
        DropTrailingDigitsCase(a[..|a| - 1], b[..|b| - 1]);
      }
    }
  }

  lemma {:induction false} TrimEndCase(a: string, b: string)
    requires SameIgnoringCase(a, b)
    ensures |TrimEnd(a)| == |TrimEnd(b)|
    decreases |a|
  {
    if a != [] {
      CaseVariantClass(a[|a| - 1], b[|b| - 1]);
      if IsSpace(a[|a| - 1]) {
        SameIgnoringCaseSlice(a, b, 0, |a| - 1);
        TrimEndCase(a[..|a| - 1], b[..|b| - 1]);
      }
    }
  }

  lemma {:induction false} TrimStartCase(a: string, b: string)
    requires SameIgnoringCase(a, b)
    ensures |TrimStart(a)| == |TrimStart(b)|
    decreases |a|
  {
    if a != [] {
      CaseVariantClass(a[0], b[0]);
      if IsSpace(a[0]) {
        SameIgnoringCaseSlice(a, b, 1, |a|);
        TrimStartCase(a[1..], b[1..]);
      }
    }
  }

  lemma {:induction false} LastIndexOfDotCase(a: string, b: string)
    requires SameIgnoringCase(a, b)
    ensures LastIndexOf(a, '.') == LastIndexOf(b, '.')
    decreases |a|
  {
    if a != [] {
      CaseVariantClass(a[|a| - 1], b[|b| - 1]);
      if a[|a| - 1] != '.' {
        SameIgnoringCaseSlice(a, b, 0, |a| - 1);
        LastIndexOfDotCase(a[..|a| - 1], b[..|b| - 1]);
      }
    }
  }

  lemma SplitExtCase(a: string, b: string)
    requires SameIgnoringCase(a, b)
    ensures |SplitExt(a).0| == |SplitExt(b).0|
  {
    LastIndexOfDotCase(a, b);
    var d := LastIndexOf(a, '.');
    if d >= 0 {
      forall k | 0 <= k < d ensures (a[k] == '.') == (b[k] == '.') {
        CaseVariantClass(a[k], b[k]);
      }
      assert AllDots(a[..d]) == AllDots(b[..d]);
    }
  }

  lemma {:induction false} LowerCase(a: string, b: string)
    requires SameIgnoringCase(a, b)
    ensures Lower(a) == Lower(b)
    decreases |a|
  {
    if a != [] {
      SameIgnoringCaseSlice(a, b, 0, |a| - 1);
      LowerCase(a[..|a| - 1], b[..|b| - 1]);
    }
  }

  /** Each step of the stem clean-up maps case variants to case variants. */
  lemma DropTrailingDigitsKeepsCase(a: string, b: string)
    requires SameIgnoringCase(a, b)
    ensures SameIgnoringCase(DropTrailingDigits(a), DropTrailingDigits(b))
  {
    DropTrailingDigitsCase(a, b);
    DropTrailingDigitsSpec(a);
    DropTrailingDigitsSpec(b);
    SameIgnoringCaseSlice(a, b, 0, |DropTrailingDigits(a)|);
  }

  lemma TrimEndKeepsCase(a: string, b: string)
    requires SameIgnoringCase(a, b)
    ensures SameIgnoringCase(TrimEnd(a), TrimEnd(b))
  {
    TrimEndCase(a, b);
    TrimEndSpec(a);
    TrimEndSpec(b);
    SameIgnoringCaseSlice(a, b, 0, |TrimEnd(a)|);
  }

  lemma TrimStartKeepsCase(a: string, b: string)
    requires SameIgnoringCase(a, b)
    ensures SameIgnoringCase(TrimStart(a), TrimStart(b))
  {
    TrimStartCase(a, b);
    TrimStartSpec(a);
    TrimStartSpec(b);
    SameIgnoringCaseSlice(a, b, |a| - |TrimStart(a)|, |a|);
  }

  /** The cleaned-up stems of two case variants have the same lower-case form. */
  lemma StemKeyCase(a: string, b: string)
    requires SameIgnoringCase(a, b)
    ensures Lower(Strip(DropTrailingDigits(a))) == Lower(Strip(DropTrailingDigits(b)))
  {
    var da, db := DropTrailingDigits(a), DropTrailingDigits(b);
    DropTrailingDigitsKeepsCase(a, b);
    TrimEndKeepsCase(da, db);
    TrimStartKeepsCase(TrimEnd(da), TrimEnd(db));
    LowerCase(Strip(da), Strip(db));
  }

  /** The key ignores the case of ASCII letters everywhere in the name:
      "Report2.PDF" and "report.pdf" land in the same name bucket. */
  lemma {:induction false} NormalizeIgnoresCase(a: Name, b: Name)
    requires SameIgnoringCase(a, b)
    ensures Normalize(a) == Normalize(b)
  {
    SplitExtCase(a, b);
    var sa, sb := SplitExt(a), SplitExt(b);
    SameIgnoringCaseSlice(a, b, 0, |sa.0|);
    assert sa.0 == a[..|sa.0|] && sb.0 == b[..|sa.0|];
    SameIgnoringCaseSlice(a, b, |sa.0|, |a|);
    assert sa.1 == a[|sa.0|..] && sb.1 == b[|sa.0|..];
    StemKeyCase(sa.0, sb.0);
    LowerCase(sa.1, sb.1);
  }

  // ---------------------------------------------------------------------------
  // similar_name

  /** `SequenceMatcher(None, a, b).ratio()`, supplied by the caller. */
  type Ratio = (string, string) -> real

  /** The default `threshold` of `similar_name`. */
  const Threshold: real := 0.85

  /** What difflib guarantees of the ratio and what the model relies on: a string compared
      with itself scores 1 (its first longest match is the whole string). */
  ghost predicate SelfRatioIsOne(ratio: Ratio)
  {
    forall s :: ratio(s, s) == 1.0
  }

  /** `similar_name(file1, file2)`: the ratio of the two keys reaches the threshold. */
  predicate Similar(ratio: Ratio, a: Name, b: Name)
  {
    ratio(Normalize(a), Normalize(b)) >= Threshold
  }

  /** Two names with the same key are always similar. */
  lemma SameKeyIsSimilar(ratio: Ratio, a: Name, b: Name)
    requires SelfRatioIsOne(ratio)
    requires Normalize(a) == Normalize(b)
    ensures Similar(ratio, a, b)
  {
  }
}
