/**
 * What `find_duplicate_files` does with the groups once they are reported: delete the
 * extras (choice "1"), move them into the Trash folder under a fresh name (choice "2",
 * `move_to_trash`), or leave everything in place (choice "3" or any other answer).
 *
 * The file system is the set of paths for which `os.path.exists` holds; `os.remove` and
 * `shutil.move` are updates of that set.
 */
module Disposal {
  import opened Wrappers
  import opened Text
  import opened FileNames
  import opened Finder

  // ---------------------------------------------------------------------------
  // The paths a disposition acts on

  /** The members `g[1..k]`: the extras of a group that a loop over `file_list[1:]` has reached. */
  function TailUpTo(g: Group, k: nat): set<Path>
  {
    set j | 1 <= j < k && j < |g| :: g[j]
  }

  /** `file_list[1:]` of every group: the paths a disposition acts on. */
  function Tails(dups: seq<Group>): set<Path>
    decreases |dups|
  {
    if dups == [] then {}
    else
      var n := |dups| - 1;
      Tails(dups[..n]) + TailUpTo(dups[n], |dups[n]|)
  }

  /** A path is an extra exactly when it sits at index 1 or later of some group. */
  lemma {:induction false} TailsSpec(dups: seq<Group>, p: Path)
    ensures p in Tails(dups) <==> exists i, j :: 0 <= i < |dups| && 1 <= j < |dups[i]| && dups[i][j] == p
    decreases |dups|
  {
    if dups != [] {
      var n := |dups| - 1;
      TailsSpec(dups[..n], p);
      if exists i, j :: 0 <= i < |dups| && 1 <= j < |dups[i]| && dups[i][j] == p {
        var i, j :| 0 <= i < |dups| && 1 <= j < |dups[i]| && dups[i][j] == p;
        if i < n {
          assert dups[..n][i] == dups[i];
        }
      }
      if p in Tails(dups[..n]) {
        var i, j :| 0 <= i < n && 1 <= j < |dups[..n][i]| && dups[..n][i][j] == p;
        assert dups[..n][i] == dups[i];
      }
    }
  }

  // ---------------------------------------------------------------------------
  // Choice "1": delete the extras

  /** The loop over `file_list[1:]` of one group: each extra that exists is removed. */
  method DeleteGroupExtras(fs: FileSet, g: Group) returns (fs': FileSet)
    ensures fs' == fs - TailUpTo(g, |g|)
  {
    fs' := fs;
    var k := 1;
    while k < |g|
      invariant 1 <= k
      invariant fs' == fs - TailUpTo(g, k)
    {
      var file := g[k];
      assert TailUpTo(g, k + 1) == TailUpTo(g, k) + {file};
      if file in fs' {
        fs' := fs' - {file};
      }
      k := k + 1;
    }
    assert TailUpTo(g, k) == TailUpTo(g, |g|);
  }

  /** Choice "1": every existing extra is removed, nothing else is touched. A group's
      first member goes too when it is an extra of another group. */
  method DeleteExtras(fs: FileSet, dups: seq<Group>) returns (fs': FileSet)
    ensures fs' == fs - Tails(dups)
  {
    fs' := fs;
    for b := 0 to |dups|
      invariant fs' == fs - Tails(dups[..b])
    {
      assert dups[..b + 1][..b] == dups[..b];
      fs' := DeleteGroupExtras(fs', dups[b]);
    }
    assert dups[..|dups|] == dups;
  }

  // ---------------------------------------------------------------------------
  // Choice "2": `move_to_trash`

  /** `f"{name}_{counter}{ext}"` with `name, ext = os.path.splitext(base_name)`. */
  function Candidate(base: Name, counter: nat): Name
  {
    var split := SplitExt(base);
    split.0 + "_" + NatToString(counter) + split.1
  }

  /** Different counters give different names, so the search never revisits a name. */
  lemma CandidateInjective(base: Name, m: nat, n: nat)
    requires Candidate(base, m) == Candidate(base, n)
    ensures m == n
  {
    var split := SplitExt(base);
    var a, b := NatToString(m), NatToString(n);
    var c := Candidate(base, m);
    assert |a| == |b|;
    var lo := |split.0| + 1;
    assert c[lo..lo + |a|] == a;
    assert Candidate(base, n)[lo..lo + |b|] == b;
    NatToStringInjective(m, n);
  }

  /** The trash paths the search has tried once it has reached `counter = n + 1`. */
  function Tried(trash: string, base: Name, n: nat): set<Path>
    decreases n
  {
    if n == 0 then {} else Tried(trash, base, n - 1) + {Path(trash, Candidate(base, n))}
  }

  /** The tried paths are the first `n` candidates. */
  lemma {:induction false} TriedMembers(trash: string, base: Name, n: nat, p: Path)
    requires p in Tried(trash, base, n)
    ensures exists k :: 1 <= k <= n && p == Path(trash, Candidate(base, k))
    decreases n
  {
    if p != Path(trash, Candidate(base, n)) {
      TriedMembers(trash, base, n - 1, p);
    }
  }

  /** The first `n` candidates are `n` different paths. */
  lemma {:induction false} TriedCard(trash: string, base: Name, n: nat)
    ensures |Tried(trash, base, n)| == n
    decreases n
  {
    if n > 0 {
      TriedCard(trash, base, n - 1);
      var p := Path(trash, Candidate(base, n));
      if p in Tried(trash, base, n - 1) {
        TriedMembers(trash, base, n - 1, p);
        var k :| 1 <= k <= n - 1 && p == Path(trash, Candidate(base, k));
        CandidateInjective(base, k, n);
      }
    }
  }

  lemma {:induction false} AllTriedTaken(fs: FileSet, trash: string, base: Name, n: nat)
    requires forall k :: 1 <= k <= n ==> Path(trash, Candidate(base, k)) in fs
    ensures Tried(trash, base, n) <= fs
    decreases n
  {
    if n > 0 {
      AllTriedTaken(fs, trash, base, n - 1);
    }
  }

  /** The search ends: among the first `|fs| + 1` candidates one is free. */
  lemma FreeCandidate(fs: FileSet, trash: string, base: Name) returns (k: nat)
    ensures 1 <= k <= |fs| + 1 && Path(trash, Candidate(base, k)) !in fs
  {
    var n := |fs| + 1;
    if forall k :: 1 <= k <= n ==> Path(trash, Candidate(base, k)) in fs {
      TriedCard(trash, base, n);
      AllTriedTaken(fs, trash, base, n);
      SubsetCard(Tried(trash, base, n), fs);
      assert false;
    }
    k :| 1 <= k <= n && Path(trash, Candidate(base, k)) !in fs;
  }

  lemma {:induction false} SubsetCard<T>(a: set<T>, b: set<T>)
    requires a <= b
    ensures |a| <= |b|
    decreases |b|
  {
    if a != {} {
      var x :| x in a;
      SubsetCard(a - {x}, b - {x});
    }
  }

  /**
   * Where `move_to_trash` puts a file named `base`: in the trash folder, on a path that does
   * not exist yet; the base name itself when that is free, otherwise `{stem}_{k}{ext}` for the
   * smallest `k >= 1` that is free.
   */
  ghost predicate IsTrashDestination(fs: FileSet, trash: string, base: Name, dest: Path)
  {
    && dest.dir == trash
    && dest !in fs
    && (Path(trash, base) !in fs ==> dest.name == base)
    && (Path(trash, base) in fs ==>
          exists k :: 1 <= k && dest.name == Candidate(base, k)
                      && forall k' :: 1 <= k' < k ==> Path(trash, Candidate(base, k')) in fs)
  }

  /** At most one path is the trash destination: the rename is determined by the file system. */
  lemma TrashDestinationUnique(fs: FileSet, trash: string, base: Name, d1: Path, d2: Path)
    requires IsTrashDestination(fs, trash, base, d1) && IsTrashDestination(fs, trash, base, d2)
    ensures d1 == d2
  {
    if Path(trash, base) in fs {
      var k1 :| 1 <= k1 && d1.name == Candidate(base, k1)
                && forall k' :: 1 <= k' < k1 ==> Path(trash, Candidate(base, k')) in fs;
      var k2 :| 1 <= k2 && d2.name == Candidate(base, k2)
                && forall k' :: 1 <= k' < k2 ==> Path(trash, Candidate(base, k')) in fs;
    }
  }

  /** The `while os.path.exists(dest_path)` search of `move_to_trash`. */
  method TrashDestination(fs: FileSet, trash: string, base: Name) returns (dest: Path)
    ensures IsTrashDestination(fs, trash, base, dest)
  {
    ghost var free := FreeCandidate(fs, trash, base);
    dest := Path(trash, base);
    var counter: nat := 1;
    while dest in fs
      invariant 1 <= counter <= free + 1
      invariant dest == if counter == 1 then Path(trash, base) else Path(trash, Candidate(base, counter - 1))
      invariant counter > 1 ==> Path(trash, base) in fs
      invariant forall k' :: 1 <= k' < counter - 1 ==> Path(trash, Candidate(base, k')) in fs
      invariant counter == free + 1 ==> dest !in fs
      decreases free + 1 - counter
    {
      dest := Path(trash, Candidate(base, counter));
      counter := counter + 1;
    }
  }

  /** `move_to_trash(file, trash_folder)`: a file that does not exist is skipped; otherwise it
      leaves its place for its trash destination, and the number of paths stays the same. */
  method MoveToTrash(fs: FileSet, file: Path, trash: string) returns (fs': FileSet, moved: Option<Path>)
    ensures file !in fs ==> fs' == fs && moved == None
    ensures file in fs ==> moved.Some? && IsTrashDestination(fs, trash, file.name, moved.value)
                           && fs' == fs - {file} + {moved.value}
    ensures |fs'| == |fs|
  {
    if file !in fs {
      return fs, None;
    }
    var dest := TrashDestination(fs, trash, file.name);
    fs' := fs - {file} + {dest};
    moved := Some(dest);
  }

  /** What a run of moves into the trash folder has preserved so far. */
  predicate Quarantined(fs: FileSet, done: set<Path>, trash: string, cur: FileSet)
  {
    && |cur| == |fs|
    && fs - done <= cur
    && forall p :: p in cur && p.dir != trash ==> p in fs && p !in done
  }

  lemma QuarantineStep(fs: FileSet, done: set<Path>, trash: string, cur: FileSet, file: Path, next: FileSet, moved: Option<Path>)
    requires Quarantined(fs, done, trash, cur)
    requires file !in cur ==> next == cur
    requires file in cur ==> moved.Some? && moved.value.dir == trash && moved.value !in cur
                             && next == cur - {file} + {moved.value}
    requires |next| == |cur|
    ensures Quarantined(fs, done + {file}, trash, next)
  {
  }

  /** The loop over `file_list[1:]` of one group under choice "2". */
  method QuarantineGroupExtras(fs: FileSet, ghost done: set<Path>, cur: FileSet, g: Group, trash: string)
    returns (cur': FileSet)
    requires Quarantined(fs, done, trash, cur)
    ensures Quarantined(fs, done + TailUpTo(g, |g|), trash, cur')
  {
    cur' := cur;
    var k := 1;
    while k < |g|
      invariant 1 <= k
      invariant Quarantined(fs, done + TailUpTo(g, k), trash, cur')
    {
      var file := g[k];
      assert TailUpTo(g, k + 1) == TailUpTo(g, k) + {file};
      ghost var before := cur';
      var moved;
      cur', moved := MoveToTrash(cur', file, trash);
      QuarantineStep(fs, done + TailUpTo(g, k), trash, before, file, cur', moved);
      k := k + 1;
    }
    assert TailUpTo(g, k) == TailUpTo(g, |g|);
  }

  /**
   * Choice "2": the extras are moved into the trash folder. No path is lost or created
   * (moves only rename), every path that is not an extra is still there, and outside the
   * trash folder exactly the paths that existed and are not extras remain.
   */
  method QuarantineExtras(fs: FileSet, dups: seq<Group>, trash: string) returns (fs': FileSet)
    ensures |fs'| == |fs|
    ensures fs - Tails(dups) <= fs'
    ensures forall p: Path :: p.dir != trash ==> (p in fs' <==> p in fs && p !in Tails(dups))
  {
    fs' := fs;
    for b := 0 to |dups|
      invariant Quarantined(fs, Tails(dups[..b]), trash, fs')
    {
      assert dups[..b + 1][..b] == dups[..b];
      fs' := QuarantineGroupExtras(fs, Tails(dups[..b]), fs', dups[b], trash);
    }
    assert dups[..|dups|] == dups;
  }

  // ---------------------------------------------------------------------------
  // The prompt

  /**
   * The disposition part of `find_duplicate_files`. With no groups nothing is asked and
   * nothing changes; otherwise the stripped answer selects the action, and an answer other
   * than "1" or "2" changes nothing.
   */
  method Dispose(fs: FileSet, dups: seq<Group>, answer: string, trash: string) returns (fs': FileSet)
    ensures dups == [] ==> fs' == fs
    ensures dups != [] && Strip(answer) == "1" ==> fs' == fs - Tails(dups)
    ensures dups != [] && Strip(answer) == "2" ==>
              |fs'| == |fs| && fs - Tails(dups) <= fs'
              && forall p: Path :: p.dir != trash ==> (p in fs' <==> p in fs && p !in Tails(dups))
    ensures Strip(answer) != "1" && Strip(answer) != "2" ==> fs' == fs
  {
    if dups == [] {
      return fs;
    }
    var choice := Strip(answer);
    if choice == "1" {
      fs' := DeleteExtras(fs, dups);
    } else if choice == "2" {
      fs' := QuarantineExtras(fs, dups, trash);
    } else {
      fs' := fs;
    }
  }

  /** `find_duplicate_files`: detection, then disposition of what was found. */
  method FindDuplicateFiles(walk: seq<Path>, fs: FileSet, size: SizeOf, hash: HashOf, ratio: Ratio,
                            answer: string, trash: string)
    returns (duplicates: seq<Group>, fs': FileSet)
    ensures duplicates == Duplicates(walk, fs, size, hash, ratio)
    ensures duplicates == [] ==> fs' == fs
    ensures duplicates != [] && Strip(answer) == "1" ==> fs' == fs - Tails(duplicates)
    ensures duplicates != [] && Strip(answer) == "2" ==>
              |fs'| == |fs| && fs - Tails(duplicates) <= fs'
              && forall p: Path :: p.dir != trash ==> (p in fs' <==> p in fs && p !in Tails(duplicates))
    ensures Strip(answer) != "1" && Strip(answer) != "2" ==> fs' == fs
  {
    duplicates := FindDuplicates(walk, fs, size, hash, ratio);
    fs' := Dispose(fs, duplicates, answer, trash);
  }
}
