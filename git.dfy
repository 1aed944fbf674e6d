/** The decision-making parts of git.go: the `sort.Interface` over refs
    (ordered by the whole second of each ref file's modification time), the
    parse, filter and accumulate loop of `listRefs`, and the argument list
    that `push` hands to `git`. Running `git` and `os.Stat` are inputs. */
module Git {
  import opened Wrappers
  import opened GoText

  /** The `git` struct: a repository at `path`. */
  datatype Repo = Repo(path: string)

  /** What `os.Stat` reports and the ordering uses: the file's modification
      time, in nanoseconds since the Unix epoch. */
  datatype FileInfo = FileInfo(modTime: int)

  const NanosPerSecond: int := 1_000_000_000

  /** `ModTime().Unix()`: the whole second the modification time falls in. */
  function Unix(fi: FileInfo): (secs: int)
    ensures secs * NanosPerSecond <= fi.modTime < secs * NanosPerSecond + NanosPerSecond
  {
    fi.modTime / NanosPerSecond
  }

  /** A ref as `listRefs` builds it; `stat` is `None` for a nil `os.FileInfo`. */
  datatype Ref = Ref(name: string, hash: string, stat: Option<FileInfo>)

  // ---------------------------------------------------------------------
  // sort.Interface over refs

  /** `refs.Len`. */
  function Len(refs: seq<Ref>): (n: nat)
    ensures n == |refs|
  {
    |refs|
  }

  /** What `Less(i, j)` needs in order not to panic: both indices in range
      and both refs carrying a stat. */
  predicate Comparable(refs: seq<Ref>, i: int, j: int) {
    0 <= i < |refs| && 0 <= j < |refs| && refs[i].stat.Some? && refs[j].stat.Some?
  }

  /** The second of a ref's modification time. */
  function Second(r: Ref): int
    requires r.stat.Some?
  {
    Unix(r.stat.value)
  }

  /** `refs.Less`: ref `i` was modified in an earlier second than ref `j`.
      So it is only true of an earlier modification time, and always true
      of one at least a whole second earlier. */
  function Less(refs: seq<Ref>, i: int, j: int): (b: bool)
    requires Comparable(refs, i, j)
    ensures b ==> refs[i].stat.value.modTime < refs[j].stat.value.modTime
    ensures refs[i].stat.value.modTime + NanosPerSecond <= refs[j].stat.value.modTime ==> b
  {
    var a, c := refs[i].stat.value, refs[j].stat.value;
    assert Unix(a) * NanosPerSecond <= a.modTime < Unix(a) * NanosPerSecond + NanosPerSecond;
    assert Unix(c) * NanosPerSecond <= c.modTime < Unix(c) * NanosPerSecond + NanosPerSecond;
    Second(refs[i]) < Second(refs[j])
  }

  lemma LessIrreflexive(refs: seq<Ref>, i: int)
    requires Comparable(refs, i, i)
    ensures !Less(refs, i, i)
  {
  }

  lemma LessAsymmetric(refs: seq<Ref>, i: int, j: int)
    requires Comparable(refs, i, j)
    ensures Less(refs, i, j) ==> !Less(refs, j, i)
  {
  }

  lemma LessTransitive(refs: seq<Ref>, i: int, j: int, k: int)
    requires Comparable(refs, i, j) && Comparable(refs, j, k)
    ensures Less(refs, i, j) && Less(refs, j, k) ==> Less(refs, i, k)
  {
  }

  /** Incomparability is transitive too, so `Less` is a strict weak order,
      as `sort.Sort` expects. */
  lemma LessIncomparableTransitive(refs: seq<Ref>, i: int, j: int, k: int)
    requires Comparable(refs, i, j) && Comparable(refs, j, k)
    ensures !Less(refs, i, j) && !Less(refs, j, i) && !Less(refs, j, k) && !Less(refs, k, j)
      ==> !Less(refs, i, k) && !Less(refs, k, i)
  {
  }

  /** Refs modified within the same second tie: neither is less than the
      other, whatever their sub-second times. */
  lemma LessSameSecond(refs: seq<Ref>, i: int, j: int)
    requires Comparable(refs, i, j)
    requires Second(refs[i]) == Second(refs[j])
    ensures !Less(refs, i, j) && !Less(refs, j, i)
  {
  }

  /** `Less` never puts a ref after one modified later: an earlier
      modification time is less or tied, never greater. */
  lemma LessRespectsModTime(refs: seq<Ref>, i: int, j: int)
    requires Comparable(refs, i, j)
    requires refs[i].stat.value.modTime <= refs[j].stat.value.modTime
    ensures !Less(refs, j, i)
    ensures refs[j].stat.value.modTime - refs[i].stat.value.modTime >= NanosPerSecond ==> Less(refs, i, j)
  {
    var a, b := refs[i].stat.value, refs[j].stat.value;
    assert Unix(a) * NanosPerSecond <= a.modTime < Unix(a) * NanosPerSecond + NanosPerSecond;
    assert Unix(b) * NanosPerSecond <= b.modTime < Unix(b) * NanosPerSecond + NanosPerSecond;
  }

  /** An example of `LessSameSecond`: two modification times one nanosecond
      apart but in one second tie. */
  lemma SubSecondTie()
    ensures var refs := [Ref("refs/q/a", "h1", Some(FileInfo(NanosPerSecond + NanosPerSecond - 2))),
                         Ref("refs/q/b", "h2", Some(FileInfo(NanosPerSecond + NanosPerSecond - 1)))];
      Comparable(refs, 0, 1) && !Less(refs, 0, 1) && !Less(refs, 1, 0)
  {
    var refs := [Ref("refs/q/a", "h1", Some(FileInfo(NanosPerSecond + NanosPerSecond - 2))),
                 Ref("refs/q/b", "h2", Some(FileInfo(NanosPerSecond + NanosPerSecond - 1)))];
    assert Unix(refs[0].stat.value) == 1;
    assert Unix(refs[1].stat.value) == 1;
  }

  /** The contents of `s` after exchanging positions `i` and `j`. */
  function Swapped(s: seq<Ref>, i: int, j: int): (r: seq<Ref>)
    requires 0 <= i < |s| && 0 <= j < |s|
    ensures |r| == |s| && r[i] == s[j] && r[j] == s[i]
    ensures forall k :: 0 <= k < |s| && k != i && k != j ==> r[k] == s[k]
    ensures multiset(r) == multiset(s)
    ensures i == j ==> r == s
  {
    s[i := s[j]][j := s[i]]
  }

  /** Swapping twice restores the refs. */
  lemma SwappedTwice(s: seq<Ref>, i: int, j: int)
    requires 0 <= i < |s| && 0 <= j < |s|
    ensures Swapped(Swapped(s, i, j), i, j) == s
  {
  }

  /** After a swap, comparing positions `i` and `j` compares the refs that
      were at `j` and `i`. */
  lemma LessSwapped(s: seq<Ref>, i: int, j: int)
    requires Comparable(s, i, j)
    ensures Comparable(Swapped(s, i, j), i, j)
    ensures Less(Swapped(s, i, j), i, j) == Less(s, j, i)
  {
  }

  /** `refs.Swap`: exchanges two refs of the slice in place. */
  method Swap(refs: array<Ref>, i: int, j: int)
    requires 0 <= i < refs.Length && 0 <= j < refs.Length
    modifies refs
    ensures refs[..] == Swapped(old(refs[..]), i, j)
  {
    refs[i], refs[j] := refs[j], refs[i];
  }

  // ---------------------------------------------------------------------
  // listRefs

  /** Why `listRefs` fails. */
  datatype Error =
    | ShowRefFailed          // `git show-ref` could not run or exited non-zero
    | ScanFailed             // a line did not scan as "%s %s"
    | StatFailed(name: string) // `os.Stat` of a selected ref failed

  /** The line scans and names a ref inside the namespace. */
  predicate Selected(line: string, namespace: string) {
    var p := ScanPair(line);
    p.Some? && HasPrefix(p.value.1, namespace)
  }

  /** How the loop handles `line` on its own: `None` when it goes on past
      it, the error it returns otherwise. */
  function LineError(line: string, namespace: string, fs: map<string, FileInfo>): Option<Error> {
    match ScanPair(line)
    case None => Some(ScanFailed)
    case Some((_, name)) =>
      if HasPrefix(name, namespace) && name !in fs then Some(StatFailed(name)) else None
  }

  /** What `listRefs(namespace)` returns, given the lines `git show-ref`
      printed and the files `os.Stat` finds (`fs`, keyed by ref name). */
  function Listed(namespace: string, lines: seq<string>, fs: map<string, FileInfo>): (r: Result<seq<Ref>, Error>)
    ensures r.Ok? ==> |r.value| <= |lines|
    ensures r.Err? ==> !r.error.ShowRefFailed?
    decreases |lines|
  {
    if lines == [] then Ok([])
    else
      match ScanPair(lines[0])
      case None => Err(ScanFailed)
      case Some((hash, name)) =>
        if !HasPrefix(name, namespace) then Listed(namespace, lines[1..], fs)
        else if name !in fs then Err(StatFailed(name))
        else
          match Listed(namespace, lines[1..], fs)
          case Err(e) => Err(e)
          case Ok(rest) => Ok([Ref(name, hash, Some(fs[name]))] + rest)
  }

  /** The refs gathered so far, followed by what the remaining lines give. */
  function Then(done: seq<Ref>, later: Result<seq<Ref>, Error>): Result<seq<Ref>, Error> {
    match later
    case Ok(rest) => Ok(done + rest)
    case Err(e) => Err(e)
  }

  /** `repo.listRefs(namespace)`. `showRef` is the output of `git show-ref`
      split into lines, `None` when the command failed. */
  method ListRefs(namespace: string, showRef: Option<seq<string>>, fs: map<string, FileInfo>)
    returns (result: Result<seq<Ref>, Error>)
    ensures showRef.None? ==> result == Err(ShowRefFailed)
    ensures showRef.Some? ==> result == Listed(namespace, showRef.value, fs)
  {
    if showRef.None? {
      return Err(ShowRefFailed);
    }
    var lines := showRef.value;
    var refList: seq<Ref> := [];
    var i := 0;
    assert lines[i..] == lines;
    assert Listed(namespace, lines, fs).Ok? ==> [] + Listed(namespace, lines, fs).value == Listed(namespace, lines, fs).value;
    while i < |lines|
      invariant 0 <= i <= |lines|
      invariant Listed(namespace, lines, fs) == Then(refList, Listed(namespace, lines[i..], fs))
    {
      var line := lines[i];
      assert lines[i..][0] == line && lines[i..][1..] == lines[i + 1..];
      i := i + 1;
      var scanned := ScanPair(line);
      if scanned.None? {
        return Err(ScanFailed);
      }
      var (hash, name) := scanned.value;
      if !HasPrefix(name, namespace) {
        continue;
      }
      if name !in fs {
        return Err(StatFailed(name));
      }
      ghost var later := Listed(namespace, lines[i..], fs);
      assert later.Ok? ==>
        refList + ([Ref(name, hash, Some(fs[name]))] + later.value)
        == (refList + [Ref(name, hash, Some(fs[name]))]) + later.value;
      refList := refList + [Ref(name, hash, Some(fs[name]))];
    }
    assert lines[i..] == [];
    assert refList + [] == refList;
    return Ok(refList);
  }

  // Properties of Listed

  /** Listing succeeds exactly when no line is an error on its own. */
  lemma {:induction false} ListedSucceeds(namespace: string, lines: seq<string>, fs: map<string, FileInfo>)
    ensures Listed(namespace, lines, fs).Ok?
      <==> forall k :: 0 <= k < |lines| ==> LineError(lines[k], namespace, fs).None?
    decreases |lines|
  {
    if lines != [] {
      ListedSucceeds(namespace, lines[1..], fs);
      forall k | 1 <= k < |lines| ensures lines[1..][k - 1] == lines[k] { }
    }
  }

  /** Line `k` is the first line that is an error on its own. */
  ghost predicate FirstError(namespace: string, lines: seq<string>, fs: map<string, FileInfo>, k: int) {
    && 0 <= k < |lines|
    && LineError(lines[k], namespace, fs).Some?
    && forall m :: 0 <= m < k ==> LineError(lines[m], namespace, fs).None?
  }

  /** The listing fails with the error of the first line that fails on its
      own; the lines after it are never looked at. */
  lemma {:induction false} ListedFailsAtFirstError(namespace: string, lines: seq<string>, fs: map<string, FileInfo>, k: int)
    requires FirstError(namespace, lines, fs, k)
    ensures Listed(namespace, lines, fs) == Err(LineError(lines[k], namespace, fs).value)
    decreases |lines|
  {
    if k > 0 {
      assert LineError(lines[0], namespace, fs).None?;
      forall m | 0 <= m < k - 1 ensures lines[1..][m] == lines[m + 1] { }
      ListedFailsAtFirstError(namespace, lines[1..], fs, k - 1);
    }
  }

  /** Every failed listing is the failure of a first failing line: the
      line `k` returned. */
  lemma {:induction false} ListedErrorIsFirst(namespace: string, lines: seq<string>, fs: map<string, FileInfo>)
    returns (k: int)
    requires Listed(namespace, lines, fs).Err?
    ensures FirstError(namespace, lines, fs, k)
    ensures Listed(namespace, lines, fs).error == LineError(lines[k], namespace, fs).value
    decreases |lines|
  {
    if LineError(lines[0], namespace, fs).Some? {
      k := 0;
    } else {
      var k' := ListedErrorIsFirst(namespace, lines[1..], fs);
      k := k' + 1;
      forall m | 1 <= m < k ensures LineError(lines[m], namespace, fs).None? {
        assert lines[m] == lines[1..][m - 1];
      }
    }
  }

  /** A line that does not scan makes the whole listing fail, whatever the
      namespace. */
  lemma MalformedLineFails(namespace: string, lines: seq<string>, fs: map<string, FileInfo>, k: int)
    requires 0 <= k < |lines| && ScanPair(lines[k]).None?
    ensures Listed(namespace, lines, fs).Err?
  {
    ListedSucceeds(namespace, lines, fs);
    assert LineError(lines[k], namespace, fs).Some?;
  }

  /** Which lines are selected. */
  ghost function Marks(lines: seq<string>, namespace: string): (marks: seq<bool>)
    ensures |marks| == |lines|
    ensures forall k :: 0 <= k < |lines| ==> marks[k] == Selected(lines[k], namespace)
  {
    seq(|lines|, k requires 0 <= k < |lines| => Selected(lines[k], namespace))
  }

  /** The indices, from `from` on, of the marked positions. */
  ghost function Positions(marks: seq<bool>, from: nat): (ps: seq<nat>)
    requires from <= |marks|
    ensures forall m :: 0 <= m < |ps| ==> from <= ps[m] < |marks|
    decreases |marks| - from
  {
    if from == |marks| then []
    else if marks[from] then [from] + Positions(marks, from + 1)
    else Positions(marks, from + 1)
  }

  /** `Positions` lists, in increasing order, exactly the marked positions. */
  lemma {:induction false} PositionsSpec(marks: seq<bool>, from: nat)
    requires from <= |marks|
    ensures var ps := Positions(marks, from);
      && (forall m :: 0 <= m < |ps| ==> from <= ps[m] < |marks| && marks[ps[m]])
      && (forall m, n :: 0 <= m < n < |ps| ==> ps[m] < ps[n])
      && (forall k :: from <= k < |marks| ==> (marks[k] <==> k in ps))
    decreases |marks| - from
  {
    if from < |marks| {
      PositionsSpec(marks, from + 1);
      var rest := Positions(marks, from + 1);
      if marks[from] {
        var ps := [from] + rest;
        assert forall m :: 0 < m < |ps| ==> ps[m] == rest[m - 1];
        assert forall k :: k in ps <==> k == from || k in rest;
      }
    }
  }

  /** `line` is the show-ref line of `r`: it scans to `r`'s hash and name,
      and `r` carries the stat of that name. */
  ghost predicate Describes(line: string, r: Ref, fs: map<string, FileInfo>) {
    ScanPair(line) == Some((r.hash, r.name)) && r.name in fs && r.stat == Some(fs[r.name])
  }

  lemma {:induction false} ListedFrom(namespace: string, lines: seq<string>, fs: map<string, FileInfo>, from: nat)
    requires from <= |lines| && Listed(namespace, lines[from..], fs).Ok?
    ensures var rs := Listed(namespace, lines[from..], fs).value;
      var ps := Positions(Marks(lines, namespace), from);
      |rs| == |ps| && forall m :: 0 <= m < |rs| ==> Describes(lines[ps[m]], rs[m], fs)
    decreases |lines| - from
  {
    if from < |lines| {
      var tail := lines[from..];
      assert tail[0] == lines[from] && tail[1..] == lines[from + 1..];
      var (hash, name) := ScanPair(lines[from]).value;
      assert Listed(namespace, lines[from + 1..], fs).Ok?;
      ListedFrom(namespace, lines, fs, from + 1);
      var rest := Listed(namespace, lines[from + 1..], fs).value;
      var ps' := Positions(Marks(lines, namespace), from + 1);
      if HasPrefix(name, namespace) {
        var r := Ref(name, hash, Some(fs[name]));
        assert Listed(namespace, tail, fs).value == [r] + rest;
        assert Positions(Marks(lines, namespace), from) == [from] + ps';
        assert Describes(lines[from], r, fs);
      } else {
        assert Listed(namespace, tail, fs).value == rest;
        assert Positions(Marks(lines, namespace), from) == ps';
      }
    }
  }

  /** A successful listing holds one ref per selected line, in the order of
      the lines; each ref has that line's hash and name and the stat of that
      name. */
  lemma ListedContents(namespace: string, lines: seq<string>, fs: map<string, FileInfo>)
    requires Listed(namespace, lines, fs).Ok?
    ensures var rs := Listed(namespace, lines, fs).value;
      var ps := Positions(Marks(lines, namespace), 0);
      Len(rs) == |ps| && forall m :: 0 <= m < |rs| ==> Describes(lines[ps[m]], rs[m], fs)
  {
    assert lines[0..] == lines;
    ListedFrom(namespace, lines, fs, 0);
  }

  /** Every listed ref lies in the namespace and has a stat, so `Less` can
      compare any two of them. */
  lemma {:induction false} ListedComparable(namespace: string, lines: seq<string>, fs: map<string, FileInfo>)
    requires Listed(namespace, lines, fs).Ok?
    ensures var rs := Listed(namespace, lines, fs).value;
      (forall m :: 0 <= m < |rs| ==> HasPrefix(rs[m].name, namespace) && rs[m].stat.Some?)
      && forall i, j :: 0 <= i < |rs| && 0 <= j < |rs| ==> Comparable(rs, i, j)
  {
    ListedContents(namespace, lines, fs);
    PositionsSpec(Marks(lines, namespace), 0);
    var rs := Listed(namespace, lines, fs).value;
    var ps := Positions(Marks(lines, namespace), 0);
    forall m | 0 <= m < |rs| ensures HasPrefix(rs[m].name, namespace) && rs[m].stat.Some? {
      assert Describes(lines[ps[m]], rs[m], fs) && Selected(lines[ps[m]], namespace);
    }
  }

  /** `fs` and `fs'` know the same files under the namespace. */
  ghost predicate AgreeUnder(namespace: string, fs: map<string, FileInfo>, fs': map<string, FileInfo>) {
    forall name :: HasPrefix(name, namespace) ==>
      (name in fs <==> name in fs') && (name in fs ==> fs[name] == fs'[name])
  }

  /** Only names inside the namespace are ever stat'ed: files elsewhere do
      not change the listing. */
  lemma {:induction false} ListedStatsOnlyNamespace(namespace: string, lines: seq<string>,
                                                    fs: map<string, FileInfo>, fs': map<string, FileInfo>)
    requires AgreeUnder(namespace, fs, fs')
    ensures Listed(namespace, lines, fs) == Listed(namespace, lines, fs')
    decreases |lines|
  {
    if lines != [] {
      ListedStatsOnlyNamespace(namespace, lines[1..], fs, fs');
      match ScanPair(lines[0])
      case None =>
      case Some((hash, name)) =>
        if HasPrefix(name, namespace) {
          assert (name in fs <==> name in fs') && (name in fs ==> fs[name] == fs'[name]);
        }
    }
  }

  /** A consumer lists its namespace from show-ref output holding one ref
      inside it and one outside: it gets exactly the inside one. */
  lemma ListingTwoRefs(namespace: string, fs: map<string, FileInfo>,
                       hash: string, name: string, otherHash: string, other: string)
    requires hash != [] && NoSpace(hash) && name != [] && NoSpace(name)
    requires otherHash != [] && NoSpace(otherHash) && other != [] && NoSpace(other)
    requires HasPrefix(name, namespace) && !HasPrefix(other, namespace) && name in fs
    ensures Listed(namespace, [hash + " " + name, otherHash + " " + other], fs)
      == Ok([Ref(name, hash, Some(fs[name]))])
  {
    var first, second := hash + " " + name, otherHash + " " + other;
    var lines := [first, second];
    assert Listed(namespace, [second], fs) == Ok([]) by {
      ScanShowRefLine(otherHash, other);
      assert [second][1..] == [];
    }
    ScanShowRefLine(hash, name);
    assert lines[0] == first && lines[1..] == [second];
    assert [Ref(name, hash, Some(fs[name]))] + [] == [Ref(name, hash, Some(fs[name]))];
  }

  // ---------------------------------------------------------------------
  // push

  const PushPrune: bool := true
  const PushNoPrune: bool := false

  /** The command line `push` builds: `git -C <path> push <remote> <ref>`,
      followed by `--prune` when asked to prune. */
  function PushArgv(repo: Repo, remote: string, ref: string, prune: bool): (argv: seq<string>)
    ensures |argv| == if prune then 7 else 6
    ensures argv[..6] == ["git", "-C", repo.path, "push", remote, ref]
    ensures prune ==> argv[6] == "--prune"
  {
    var command := ["git", "-C", repo.path, "push", remote, ref];
    if prune then command + ["--prune"] else command
  }

  /** A process to run: the program and its arguments. */
  datatype Command = Command(program: string, args: seq<string>)

  /** `exec.Command(command[0], command[1:]...)` over `PushArgv`. */
  function PushCommand(repo: Repo, remote: string, ref: string, prune: bool): (cmd: Command)
    ensures cmd.program == "git" && |cmd.args| == if prune then 6 else 5
    ensures cmd.args[..5] == ["-C", repo.path, "push", remote, ref]
    ensures cmd.args[5..] == if prune then ["--prune"] else []
  {
    var argv := PushArgv(repo, remote, ref, prune);
    Command(argv[0], argv[1..])
  }

  /** Pruning only appends the flag; the positional arguments stay put. */
  lemma PushPruneAppendsFlag(repo: Repo, remote: string, ref: string)
    ensures PushArgv(repo, remote, ref, PushPrune) == PushArgv(repo, remote, ref, PushNoPrune) + ["--prune"]
  {
  }
}
