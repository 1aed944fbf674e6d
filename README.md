# carcosa `git.go`: refs, their ordering, their listing and the push command line

carcosa keeps a queue in a git repository. Each item is a git object, and a
ref under a namespace such as `refs/q/` points at it. Consumers list the refs
of a namespace and order them by the modification time of each ref's file.
Most of `git.go` runs the `git` binary. This model covers the parts of it that
make decisions:

- **The ref ordering** (module `Git`). `refs` is Go's `sort.Interface` over a
  slice of refs. `Len` counts the refs. `Swap` exchanges two of them in
  place, so it works on an `array<Ref>`. `Less(i, j)` compares the whole
  seconds (`ModTime().Unix()`) of the two refs' files. It panics when either
  ref has a nil stat, so the model makes that a precondition. `Len` and
  `Less` only read the slice, so they take its contents as a `seq<Ref>`. A
  stat is modelled as a `FileInfo` with a nanosecond modification time.
  `Unix` truncates that time to the whole second, so refs modified in the
  same second tie.
- **Listing refs** (`Git.ListRefs`, specified by the function `Git.Listed`).
  The inputs are the lines printed by `git show-ref` (or `None` when the
  command failed) and a map from ref name to `FileInfo` that stands for
  `os.Stat`. The loop works through the lines in order. It scans each line
  as `"%s %s"` into a hash and a name, and fails the whole call if the line
  does not scan. It skips names outside the namespace. It stats only the
  names inside the namespace, and fails the call if a stat fails. Otherwise
  it appends the ref. The lemmas prove four things about `Listed`. It
  succeeds exactly when no line is an error on its own. When it fails, the
  error is that of the first failing line. When it succeeds, it returns one
  ref per selected line, in line order, and `Less` can compare any two of
  them. It never looks at files outside the namespace.
- **Scanning a line** (module `GoText`). This models the behaviour of
  `fmt.Sscanf(line, "%s %s", &hash, &name)`. Go's white space is the
  Unicode White_Space set. Blanks before each word are skipped. A newline
  before the second word is an error. The format space needs at least one
  blank. Input after the second word is ignored. `ScanPairSound` and
  `ScanPairComplete` tie this step-by-step definition to a layout predicate,
  `PairAt`: blanks, a word, blanks, a word, then the end of the line or
  white space. `ScanShowRefLine` shows that a `git show-ref` line
  `"<hash> <name>"` scans back to its hash and its name.
- **The push command line** (`Git.PushArgv`, `Git.PushCommand`). This is
  `git -C <path> push <remote> <ref>`, with `--prune` appended exactly when
  pruning is asked for.

The design of the system says that a ref without a timestamp should
be a recoverable error, not a crash. It also describes the time order as a
stable sort with a deterministic order between ties. The code does neither,
and the model follows the code. `Less` panics on a nil stat, which becomes a
precondition here. `listRefs` turns a failed stat into an error, which
becomes `StatFailed`. `Less` has no order between refs whose files were
modified in the same second: `LessSameSecond` states the resulting ties,
and `SubSecondTie` is an example of one.

## Model

| member | source | states |
|---|---|---|
| `Git.Unix` | git.go:54 | `ModTime().Unix()` is the whole second the modification time falls in: `secs * 10^9 <= modTime < (secs + 1) * 10^9` |
| `Git.Len` | git.go:33-35 | `Len` is exactly the number of refs in the slice |
| `Git.Less` | git.go:41-55 | requires both indices in range and both stats non-nil (`Comparable`), since Go panics otherwise; true only when ref `i`'s modification time is earlier, and always when it is at least a whole second earlier |
| `Git.LessIrreflexive` | git.go:41-55 | no ref is less than itself |
| `Git.LessAsymmetric` | git.go:41-55 | if ref `i` is less than ref `j`, then `j` is not less than `i` |
| `Git.LessTransitive` | git.go:41-55 | `Less` is transitive |
| `Git.LessIncomparableTransitive` | git.go:54 | ties are transitive, so `Less` is a strict weak order as `sort.Sort` requires |
| `Git.LessSameSecond` | git.go:54 | two refs modified in the same whole second are each not less than the other |
| `Git.LessRespectsModTime` | git.go:54 | a ref modified no later than another never sorts after it, and sorts before it when the two are at least a second apart |
| `Git.SubSecondTie` | git.go:54 | an example of `LessSameSecond`, not a further property: two modification times one nanosecond apart, in the same second, tie under `Less` |
| `Git.Swapped` | git.go:37-39 | exchanging positions `i` and `j` keeps the length, puts each ref at the other position, leaves every other position unchanged, keeps the multiset of refs, and is the identity when `i == j` |
| `Git.SwappedTwice` | git.go:37-39 | swapping the same two positions twice restores the slice |
| `Git.LessSwapped` | git.go:37-55 | after `Swap(i, j)`, `Less(i, j)` gives what `Less(j, i)` gave before |
| `Git.Swap` | git.go:37-39 | the array afterwards holds `Swapped(old contents, i, j)`; indices out of range are a precondition, as Go panics on them |
| `Git.Listed` | git.go:145-171 | the listing as a recursion over the lines: scan, skip names outside the namespace, stat, append; a successful listing has at most one ref per line, and a failure is never `ShowRefFailed` |
| `Git.ListRefs` | git.go:134-172 | a failed `git show-ref` gives `ShowRefFailed`; otherwise the loop's result is exactly `Listed(namespace, lines, fs)` |
| `Git.ListedSucceeds` | git.go:145-171 | the listing succeeds if and only if every line scans and every selected name can be stat'ed |
| `Git.ListedFailsAtFirstError` | git.go:150-162 | when line `k` is the first line that fails on its own, the listing fails with that line's error: `ScanFailed` or `StatFailed(name)` |
| `Git.ListedErrorIsFirst` | git.go:150-162 | every failed listing has a first failing line, and the listing's error is that line's error |
| `Git.MalformedLineFails` | git.go:150-155 | a line that does not scan fails the whole call, whatever names the other lines hold |
| `Git.PositionsSpec` | git.go:155-157 | the positions of the marked lines (with `Marks`, the lines that scan and name a ref inside the namespace): each is in range and marked, they strictly increase, and a line is marked exactly when its index is among them |
| `Git.ListedContents` | git.go:145-171 | a successful listing has exactly one ref per selected line, in input order; each ref's hash and name are the first and second words of its line, and its stat is that name's file |
| `Git.ListedComparable` | git.go:155-168 | every listed ref lies in the namespace and carries a stat, so any two listed refs meet `Less`'s precondition |
| `Git.ListedStatsOnlyNamespace` | git.go:155-162 | stat tables that agree on the names inside the namespace give the same listing, so names outside it are never stat'ed |
| `Git.ListingTwoRefs` | git.go:145-171 | show-ref output with one ref inside the namespace and one outside it lists exactly the inside ref, with its stat |
| `GoText.HasPrefix` | git.go:155 | `strings.HasPrefix` on characters: `s` is at least as long as `prefix` and it begins with `prefix`, as Go's `len(s) >= len(prefix) && s[:len(prefix)] == prefix` |
| `GoText.ScanPair` | git.go:150 | `Sscanf(line, "%s %s")`: `Some((hash, name))` when it returns no error; both words are non-empty and free of white space |
| `GoText.ScanPairComplete` | git.go:150 | any line made of blanks, a word, at least one blank, a word, then the end or white space scans to those two words |
| `GoText.ScanPairSound` | git.go:150 | whenever the scan succeeds, the line has that layout and the results are its two words |
| `GoText.ScanShowRefLine` | git.go:150 | a `"<hash> <name>"` line with non-empty words and no white space in them scans back to `(hash, name)` |
| `Git.PushArgv` | git.go:224-230 | the argument list is `git -C <path> push <remote> <ref>`, with a seventh element `--prune` exactly when `prune` is true |
| `Git.PushCommand` | git.go:224-232 | the process run is `git` with arguments `-C <path> push <remote> <ref>`, then `--prune` if and only if `prune` |
| `Git.PushPruneAppendsFlag` | git.go:16-19 | with `PushPrune` the argument list is the `PushNoPrune` one plus `--prune`; the positional arguments do not move |

## Left out

- Running `git`. `updateRef`, `removeRef`, `writeObject` (with its pipe
  handling), `isGitRepo`, `clone`, `fetch`, `catFile` and the execution in
  `push` are calls to an external process. Their guarantees (content
  hashes, deduplication, atomic ref updates) belong to git. `listRefs` gets
  the output of `git show-ref` as an input, `None` when the command failed.
- The output of `git show-ref` is `CombinedOutput`, so it mixes standard
  error with standard output. The model takes whatever lines arrive.
- `bufio.Scanner`. The model's input is the output already split into
  lines. The scanner's 64 KiB line limit is not modelled. On a longer line
  the Go loop stops early and returns the refs gathered so far without an
  error, because `scanner.Err()` is never checked.
- `os.Stat` and its path. The model stands for `os.Stat(<path>/.git/<name>)`
  with a map keyed by ref name; a missing key is a failed stat. Filesystem
  timestamps are inputs.
- Error text and `hierr` chaining. A failure is a plain `Error` value.
- `sort.Sort` itself, and any claim or retry loop. Neither appears in
  `git.go`; only the comparator does.
- Byte-level strings. Go's `strings.HasPrefix` compares bytes and `Sscanf`
  decodes UTF-8. The model works on Unicode characters, which gives the same
  results for valid UTF-8. Invalid UTF-8 is not modelled.
- `Git.Unix`: the model's second is an unbounded integer; Go's `int64` is
  wide enough for any file time and comparison is unaffected.
- Concurrency. `git.go` has no shared in-process state and no locking.
