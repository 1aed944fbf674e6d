/** The parts of Go's `fmt` and `strings` packages that the ref listing of
    git.go relies on: `fmt.Sscanf(line, "%s %s", &hash, &name)` and
    `strings.HasPrefix`. Strings are sequences of Unicode characters. */
module GoText {
  import opened Wrappers

  /** White space as `fmt` scanning defines it: the Unicode White_Space ranges. */
  predicate IsSpace(c: char) {
    var x := c as int;
    || (0x09 <= x <= 0x0d) || x == 0x20 || x == 0x85 || x == 0xa0 || x == 0x1680
    || (0x2000 <= x <= 0x200a) || x == 0x2028 || x == 0x2029 || x == 0x202f
    || x == 0x205f || x == 0x3000
  }

  /** White space that a scan steps over; a newline instead stops `Sscanf`. */
  predicate IsBlank(c: char) {
    IsSpace(c) && c != '\n'
  }

  predicate AllBlank(s: string) {
    forall k :: 0 <= k < |s| ==> IsBlank(s[k])
  }

  predicate NoSpace(s: string) {
    forall k :: 0 <= k < |s| ==> !IsSpace(s[k])
  }

  /** `strings.HasPrefix(s, prefix)`: `s` is at least as long as `prefix`
      and begins with it. */
  predicate HasPrefix(s: string, prefix: string)
    ensures HasPrefix(s, prefix) <==> |prefix| <= |s| && s[..|prefix|] == prefix
  {
    prefix <= s
  }

  /** Drops the blanks at the front of `s`. */
  function SkipBlanks(s: string): string {
    if s != [] && IsBlank(s[0]) then SkipBlanks(s[1..]) else s
  }

  /** `SkipBlanks` drops a run of blanks and stops at the first character
      that is not one. */
  lemma {:induction false} SkipBlanksSpec(s: string)
    ensures var t := SkipBlanks(s);
      && |t| <= |s| && t == s[|s| - |t|..]
      && AllBlank(s[..|s| - |t|])
      && (t == [] || !IsBlank(t[0]))
  {
    if s != [] && IsBlank(s[0]) {
      SkipBlanksSpec(s[1..]);
      var t := SkipBlanks(s[1..]);
      assert s[..|s| - |t|] == [s[0]] + s[1..][..|s| - 1 - |t|];
    }
  }

  /** The space skipping that precedes a verb: blanks are dropped, and
      reaching a newline is the error "unexpected newline". */
  function SkipSpace(s: string): Option<string> {
    var t := SkipBlanks(s);
    if t != [] && t[0] == '\n' then None else Some(t)
  }

  /** The longest prefix of `s` free of white space, and what follows it. */
  function Token(s: string): (string, string) {
    if s == [] || IsSpace(s[0]) then
      ([], s)
    else
      var p := Token(s[1..]);
      ([s[0]] + p.0, p.1)
  }

  /** `Token` splits `s` into a word and a rest that is empty or starts with
      white space. */
  lemma {:induction false} TokenSpec(s: string)
    ensures var p := Token(s);
      && s == p.0 + p.1
      && NoSpace(p.0)
      && (p.1 == [] || IsSpace(p.1[0]))
  {
    if s != [] && !IsSpace(s[0]) {
      TokenSpec(s[1..]);
      var p := Token(s[1..]);
      var w := [s[0]] + p.0;
      assert Token(s) == (w, p.1);
      assert s == [s[0]] + s[1..] == w + p.1;
      forall k | 0 < k < |w| ensures !IsSpace(w[k]) {
        assert w[k] == p.0[k - 1];
      }
    }
  }

  /** The `%s` verb: skip space, fail at the end of the input, read a token.
      Yields the token and the unread input. */
  function ScanWord(s: string): Option<(string, string)> {
    match SkipSpace(s)
    case None => None
    case Some(t) => if t == [] then None else Some(Token(t))
  }

  /** A space in the format string: the input must go on with white space
      other than a newline, or end; all blanks are then consumed. */
  function MatchFormatSpace(s: string): Option<string> {
    if s != [] && (!IsSpace(s[0]) || s[0] == '\n') then None
    else Some(SkipBlanks(s))
  }

  /** `fmt.Sscanf(line, "%s %s", &a, &b)`: `Some((a, b))` when it returns no
      error, `None` when it does. Input after the second word is ignored.
      Both words are non-empty and free of white space. */
  function ScanPair(line: string): (r: Option<(string, string)>)
    ensures r.Some? ==> r.value.0 != [] && NoSpace(r.value.0) && r.value.1 != [] && NoSpace(r.value.1)
  {
    match ScanWord(line)
    case None => None
    case Some((first, rest)) =>
      match MatchFormatSpace(rest)
      case None => None
      case Some(rest') =>
        match ScanWord(rest')
        case None => None
        case Some((second, _)) =>
          ScanWordIsWord(line);
          ScanWordIsWord(rest');
          Some((first, second))
  }

  /** `line` reads as: blanks up to `i`, a word up to `j`, at least one blank
      up to `k`, a word up to `l`, then the end of the line or white space. */
  ghost predicate PairAt(line: string, i: nat, j: nat, k: nat, l: nat) {
    && i < j < k < l <= |line|
    && AllBlank(line[..i])
    && NoSpace(line[i..j])
    && AllBlank(line[j..k])
    && NoSpace(line[k..l])
    && (l == |line| || IsSpace(line[l]))
  }

  lemma {:induction false} SkipBlanksAt(s: string, i: nat)
    requires i <= |s| && AllBlank(s[..i])
    requires i == |s| || !IsBlank(s[i])
    ensures SkipBlanks(s) == s[i..]
    decreases i
  {
    if i > 0 {
      assert IsBlank(s[..i][0]);
      assert s[1..][..i - 1] == s[..i][1..];
      SkipBlanksAt(s[1..], i - 1);
      assert s[1..][i - 1..] == s[i..];
    }
  }

  lemma {:induction false} TokenAt(s: string, j: nat)
    requires j <= |s| && NoSpace(s[..j])
    requires j == |s| || IsSpace(s[j])
    ensures Token(s) == (s[..j], s[j..])
    decreases j
  {
    if j > 0 {
      assert !IsSpace(s[..j][0]);
      assert s[1..][..j - 1] == s[..j][1..];
      TokenAt(s[1..], j - 1);
      assert s[1..][j - 1..] == s[j..];
      assert [s[0]] + s[1..][..j - 1] == s[..j];
    }
  }

  /** `s` reads as blanks up to `i`, then a word up to `j` that ends the
      input or is followed by white space. */
  ghost predicate WordAt(s: string, i: nat, j: nat) {
    && i < j <= |s|
    && AllBlank(s[..i])
    && NoSpace(s[i..j])
    && (j == |s| || IsSpace(s[j]))
  }

  /** The `%s` verb reads the word that follows the blanks. */
  lemma ScanWordAt(s: string, i: nat, j: nat)
    requires WordAt(s, i, j)
    ensures ScanWord(s) == Some((s[i..j], s[j..]))
  {
    assert !IsSpace(s[i..j][0]);
    SkipBlanksAt(s, i);
    var t := s[i..];
    assert t[..j - i] == s[i..j];
    assert j < |s| ==> t[j - i] == s[j];
    TokenAt(t, j - i);
    assert t[j - i..] == s[j..];
  }

  /** A format space consumes all blanks, provided there is at least one. */
  lemma MatchFormatSpaceAt(r: string, m: nat)
    requires 0 < m <= |r| && AllBlank(r[..m])
    requires m == |r| || !IsBlank(r[m])
    ensures MatchFormatSpace(r) == Some(r[m..])
  {
    assert IsBlank(r[..m][0]);
    SkipBlanksAt(r, m);
  }

  /** The pieces of a `PairAt` layout, as the scan meets them. */
  lemma PairAtParts(line: string, i: nat, j: nat, k: nat, l: nat)
    requires PairAt(line, i, j, k, l)
    ensures WordAt(line, i, j)
    ensures var r := line[j..];
      && 0 < k - j <= |r| && AllBlank(r[..k - j]) && !IsBlank(r[k - j])
      && r[k - j..] == line[k..]
      && WordAt(line[k..], 0, l - k)
      && line[k..][0..l - k] == line[k..l]
  {
    var r := line[j..];
    assert r[..k - j] == line[j..k];
    assert r[k - j] == line[k..l][0];
    assert r[k - j..] == line[k..];
    var s2 := line[k..];
    assert s2[..0] == [];
    assert s2[0..l - k] == line[k..l];
    assert l < |line| ==> s2[l - k] == line[l];
  }

  /** Every layout of two words, however the blanks fall, scans to those two
      words. */
  lemma ScanPairComplete(line: string, i: nat, j: nat, k: nat, l: nat)
    requires PairAt(line, i, j, k, l)
    ensures ScanPair(line) == Some((line[i..j], line[k..l]))
  {
    PairAtParts(line, i, j, k, l);
    ScanWordAt(line, i, j);
    MatchFormatSpaceAt(line[j..], k - j);
    ScanWordAt(line[k..], 0, l - k);
    var w1 := ScanWord(line);
    assert w1 == Some((line[i..j], line[j..]));
    var f := MatchFormatSpace(line[j..]);
    assert f == Some(line[k..]);
    var w2 := ScanWord(line[k..]);
    assert w2.Some? && w2.value.0 == line[k..l];
  }

  /** The `%s` verb, when it succeeds, reads the word after the blanks. */
  lemma ScanWordSound(s: string) returns (i: nat, j: nat)
    requires ScanWord(s).Some?
    ensures WordAt(s, i, j) && ScanWord(s).value == (s[i..j], s[j..])
    ensures i == 0 || IsBlank(s[0])
  {
    var t := SkipBlanks(s);
    SkipBlanksSpec(s);
    i := |s| - |t|;
    var p := Token(t);
    TokenSpec(t);
    j := i + |p.0|;
    assert t != [] && !IsSpace(t[0]);
    assert p.0 != [];
    assert s[i..] == p.0 + p.1;
    assert s[i..j] == p.0;
    assert s[j..] == p.1;
    assert i > 0 ==> s[0] == s[..i][0];
  }

  /** The word the `%s` verb reads is non-empty and free of white space. */
  lemma ScanWordIsWord(s: string)
    requires ScanWord(s).Some?
    ensures ScanWord(s).value.0 != [] && NoSpace(ScanWord(s).value.0)
  {
    var i, j := ScanWordSound(s);
    assert ScanWord(s).value.0 == s[i..j];
  }

  /** A format space that lets a further word be read consumed `n > 0`
      blanks. */
  lemma MatchFormatSpaceSound(r: string) returns (n: nat)
    requires MatchFormatSpace(r).Some? && ScanWord(MatchFormatSpace(r).value).Some?
    ensures 0 < n <= |r| && AllBlank(r[..n])
    ensures MatchFormatSpace(r).value == r[n..]
    ensures n == |r| || !IsBlank(r[n])
  {
    var t := SkipBlanks(r);
    SkipBlanksSpec(r);
    n := |r| - |t|;
    assert r != [] && IsBlank(r[0]);
    assert t == [] || !IsBlank(t[0]);
  }

  /** Glues a word, a run of blanks and a second word into a `PairAt`. */
  lemma PairAtOfParts(line: string, i: nat, j: nat, n: nat, m: nat)
    requires WordAt(line, i, j)
    requires 0 < n <= |line| - j && AllBlank(line[j..][..n])
    requires WordAt(line[j..][n..], 0, m)
    ensures PairAt(line, i, j, j + n, j + n + m)
    ensures line[j..][n..][0..m] == line[j + n..j + n + m]
  {
    var k, l := j + n, j + n + m;
    assert line[j..][..n] == line[j..k];
    assert line[j..][n..] == line[k..];
    assert line[k..][0..m] == line[k..l];
    assert l < |line| ==> line[k..][m] == line[l];
  }

  /** Whenever the scan succeeds, the line has the two-word layout of
      `PairAt` and the results are exactly its two words. */
  lemma ScanPairSound(line: string)
    requires ScanPair(line).Some?
    ensures exists i: nat, j: nat, k: nat, l: nat ::
      PairAt(line, i, j, k, l) && ScanPair(line).value == (line[i..j], line[k..l])
  {
    var i, j := ScanWordSound(line);
    var r1 := line[j..];
    var n := MatchFormatSpaceSound(r1);
    var t2 := r1[n..];
    var i2, j2 := ScanWordSound(t2);
    assert i2 == 0;
    PairAtOfParts(line, i, j, n, j2);
    assert ScanPair(line).value == (line[i..j], t2[0..j2]);
  }

  /** A line of `git show-ref` output, "<hash> <name>", scans back to its
      hash and its name. */
  lemma ScanShowRefLine(hash: string, name: string)
    requires hash != [] && NoSpace(hash)
    requires name != [] && NoSpace(name)
    ensures ScanPair(hash + " " + name) == Some((hash, name))
  {
    var line := hash + " " + name;
    var j := |hash|;
    assert line[..0] == [];
    assert line[0..j] == hash;
    assert line[j..j + 1] == " ";
    assert line[j + 1..|line|] == name;
    ScanPairComplete(line, 0, j, j + 1, |line|);
  }
}
