/** The wire formats of chunked uploads, read by the "upload" branch of
    `dispatch` in elfinder.go: the chunk name "<name>.<cur>_<total>.part",
    the "offset,length,total" range field, and the "<cid>_<total>_<name>"
    token that announces a finished upload and comes back as the merge
    request. The two regular expressions are stated as the match Go's
    leftmost-first search finds. The last section gives the response the
    branch leaves for a chunk and for a merge request. */
module ChunkProtocol {
  import opened GoTypes
  import Strconv
  import Strings
  import LocalVolume

  // ---- digit runs ----

  /** The end of the run of decimal digits that starts at `from`. */
  function DigitEnd(s: GoString, from: nat): (e: nat)
    requires from <= |s|
    ensures from <= e <= |s|
    ensures forall k | from <= k < e :: Strconv.IsDigit(s[k])
    ensures e < |s| ==> !Strconv.IsDigit(s[e])
    ensures Strconv.AllDigits(s[from..e])
    decreases |s| - from
  {
    if from < |s| && Strconv.IsDigit(s[from]) then DigitEnd(s, from + 1) else from
  }

  /** A run of digits stopped by a non-digit (or the end) is the run. */
  lemma DigitEndIs(s: GoString, from: nat, e: nat)
    requires from <= e <= |s|
    requires forall k | from <= k < e :: Strconv.IsDigit(s[k])
    requires e < |s| ==> !Strconv.IsDigit(s[e])
    ensures DigitEnd(s, from) == e
    decreases e - from
  {
    if from < e {
      DigitEndIs(s, from + 1, e);
    }
  }

  /** Whether `\.([0-9][0-9]*?_[0-9][0-9]*?)(\.part)` matches at `i`. Both
      lazy digit runs can only stop at the first non-digit, which must be
      the "_" and the "." of ".part" respectively. */
  predicate PartAt(s: GoString, i: nat) {
    i < |s| && s[i] == '.' &&
    var j := DigitEnd(s, i + 1);
    j > i + 1 && j < |s| && s[j] == '_' &&
    var k := DigitEnd(s, j + 1);
    k > j + 1 && k + 5 <= |s| && s[k..k + 5] == ".part"
  }

  /** The least position from `from` on where PartAt holds, or -1. */
  function FirstPartAt(s: GoString, from: nat): (i: int)
    requires from <= |s|
    ensures i == -1 || from <= i < |s|
    ensures i >= 0 ==> PartAt(s, i)
    ensures forall k | from <= k < |s| && (i < 0 || k < i) :: !PartAt(s, k)
    decreases |s| - from
  {
    if from == |s| then -1
    else if PartAt(s, from) then from
    else FirstPartAt(s, from + 1)
  }

  /** The submatches `ch[1]`, `ch[2]` (split at its "_") of the chunk-name
      expression. */
  datatype ChunkName = ChunkName(name: GoString, cur: GoString, total: GoString)

  /** `c` holds the submatches of a match of the suffix at `i`: the name is
      the newline-free text that ends at `i` and starts at the beginning or
      just after a newline (`.` does not match a newline), and the numbers
      are the two digit runs that follow `i`. */
  predicate SubmatchedAt(s: GoString, i: int, c: ChunkName) {
    var p := i - |c.name|;
    && 0 <= p && i < |s| && c.name == s[p..i] && '\n' !in c.name && (p == 0 || s[p - 1] == '\n')
    && var j := DigitEnd(s, i + 1);
    && j < |s| && c.cur == s[i + 1..j] && c.total == s[j + 1..DigitEnd(s, j + 1)]
  }

  /** The submatches at a position are determined by it: two readings of
      the same match agree on the name and on both numbers. */
  lemma SubmatchedUnique(s: GoString, i: int, c: ChunkName, d: ChunkName)
    requires SubmatchedAt(s, i, c) && SubmatchedAt(s, i, d)
    ensures c == d
  {
    LineEndingAt(s, i, c.name, d.name);
  }

  /** Two newline-free texts that end at `i`, each starting at the
      beginning or after a newline, are the same text. */
  lemma LineEndingAt(s: GoString, i: int, a: GoString, b: GoString)
    requires 0 <= i - |a| && i <= |s| && a == s[i - |a|..i] && '\n' !in a
    requires i - |a| == 0 || s[i - |a| - 1] == '\n'
    requires 0 <= i - |b| && b == s[i - |b|..i] && '\n' !in b
    requires i - |b| == 0 || s[i - |b| - 1] == '\n'
    ensures a == b
  {
    var pa, pb := i - |a|, i - |b|;
    forall k | pa <= k < i ensures s[k] != '\n' {
      assert s[k] == a[k - pa];
    }
    forall k | pb <= k < i ensures s[k] != '\n' {
      assert s[k] == b[k - pb];
    }
  }

  /** `FindStringSubmatch` of `(.*?)\.([0-9][0-9]*?_[0-9][0-9]*?)(\.part)`:
      the submatches at the first position where the suffix matches. Text
      after ".part" is ignored. */
  function FindChunkName(s: GoString): (r: Option<ChunkName>)
    ensures r.None? <==> forall i | 0 <= i < |s| :: !PartAt(s, i)
    ensures r.Some? ==> SubmatchedAt(s, FirstPartAt(s, 0), r.value) && '\n' !in r.value.name
    ensures r.Some? ==>
      (r.value.cur != [] && Strconv.AllDigits(r.value.cur) && r.value.total != [] && Strconv.AllDigits(r.value.total))
  {
    var i := FirstPartAt(s, 0);
    if i < 0 then None
    else
      NameAtFacts(s, i);
      Some(NameAt(s, i))
  }

  /** NameAt takes the submatches at `i`. */
  lemma NameAtFacts(s: GoString, i: nat)
    requires PartAt(s, i)
    ensures SubmatchedAt(s, i, NameAt(s, i))
    ensures var c := NameAt(s, i);
      (c.cur != [] && Strconv.AllDigits(c.cur) && c.total != [] && Strconv.AllDigits(c.total))
  {
    LastLine(s, i);
  }

  /** The text after the last newline before `i` holds no newline and
      starts at the beginning or after a newline. */
  lemma LastLine(s: GoString, i: nat)
    requires i <= |s|
    ensures var p := Strings.LastIndex(s[..i], '\n') + 1;
      && 0 <= p <= i && '\n' !in s[p..i] && (p == 0 || s[p - 1] == '\n')
  {
    var p := Strings.LastIndex(s[..i], '\n') + 1;
    assert forall x | 0 <= x < |s[p..i]| :: s[p..i][x] == s[..i][p + x];
    assert p > 0 ==> s[p - 1] == s[..i][p - 1];
  }

  /** The submatches of a match of the suffix at `i`: the name runs back
      from `i` to just after the last newline. */
  function NameAt(s: GoString, i: nat): ChunkName
    requires PartAt(s, i)
  {
    var p := Strings.LastIndex(s[..i], '\n') + 1;
    var j := DigitEnd(s, i + 1);
    var k := DigitEnd(s, j + 1);
    ChunkName(s[p..i], s[i + 1..j], s[j + 1..k])
  }

  /** The "<name>.<cur>_<total>.part" name a client gives chunk `cur`. */
  function ChunkFileName(name: GoString, cur: nat, total: nat): GoString {
    name + "." + Strconv.Itoa(cur) + "_" + Strconv.Itoa(total) + ".part"
  }

  predicate MarkAt(f: GoString, k: nat)
    requires k + 5 <= |f|
  {
    f[k..k + 5] == ".part"
  }

  /** Whether ".part" occurs in `f`. */
  predicate HasPartMark(f: GoString) {
    exists k | 0 <= k && k + 5 <= |f| :: MarkAt(f, k)
  }

  /** `s` is `name`, ".", the digits `a`, "_", the digits `b` and ".part". */
  predicate Laid(s: GoString, name: GoString, a: GoString, b: GoString) {
    var n := |name|;
    && a != [] && Strconv.AllDigits(a) && b != [] && Strconv.AllDigits(b)
    && |s| == n + |a| + |b| + 7
    && (forall x | 0 <= x < n :: s[x] == name[x])
    && s[n] == '.'
    && (forall x | 0 <= x < |a| :: s[n + 1 + x] == a[x])
    && s[n + 1 + |a|] == '_'
    && (forall x | 0 <= x < |b| :: s[n + 2 + |a| + x] == b[x])
    && s[n + 2 + |a| + |b|..] == ".part"
  }

  /** A chunk file name is laid out so. */
  lemma ChunkFileNameLayout(name: GoString, cur: nat, total: nat)
    ensures Laid(ChunkFileName(name, cur, total), name, Strconv.Itoa(cur), Strconv.Itoa(total))
  {
    var a, b := Strconv.Itoa(cur), Strconv.Itoa(total);
    Strconv.ItoaShape(cur);
    Strconv.ItoaShape(total);
    assert ChunkFileName(name, cur, total) == name + ("." + a + "_" + b + ".part");
  }

  /** Only the final ".part" of such a string is one, when `name` holds
      none. */
  lemma NoMarkElsewhere(s: GoString, name: GoString, a: GoString, b: GoString, k: nat)
    requires Laid(s, name, a, b) && !HasPartMark(name)
    requires k + 5 <= |s| && k != |name| + 2 + |a| + |b|
    ensures s[k..k + 5] != ".part"
  {
    var n := |name|;
    if k + 5 <= n {
      var u, v := s[k..k + 5], name[k..k + 5];
      forall y | 0 <= y < 5 ensures u[y] == v[y] {
        assert u[y] == s[k + y];
      }
      assert u == v;
      assert !MarkAt(name, k);
    } else if k < n {
      assert s[k..k + 5][n - k] == '.';
    } else if k < n + 1 + |a| {
      assert s[k + 1] == '_' || s[k + 1] == a[k - n];
      assert s[k..k + 5][1] != 'p';
    } else {
      assert s[k] == '_' || s[k] == b[k - n - 2 - |a|];
      assert s[k..k + 5][0] != '.';
    }
  }

  /** The suffix expression matches nowhere inside `name`. */
  lemma NoPartBefore(s: GoString, name: GoString, a: GoString, b: GoString, i: nat)
    requires Laid(s, name, a, b) && !HasPartMark(name) && i < |name|
    ensures !PartAt(s, i)
  {
    var n := |name|;
    var j := DigitEnd(s, i + 1);
    assert j <= n;
    if j < |s| && s[j] == '_' {
      assert j < n;
      var k := DigitEnd(s, j + 1);
      assert k <= n;
      if k + 5 <= |s| {
        NoMarkElsewhere(s, name, a, b, k);
      }
    }
  }

  /** In such a string the digit runs are `a` and `b`. */
  lemma LaidRuns(s: GoString, name: GoString, a: GoString, b: GoString)
    requires Laid(s, name, a, b)
    ensures var n := |name|;
      && DigitEnd(s, n + 1) == n + 1 + |a| && DigitEnd(s, n + 2 + |a|) == n + 2 + |a| + |b|
      && s[0..n] == name && s[n + 1..n + 1 + |a|] == a && s[n + 2 + |a|..n + 2 + |a| + |b|] == b
  {
    var n := |name|;
    RunAt(s, n + 1, a);
    RunAt(s, n + 2 + |a|, b);
    assert s[0..n] == name;
  }

  /** A run of digits copied into `s` at `from` and stopped by a non-digit
      is the run DigitEnd finds there. */
  lemma RunAt(s: GoString, from: nat, r: GoString)
    requires from + |r| < |s| && !Strconv.IsDigit(s[from + |r|])
    requires Strconv.AllDigits(r) && forall x | 0 <= x < |r| :: s[from + x] == r[x]
    ensures DigitEnd(s, from) == from + |r| && s[from..from + |r|] == r
  {
    forall k | from <= k < from + |r| ensures Strconv.IsDigit(s[k]) {
      assert s[k] == r[k - from];
    }
    DigitEndIs(s, from, from + |r|);
    assert s[from..from + |r|] == r;
  }

  /** In such a string the first match of the suffix expression is right
      after `name`. */
  lemma LaidFirstPart(s: GoString, name: GoString, a: GoString, b: GoString)
    requires Laid(s, name, a, b) && !HasPartMark(name)
    ensures FirstPartAt(s, 0) == |name|
  {
    var n := |name|;
    LaidRuns(s, name, a, b);
    assert s[n + 2 + |a| + |b|..n + 7 + |a| + |b|] == ".part";
    assert PartAt(s, n);
    forall i | 0 <= i < n ensures !PartAt(s, i) {
      NoPartBefore(s, name, a, b, i);
    }
  }

  /** Such a string is read back as `name`, `a` and `b`. */
  lemma FindLaid(s: GoString, name: GoString, a: GoString, b: GoString)
    requires Laid(s, name, a, b) && '\n' !in name && !HasPartMark(name)
    ensures FindChunkName(s) == Some(ChunkName(name, a, b))
  {
    var n := |name|;
    LaidRuns(s, name, a, b);
    LaidFirstPart(s, name, a, b);
    assert s[..n] == name;
    assert Strings.LastIndex(name, '\n') == -1;
    FindChunkNameIs(s, n, n + 1 + |a|, n + 2 + |a| + |b|, ChunkName(name, a, b));
  }

  lemma FindChunkNameIs(s: GoString, i: nat, j: nat, k: nat, c: ChunkName)
    requires i < |s| && FirstPartAt(s, 0) == i && Strings.LastIndex(s[..i], '\n') == -1
    requires j == DigitEnd(s, i + 1) && j < |s| && k == DigitEnd(s, j + 1)
    requires s[0..i] == c.name && s[i + 1..j] == c.cur && s[j + 1..k] == c.total
    ensures FindChunkName(s) == Some(c)
  {
    FindChunkNameAt(s, i, j, k);
    SomeChunkName(FindChunkName(s), c);
  }

  lemma SomeChunkName(r: Option<ChunkName>, c: ChunkName)
    requires r.Some? && r.value.name == c.name && r.value.cur == c.cur && r.value.total == c.total
    ensures r == Some(c)
  {
  }

  /** FindChunkName once the first match is known to be at `i` with no
      newline before it. */
  lemma FindChunkNameAt(s: GoString, i: nat, j: nat, k: nat)
    requires i < |s| && FirstPartAt(s, 0) == i && Strings.LastIndex(s[..i], '\n') == -1
    requires j == DigitEnd(s, i + 1) && j < |s| && k == DigitEnd(s, j + 1)
    ensures FindChunkName(s).Some?
    ensures FindChunkName(s).value.name == s[0..i]
    ensures FindChunkName(s).value.cur == s[i + 1..j]
    ensures FindChunkName(s).value.total == s[j + 1..k]
  {
    assert FindChunkName(s) == Some(NameAt(s, i));
  }

  /** A chunk file name is read back as its base name, part number and
      total, provided the base name has no newline and no ".part" of its
      own. */
  lemma FindChunkFileName(name: GoString, cur: nat, total: nat)
    requires '\n' !in name && !HasPartMark(name)
    ensures FindChunkName(ChunkFileName(name, cur, total))
         == Some(ChunkName(name, Strconv.Itoa(cur), Strconv.Itoa(total)))
  {
    ChunkFileNameLayout(name, cur, total);
    FindLaid(ChunkFileName(name, cur, total), name, Strconv.Itoa(cur), Strconv.Itoa(total));
  }

  // ---- the chunk upload request ----

  /** What the upload branch does with a chunk: stop with an error, stop
      at a range field that does not have three parts, or store the chunk.
      Only the last reaches the per-file UploadChunk loop. The range case
      appends "err range data" to the warnings and then leaves the switch
      (elfinder.go:564-567), which skips the assignment of the warnings to
      the response at elfinder.go:646: the request ends with no error, no
      warning and nothing stored. */
  datatype ChunkUpload =
    | Reject(error: Error)
    | RangeDropped
    | Accept(name: GoString, cur: int, total: int, offset: int, length: int, totalSize: int)

  /** Both numbers of a chunk name parse with Atoi. */
  predicate PartsParse(c: ChunkName) {
    Strconv.Atoi(c.cur).err.None? && Strconv.Atoi(c.total).err.None?
  }

  /** The range field splits into three parts, each of which parses with
      Atoi. */
  predicate RangeParses(rangeField: GoString) {
    var parts := Strings.Split(rangeField, ',');
    && |parts| == 3 && Strconv.Atoi(parts[0]).err.None?
    && Strconv.Atoi(parts[1]).err.None? && Strconv.Atoi(parts[2]).err.None?
  }

  /** The two digit runs of `ch[2]` separated again by `strings.Split`. */
  lemma SplitDigits(a: GoString, b: GoString)
    requires Strconv.AllDigits(a) && Strconv.AllDigits(b)
    ensures Strings.Split(a + "_" + b, '_') == [a, b]
  {
    assert '_' !in a && '_' !in b;
    Strings.SplitFirst(a, b, '_');
    assert Strings.Index(b, '_') == -1;
  }

  /** Atoi of a digit run, when it succeeds, is a non-negative 64-bit
      value. */
  lemma AtoiOfDigits(s: GoString)
    requires s != [] && Strconv.AllDigits(s)
    ensures Strconv.Atoi(s).err.None? ==> 0 <= Strconv.Atoi(s).value <= Strconv.MaxInt64
  {
    assert s[0] != '-' && s[0] != '+';
    assert Strconv.Limit(0) / 2 == Strconv.MaxInt64 + 1;
  }

  /** The parsing of `elf.req.Chunk` and `elf.req.Range` in the chunk
      branch, in the source's order: the name, its two numbers, the
      three-way split of the range, then its three numbers. Every failure
      but the range split is errUploadFile. */
  function ParseChunkUpload(chunk: GoString, rangeField: GoString): (r: ChunkUpload)
    ensures r.Reject? ==> r.error == ErrUploadFile
    ensures r == RangeDropped <==>
      (FindChunkName(chunk).Some? && PartsParse(FindChunkName(chunk).value)
       && |Strings.Split(rangeField, ',')| != 3)
    ensures r.Accept? <==>
      (FindChunkName(chunk).Some? && PartsParse(FindChunkName(chunk).value) && RangeParses(rangeField))
    ensures r.Accept? ==>
      var c := FindChunkName(chunk).value; var parts := Strings.Split(rangeField, ',');
      && r.name == c.name && r.cur == Strconv.Atoi(c.cur).value && r.total == Strconv.Atoi(c.total).value
      && r.offset == Strconv.Atoi(parts[0]).value && r.length == Strconv.Atoi(parts[1]).value
      && r.totalSize == Strconv.Atoi(parts[2]).value
    ensures r.Accept? ==>
      (r.cur >= 0 && r.total >= 0 && '\n' !in r.name && r.total <= Strconv.MaxInt64)
  {
    match FindChunkName(chunk)
    case None => Reject(ErrUploadFile)
    case Some(ch) =>
      SplitDigits(ch.cur, ch.total);
      AtoiOfDigits(ch.cur);
      AtoiOfDigits(ch.total);
      var t := Strings.Split(ch.cur + "_" + ch.total, '_');
      var cur := Strconv.Atoi(t[0]);
      var total := Strconv.Atoi(t[1]);
      if cur.err.Some? || total.err.Some? then Reject(ErrUploadFile)
      else
        var rangeData := Strings.Split(rangeField, ',');
        if |rangeData| != 3 then RangeDropped
        else
          var offset := Strconv.Atoi(rangeData[0]);
          var length := Strconv.Atoi(rangeData[1]);
          var size := Strconv.Atoi(rangeData[2]);
          if offset.err.Some? || length.err.Some? || size.err.Some? then Reject(ErrUploadFile)
          else Accept(ch.name, cur.value, total.value, offset.value, length.value, size.value)
  }

  /** A chunk name as a client forms it, with part numbers and a range that
      fit in 64 bits, is accepted with exactly those values. */
  lemma ParseChunkFileName(name: GoString, cur: nat, total: nat, offset: nat, length: nat, size: nat)
    requires '\n' !in name && !HasPartMark(name)
    requires cur <= Strconv.MaxInt64 && total <= Strconv.MaxInt64
    requires offset <= Strconv.MaxInt64 && length <= Strconv.MaxInt64 && size <= Strconv.MaxInt64
    ensures ParseChunkUpload(ChunkFileName(name, cur, total), RangeField(offset, length, size))
         == Accept(name, cur, total, offset, length, size)
  {
    FindChunkFileName(name, cur, total);
    Strconv.AtoiItoa(cur);
    Strconv.AtoiItoa(total);
    Strconv.AtoiItoa(offset);
    Strconv.AtoiItoa(length);
    Strconv.AtoiItoa(size);
    SplitRangeField(offset, length, size);
    ParseChunkUploadIs(ChunkFileName(name, cur, total), RangeField(offset, length, size),
      ChunkName(name, Strconv.Itoa(cur), Strconv.Itoa(total)), cur, total,
      Strconv.Itoa(offset), Strconv.Itoa(length), Strconv.Itoa(size), offset, length, size);
  }

  /** The range field "offset,length,total" a client sends. */
  function RangeField(offset: nat, length: nat, size: nat): GoString {
    Strconv.Itoa(offset) + "," + Strconv.Itoa(length) + "," + Strconv.Itoa(size)
  }

  /** ParseChunkUpload when every step succeeds. */
  lemma ParseChunkUploadIs(chunk: GoString, rangeField: GoString, c: ChunkName, cur: int, total: int,
                           ro: GoString, rl: GoString, rz: GoString, o: int, l: int, z: int)
    requires FindChunkName(chunk) == Some(c)
    requires Strconv.Atoi(c.cur) == Returned(cur, None) && Strconv.Atoi(c.total) == Returned(total, None)
    requires Strings.Split(rangeField, ',') == [ro, rl, rz]
    requires Strconv.Atoi(ro) == Returned(o, None) && Strconv.Atoi(rl) == Returned(l, None)
    requires Strconv.Atoi(rz) == Returned(z, None)
    ensures ParseChunkUpload(chunk, rangeField) == Accept(c.name, cur, total, o, l, z)
  {
    SplitDigits(c.cur, c.total);
  }

  /** The range field splits into its three numbers. */
  lemma SplitRangeField(offset: nat, length: nat, size: nat)
    ensures Strings.Split(RangeField(offset, length, size), ',')
         == [Strconv.Itoa(offset), Strconv.Itoa(length), Strconv.Itoa(size)]
  {
    var o, l, z := Strconv.Itoa(offset), Strconv.Itoa(length), Strconv.Itoa(size);
    Strconv.ItoaShape(offset);
    Strconv.ItoaShape(length);
    Strconv.ItoaShape(size);
    SplitThree(o, l, z);
    assert forall x | 0 <= x < |z| :: z[x] != ',';
    assert Strings.Index(z, ',') == -1;
  }

  /** "o,l,z" splits at its first two commas when o and l are digit runs. */
  lemma SplitThree(o: GoString, l: GoString, z: GoString)
    requires Strconv.AllDigits(o) && Strconv.AllDigits(l)
    ensures Strings.Split(o + "," + l + "," + z, ',') == [o, l] + Strings.Split(z, ',')
  {
    assert ',' !in o && ',' !in l;
    assert o + "," + l + "," + z == o + [','] + (l + [','] + z);
    Strings.SplitFirst(o, l + [','] + z, ',');
    Strings.SplitFirst(l, z, ',');
  }

  /** The token announcing the last chunk: set only when the chunk's part
      number equals the total, as "<cid>_<total>_<name>". */
  function ChunkMerged(cid: int, u: ChunkUpload): (token: Option<GoString>)
    ensures token.Some? <==> u.Accept? && u.cur == u.total
  {
    if u.Accept? && u.cur == u.total
    then Some(Strconv.Itoa(cid) + "_" + Strconv.Itoa(u.total) + "_" + u.name)
    else None
  }

  // ---- the merge request ----

  /** Whether `([0-9]*)_([0-9]*)_` matches at `p`: both runs are greedy and
      may be empty, and each is followed by "_". */
  predicate MergeAt(s: GoString, p: nat) {
    p <= |s| &&
    var j := DigitEnd(s, p);
    j < |s| && s[j] == '_' &&
    var k := DigitEnd(s, j + 1);
    k < |s| && s[k] == '_'
  }

  function FirstMergeAt(s: GoString, from: nat): (p: int)
    requires from <= |s|
    ensures p == -1 || from <= p <= |s|
    ensures p >= 0 ==> MergeAt(s, p)
    ensures forall k | from <= k <= |s| && (p < 0 || k < p) :: !MergeAt(s, k)
    decreases |s| - from
  {
    if MergeAt(s, from) then from
    else if from == |s| then -1
    else FirstMergeAt(s, from + 1)
  }

  /** The text up to the first newline, what a greedy `(.*)` takes. */
  function Line(t: GoString): (r: GoString)
    ensures '\n' !in r
    ensures '\n' !in t ==> r == t
  {
    var e := Strings.Index(t, '\n');
    if e < 0 then t else t[..e]
  }

  /** The merge request `([0-9]*)_([0-9]*)_(.*)` read into (cid, total,
      name). The numbers come from Atoi with its error ignored, so an empty
      run reads as 0 and an overlong one as the clamped value. */
  function ParseMergeToken(s: GoString): (r: Option<(int, int, GoString)>)
    ensures r.None? <==> forall p | 0 <= p <= |s| :: !MergeAt(s, p)
    ensures r.Some? ==> r.value.0 >= 0 && r.value.1 >= 0 && '\n' !in r.value.2
  {
    var p := FirstMergeAt(s, 0);
    if p < 0 then None
    else
      var m := Submatches(s, p);
      Some((Strconv.Atoi(m.0).value, Strconv.Atoi(m.1).value, Line(m.2)))
  }

  /** The two digit runs of a match of the merge expression at `p` and the
      text after its second "_". */
  function Submatches(s: GoString, p: nat): (m: (GoString, GoString, GoString))
    requires MergeAt(s, p)
    ensures Strconv.AllDigits(m.0) && Strconv.AllDigits(m.1)
  {
    var j := DigitEnd(s, p);
    var k := DigitEnd(s, j + 1);
    (s[p..j], s[j + 1..k], s[k + 1..])
  }

  /** `s` is `pre`, the digits `a`, "_", the digits `b`, "_" and `name`,
      where `pre` holds neither digits nor "_". */
  predicate TokenLaid(s: GoString, pre: GoString, a: GoString, b: GoString, name: GoString) {
    var q := |pre|;
    && Strconv.AllDigits(a) && Strconv.AllDigits(b)
    && (forall x | 0 <= x < q :: !Strconv.IsDigit(pre[x]) && pre[x] != '_')
    && |s| == q + |a| + |b| + 2 + |name|
    && (forall x | 0 <= x < q :: s[x] == pre[x])
    && (forall x | 0 <= x < |a| :: s[q + x] == a[x])
    && s[q + |a|] == '_'
    && (forall x | 0 <= x < |b| :: s[q + |a| + 1 + x] == b[x])
    && s[q + |a| + 1 + |b|] == '_'
    && s[q + |a| + 2 + |b|..] == name
  }

  lemma TokenLaidOut(pre: GoString, a: GoString, b: GoString, name: GoString)
    requires Strconv.AllDigits(a) && Strconv.AllDigits(b)
    requires forall x | 0 <= x < |pre| :: !Strconv.IsDigit(pre[x]) && pre[x] != '_'
    ensures TokenLaid(pre + a + "_" + b + "_" + name, pre, a, b, name)
  {
    var s := pre + a + "_" + b + "_" + name;
    assert s == pre + (a + "_" + b + "_" + name);
  }

  /** In such a string the name follows the second "_". */
  lemma TokenName(s: GoString, pre: GoString, a: GoString, b: GoString, name: GoString)
    requires TokenLaid(s, pre, a, b, name)
    ensures |pre| + |a| + 1 + |b| < |s| && s[|pre| + |a| + 2 + |b|..] == name
  {
  }

  /** In such a string the digit runs after `pre` are `a` and `b`. */
  lemma TokenRuns(s: GoString, pre: GoString, a: GoString, b: GoString, name: GoString)
    requires TokenLaid(s, pre, a, b, name)
    ensures var q := |pre|;
      && DigitEnd(s, q) == q + |a| && DigitEnd(s, q + |a| + 1) == q + |a| + 1 + |b|
      && s[q..q + |a|] == a && s[q + |a| + 1..q + |a| + 1 + |b|] == b
  {
    var q := |pre|;
    RunAt(s, q, a);
    RunAt(s, q + |a| + 1, b);
  }

  /** In such a string the match of the merge expression starts right after
      `pre`. */
  lemma TokenFirstMatch(s: GoString, pre: GoString, a: GoString, b: GoString, name: GoString)
    requires TokenLaid(s, pre, a, b, name)
    ensures FirstMergeAt(s, 0) == |pre|
  {
    var q := |pre|;
    TokenRuns(s, pre, a, b, name);
    assert MergeAt(s, q);
    forall p | 0 <= p < q ensures !MergeAt(s, p) {
      assert s[p] == pre[p];
      DigitEndIs(s, p, p);
    }
  }

  /** Such a string is read as the values of `a` and `b` and the name. */
  lemma ParseTokenLaid(s: GoString, pre: GoString, a: GoString, b: GoString, name: GoString, x: int, y: int)
    requires TokenLaid(s, pre, a, b, name) && '\n' !in name
    requires Strconv.Atoi(a).value == x && Strconv.Atoi(b).value == y
    ensures ParseMergeToken(s) == Some((x, y, name))
  {
    TokenRuns(s, pre, a, b, name);
    TokenName(s, pre, a, b, name);
    TokenFirstMatch(s, pre, a, b, name);
    ParseTokenAt(s, |pre|, a, b, name, x, y);
  }

  /** ParseMergeToken from the positions of the match and its runs. */
  lemma ParseTokenAt(s: GoString, q: nat, a: GoString, b: GoString, name: GoString, x: int, y: int)
    requires q + |a| + 1 + |b| < |s| && FirstMergeAt(s, 0) == q
    requires DigitEnd(s, q) == q + |a| && DigitEnd(s, q + |a| + 1) == q + |a| + 1 + |b|
    requires s[q..q + |a|] == a && s[q + |a| + 1..q + |a| + 1 + |b|] == b
    requires s[q + |a| + 2 + |b|..] == name && '\n' !in name
    requires Strconv.Atoi(a).value == x && Strconv.Atoi(b).value == y
    ensures ParseMergeToken(s) == Some((x, y, name))
  {
    SubmatchesAt(s, q, a, b, name);
    ParseAtFirst(s, q);
  }

  /** The submatches at a match `q`, given the two digit runs there. */
  lemma SubmatchesAt(s: GoString, q: nat, a: GoString, b: GoString, name: GoString)
    requires q + |a| + 1 + |b| < |s| && MergeAt(s, q)
    requires DigitEnd(s, q) == q + |a| && DigitEnd(s, q + |a| + 1) == q + |a| + 1 + |b|
    requires s[q..q + |a|] == a && s[q + |a| + 1..q + |a| + 1 + |b|] == b
    requires s[q + |a| + 2 + |b|..] == name
    ensures Submatches(s, q) == (a, b, name)
  {
    var j := DigitEnd(s, q);
    var k := DigitEnd(s, j + 1);
    assert j == q + |a| && k == q + |a| + 1 + |b|;
  }

  /** ParseMergeToken reads the submatches at the first match. */
  lemma ParseAtFirst(s: GoString, q: nat)
    requires q <= |s| && FirstMergeAt(s, 0) == q
    ensures var m := Submatches(s, q);
      ParseMergeToken(s) == Some((Strconv.Atoi(m.0).value, Strconv.Atoi(m.1).value, Line(m.2)))
  {
  }

  /** A token made of an optional "-", two digit runs and a name without
      a newline is read as the runs' values and the name; a leading "-" is
      skipped by the match. */
  lemma ParseTokenOf(s: GoString, pre: GoString, a: GoString, b: GoString, name: GoString, x: int, y: int)
    requires pre == [] || pre == "-"
    requires Strconv.AllDigits(a) && Strconv.AllDigits(b) && '\n' !in name
    requires Strconv.Atoi(a).value == x && Strconv.Atoi(b).value == y
    requires s == pre + a + "_" + b + "_" + name
    ensures ParseMergeToken(s) == Some((x, y, name))
  {
    TokenLaidOut(pre, a, b, name);
    ParseTokenLaid(s, pre, a, b, name, x, y);
  }

  /** The token of a finished upload with a non-negative upload id comes
      back from the merge request as that id, the total and the name. */
  lemma MergeTokenRoundTrip(cid: nat, total: nat, name: GoString)
    requires cid <= Strconv.MaxInt64 && total <= Strconv.MaxInt64 && '\n' !in name
    ensures ParseMergeToken(Strconv.Itoa(cid) + "_" + Strconv.Itoa(total) + "_" + name)
         == Some((cid, total, name))
  {
    var a, b := Strconv.Itoa(cid), Strconv.Itoa(total);
    Strconv.ItoaShape(cid);
    Strconv.ItoaShape(total);
    Strconv.AtoiItoa(cid);
    Strconv.AtoiItoa(total);
    assert [] + a == a;
    ParseTokenOf(a + "_" + b + "_" + name, [], a, b, name, cid, total);
  }

  /** What the upload branch announces is what the merge request reads
      back, whenever the upload id is not negative. */
  lemma ChunkMergedRoundTrip(cid: int, chunk: GoString, rangeField: GoString)
    requires 0 <= cid <= Strconv.MaxInt64
    requires ChunkMerged(cid, ParseChunkUpload(chunk, rangeField)).Some?
    ensures var u := ParseChunkUpload(chunk, rangeField);
      ParseMergeToken(ChunkMerged(cid, u).value) == Some((cid, u.total, u.name))
  {
    var u := ParseChunkUpload(chunk, rangeField);
    MergeTokenRoundTrip(cid, u.total, u.name);
  }

  /** A negative upload id does not survive: the "-" is skipped and the
      request reads back the id's absolute value. */
  lemma NegativeCidLosesSign(cid: int, total: nat, name: GoString)
    requires -Strconv.MaxInt64 <= cid < 0 && total <= Strconv.MaxInt64 && '\n' !in name
    ensures ParseMergeToken(Strconv.Itoa(cid) + "_" + Strconv.Itoa(total) + "_" + name)
         == Some((-cid, total, name))
  {
    var c: nat := -cid;
    var a, b := Strconv.Itoa(c), Strconv.Itoa(total);
    Strconv.ItoaShape(c);
    Strconv.ItoaShape(total);
    assert Strconv.Itoa(cid) == "-" + a;
    Strconv.AtoiItoa(c);
    Strconv.AtoiItoa(total);
    ParseTokenOf(Strconv.Itoa(cid) + "_" + b + "_" + name, "-", a, b, name, c, total);
  }

  // ---- which branch ----

  datatype UploadMode = ChunkPart | MergeRequest | WholeFiles

  /** `Cid != 0 && Chunk != ""` marks a chunk; a chunk field without an
      upload id is a merge request; otherwise whole files are uploaded. */
  function Mode(cid: int, chunk: GoString): (m: UploadMode)
    ensures m == ChunkPart <==> cid != 0 && chunk != []
    ensures m == MergeRequest <==> cid == 0 && chunk != []
    ensures m == WholeFiles <==> chunk == []
  {
    if cid != 0 && chunk != [] then ChunkPart
    else if chunk != [] then MergeRequest
    else WholeFiles
  }

  // ---- the response ----

  /** One warning of the upload response: a fixed text such as
      "err range data", or the text of an error. */
  datatype Warning = Said(text: GoString) | Failed(error: Error)

  /** The fields of the response the upload branch fills: the error, the
      warnings, the records added, the chunk-merged token and its name. A
      field the branch does not reach keeps its zero value. */
  datatype Reply = Reply(error: Option<Error>, warning: seq<Warning>, added: seq<LocalVolume.FileDir>,
                         chunkmerged: Option<GoString>, name: GoString)

  /** A response with every field at its zero value. */
  const Silent: Reply := Reply(None, [], [], None, [])

  /** Whether the client learns something from the response: an error, a
      warning, an added record or a chunk-merged token. */
  predicate Heard(rep: Reply) {
    rep.error.Some? || rep.warning != [] || rep.added != [] || rep.chunkmerged.Some?
  }

  /** The response to a chunk as the code leaves it. Every failure leaves
      the switch by `break`, which skips `elf.res.Warning = errs` at
      elfinder.go:646: a parse error keeps only the error, and the "err
      range data" warning of a range field without three parts is lost.
      A stored chunk reports the errors of the per-file loop,
      `uploadErrs`, and, for the last part, the token and the name. */
  function ChunkReply(cid: int, u: ChunkUpload, uploadErrs: seq<Warning>): (rep: Reply)
    ensures rep.error.Some? <==> u.Reject?
    ensures rep.warning == (if u.Accept? then uploadErrs else [])
    ensures rep.added == []
    ensures rep.chunkmerged == ChunkMerged(cid, u)
  {
    match u
    case Reject(e) => Silent.(error := Some(e))
    case RangeDropped => Silent
    case Accept(name, _, total, _, _, _) =>
      var token := ChunkMerged(cid, u);
      Reply(None, uploadErrs, [], token, if token.Some? then name else [])
  }

  /** A chunk named as a client names it, sent with a range field that
      does not split into three parts, is neither stored nor reported:
      the response is empty. */
  lemma RangeDroppedSilently(name: GoString, cur: nat, total: nat, rangeField: GoString,
                             cid: int, uploadErrs: seq<Warning>)
    requires '\n' !in name && !HasPartMark(name)
    requires cur <= Strconv.MaxInt64 && total <= Strconv.MaxInt64
    requires |Strings.Split(rangeField, ',')| != 3
    ensures var u := ParseChunkUpload(ChunkFileName(name, cur, total), rangeField);
      u == RangeDropped && ChunkReply(cid, u, uploadErrs) == Silent && !Heard(Silent)
  {
    FindChunkFileName(name, cur, total);
    Strconv.AtoiItoa(cur);
    Strconv.AtoiItoa(total);
  }

  /** The response to a chunk as evidently intended: the range warning
      reaches the client. */
  function IntendedChunkReply(cid: int, u: ChunkUpload, uploadErrs: seq<Warning>): (rep: Reply)
    ensures u != RangeDropped ==> rep == ChunkReply(cid, u, uploadErrs)
  {
    if u == RangeDropped then Silent.(warning := [Said("err range data")])
    else ChunkReply(cid, u, uploadErrs)
  }

  /** With the intended response every chunk that is not stored is
      reported: by its error, or by the range warning. */
  lemma ChunkReplyHeard(cid: int, u: ChunkUpload, uploadErrs: seq<Warning>)
    ensures !u.Accept? ==> Heard(IntendedChunkReply(cid, u, uploadErrs))
    ensures u == RangeDropped ==> IntendedChunkReply(cid, u, uploadErrs).warning == [Said("err range data")]
  {
  }

  /** The response to a merge request as the code leaves it: a token that
      does not match is errFolderUpload; a MergeChunk error is appended to
      the warnings and then leaves the switch by `break`
      (elfinder.go:625-627), so it never reaches the response; a merged
      file is the one record added. */
  function MergeReply(token: Option<(int, int, GoString)>, merged: Returned<LocalVolume.FileDir>): (rep: Reply)
    ensures rep.error.Some? <==> token.None?
    ensures rep.added != [] <==> token.Some? && merged.err.None?
    ensures rep.added != [] ==> rep.added == [merged.value]
    ensures rep.warning == [] && rep.chunkmerged.None?
  {
    if token.None? then Silent.(error := Some(ErrFolderUpload))
    else if merged.err.Some? then Silent
    else Silent.(added := [merged.value])
  }

  /** A merge request whose token matches but whose merge fails gets an
      empty response. */
  lemma MergeFailureSilent(token: Option<(int, int, GoString)>, merged: Returned<LocalVolume.FileDir>)
    requires token.Some? && merged.err.Some?
    ensures MergeReply(token, merged) == Silent && !Heard(MergeReply(token, merged))
  {
  }

  /** The response to a merge request as evidently intended: the merge
      error reaches the client as a warning. */
  function IntendedMergeReply(token: Option<(int, int, GoString)>, merged: Returned<LocalVolume.FileDir>): (rep: Reply)
    ensures token.None? || merged.err.None? ==> rep == MergeReply(token, merged)
  {
    if token.Some? && merged.err.Some? then Silent.(warning := [Failed(merged.err.value)])
    else MergeReply(token, merged)
  }

  /** With the intended response every merge request is answered: by an
      error, by the merge error as a warning, or by the merged record. */
  lemma MergeReplyHeard(token: Option<(int, int, GoString)>, merged: Returned<LocalVolume.FileDir>)
    ensures Heard(IntendedMergeReply(token, merged))
    ensures token.Some? && merged.err.Some? ==>
      IntendedMergeReply(token, merged).warning == [Failed(merged.err.value)]
  {
  }
}
