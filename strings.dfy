/** The parts of Go's strings package the connector relies on, for
    single-byte separators: prefix tests, searching, Split/Join and an ASCII
    case fold. */
module Strings {
  import opened GoTypes

  predicate HasPrefix(s: GoString, prefix: GoString) {
    |prefix| <= |s| && s[..|prefix|] == prefix
  }

  /** `strings.TrimPrefix`: drops `prefix` once when `s` starts with it. */
  function TrimPrefix(s: GoString, prefix: GoString): (r: GoString)
    ensures HasPrefix(s, prefix) ==> prefix + r == s
    ensures !HasPrefix(s, prefix) ==> r == s
  {
    if HasPrefix(s, prefix) then s[|prefix|..] else s
  }

  /** `strings.IndexByte`: the first position of `c`, or -1. */
  function Index(s: GoString, c: Byte): (i: int)
    ensures -1 <= i < |s|
    ensures i >= 0 ==> s[i] == c
    ensures forall k | 0 <= k < |s| && (i < 0 || k < i) :: s[k] != c
  {
    if |s| == 0 then -1
    else if s[0] == c then 0
    else
      var j := Index(s[1..], c);
      if j < 0 then -1 else j + 1
  }

  /** `strings.LastIndexByte`: the last position of `c`, or -1. */
  function LastIndex(s: GoString, c: Byte): (i: int)
    ensures -1 <= i < |s|
    ensures i >= 0 ==> s[i] == c
    ensures forall k | i < k < |s| :: s[k] != c
  {
    if |s| == 0 then -1
    else if s[|s| - 1] == c then |s| - 1
    else LastIndex(s[..|s| - 1], c)
  }

  /** `strings.Split(s, sep)` for a one-byte separator: the pieces between
      the separators, at least one. */
  function Split(s: GoString, sep: Byte): (parts: seq<GoString>)
    ensures |parts| >= 1
    decreases |s|
  {
    var i := Index(s, sep);
    if i < 0 then [s] else [s[..i]] + Split(s[i + 1..], sep)
  }

  /** `strings.Join(parts, sep)` for a one-byte separator. */
  function Join(parts: seq<GoString>, sep: Byte): GoString {
    if |parts| == 0 then []
    else if |parts| == 1 then parts[0]
    else parts[0] + [sep] + Join(parts[1..], sep)
  }

  lemma {:induction false} JoinSplit(s: GoString, sep: Byte)
    ensures Join(Split(s, sep), sep) == s
    decreases |s|
  {
    var i := Index(s, sep);
    if i >= 0 {
      var rest := Split(s[i + 1..], sep);
      assert Split(s, sep) == [s[..i]] + rest;
      assert ([s[..i]] + rest)[1..] == rest;
      JoinSplit(s[i + 1..], sep);
      assert s == s[..i] + [sep] + s[i + 1..];
    }
  }

  /** Splitting at every separator and joining all but the first piece
      back together (elfinder.go's `strings.Join(IDAndTarget[1:], "_")`)
      gives what follows the first separator; the first piece is what
      precedes it. */
  lemma SplitHeadTail(s: GoString, sep: Byte)
    ensures var parts := Split(s, sep); var i := Index(s, sep);
      && (i < 0 ==> parts == [s])
      && (i >= 0 ==> parts[0] == s[..i] && Join(parts[1..], sep) == s[i + 1..])
  {
    var i := Index(s, sep);
    if i >= 0 {
      var rest := Split(s[i + 1..], sep);
      assert Split(s, sep) == [s[..i]] + rest;
      assert ([s[..i]] + rest)[1..] == rest;
      JoinSplit(s[i + 1..], sep);
    }
  }

  /** A piece free of the separator, then the separator: Split takes the
      piece off and splits the rest. */
  lemma SplitFirst(a: GoString, b: GoString, sep: Byte)
    requires sep !in a
    ensures Split(a + [sep] + b, sep) == [a] + Split(b, sep)
  {
    var s := a + [sep] + b;
    assert s[|a|] == sep;
    assert forall k | 0 <= k < |a| :: s[k] == a[k];
    assert Index(s, sep) == |a|;
    assert s[..|a|] == a && s[|a| + 1..] == b;
  }

  function ToLowerAscii(c: Byte): Byte {
    if 'A' <= c <= 'Z' then (c as int + 32) as char else c
  }

  /** `strings.EqualFold`, restricted to ASCII case folding. */
  predicate EqualFold(a: GoString, b: GoString) {
    |a| == |b| && forall i | 0 <= i < |a| :: ToLowerAscii(a[i]) == ToLowerAscii(b[i])
  }

  function ToLower(s: GoString): (r: GoString)
    ensures |r| == |s| && forall i | 0 <= i < |s| :: r[i] == ToLowerAscii(s[i])
  {
    seq(|s|, i requires 0 <= i < |s| => ToLowerAscii(s[i]))
  }

  /** Case-folded equality is lower-casing both sides. */
  lemma EqualFoldIsLowerEquality(a: GoString, b: GoString)
    ensures EqualFold(a, b) <==> ToLower(a) == ToLower(b)
  {
    if ToLower(a) == ToLower(b) {
      assert |a| == |b|;
      forall i | 0 <= i < |a| ensures ToLowerAscii(a[i]) == ToLowerAscii(b[i]) {
        assert ToLower(a)[i] == ToLower(b)[i];
      }
    }
  }
}
