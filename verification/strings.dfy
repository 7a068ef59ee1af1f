/** The part of Go's `strings` package (and of Go's built-in string
    ordering) that the editor core relies on. A Go string is a sequence of
    bytes; here each `char` stands for one byte. */
module Strings {

  // ---------------------------------------------------------------------
  // Prefixes, suffixes and substring search
  // ---------------------------------------------------------------------

  /** `strings.HasPrefix` */
  predicate HasPrefix(s: string, prefix: string) {
    |prefix| <= |s| && s[..|prefix|] == prefix
  }

  /** `strings.HasSuffix` */
  predicate HasSuffix(s: string, suffix: string) {
    |suffix| <= |s| && s[|s| - |suffix|..] == suffix
  }

  /** `sep` occurs in `s` starting at byte offset `i`. */
  predicate OccursAt(s: string, sep: string, i: int) {
    0 <= i && i + |sep| <= |s| && s[i..i + |sep|] == sep
  }

  /** The first offset at or after `k` where `sep` occurs, or -1. */
  function IndexFrom(s: string, sep: string, k: nat): (r: int)
    requires k <= |s|
    ensures r == -1 || (k <= r && OccursAt(s, sep, r))
    ensures forall j :: k <= j && (r == -1 || j < r) ==> !OccursAt(s, sep, j)
    decreases |s| - k
  {
    if OccursAt(s, sep, k) then k
    else if k == |s| then -1
    else IndexFrom(s, sep, k + 1)
  }

  /** `strings.Index`: the leftmost occurrence of `sep` in `s`, or -1. */
  function Index(s: string, sep: string): (r: int)
    ensures r == -1 <==> forall j :: !OccursAt(s, sep, j)
    ensures r >= 0 ==> OccursAt(s, sep, r) && forall j :: 0 <= j < r ==> !OccursAt(s, sep, j)
  {
    IndexFrom(s, sep, 0)
  }

  /** `strings.Contains` */
  predicate Contains(s: string, sep: string) {
    Index(s, sep) >= 0
  }

  /** Extending a string on the right does not move an occurrence that
      already lies wholly inside it, nor create an earlier one. */
  lemma IndexOfPrefix(a: string, b: string, sep: string, i: int)
    requires OccursAt(a, sep, i)
    ensures Index(a + b, sep) == i <==> Index(a, sep) == i
  {
    var s := a + b;
    forall j | 0 <= j <= i
      ensures OccursAt(s, sep, j) <==> OccursAt(a, sep, j)
    {
      assert j + |sep| <= |a|;
      assert s[j..j + |sep|] == a[j..j + |sep|];
    }
    var r := Index(s, sep);
    var q := Index(a, sep);
    assert r != -1 by { assert OccursAt(s, sep, i); }
    assert q != -1;
  }

  /** A string cut just before an occurrence of `sep` that is the leftmost
      one contains no `sep` of its own. */
  lemma CutBeforeFirst(s: string, sep: string)
    requires Index(s, sep) >= 0
    ensures Index(s[..Index(s, sep)] + sep, sep) == Index(s, sep)
  {
    var i := Index(s, sep);
    var a := s[..i] + sep;
    assert s == a + s[i + |sep|..];
    assert OccursAt(a, sep, i);
    IndexOfPrefix(a, s[i + |sep|..], sep, i);
  }

  /** The leftmost-occurrence fact of `CutBeforeFirst`, read as "no `sep` in
      the part". */
  lemma FirstCutHasNoSep(p: string, sep: string)
    requires |sep| > 0
    requires Index(p + sep, sep) == |p|
    ensures !Contains(p, sep)
  {
    if Contains(p, sep) {
      var j := Index(p, sep);
      assert (p + sep)[j..j + |sep|] == p[j..j + |sep|];
      assert OccursAt(p + sep, sep, j);
      assert false;
    }
  }

  // ---------------------------------------------------------------------
  // Join, Split and SplitN
  // ---------------------------------------------------------------------

  /** `strings.Join` */
  function Join(parts: seq<string>, sep: string): string
  {
    if |parts| == 0 then ""
    else if |parts| == 1 then parts[0]
    else parts[0] + sep + Join(parts[1..], sep)
  }

  /** `strings.SplitN` for n > 0: at most `n` parts, each but the last ending
      at the leftmost remaining `sep`; the last part is the unsplit rest. */
  function SplitN(s: string, sep: string, n: nat): (parts: seq<string>)
    requires |sep| > 0 && n > 0
    ensures 1 <= |parts| <= n
    ensures Join(parts, sep) == s
    ensures forall k :: 0 <= k < |parts| - 1 ==> Index(parts[k] + sep, sep) == |parts[k]|
    ensures |parts| < n ==> !Contains(parts[|parts| - 1], sep)
    decreases n
  {
    var i := Index(s, sep);
    if n == 1 || i < 0 then [s]
    else
      CutBeforeFirst(s, sep);
      assert s == s[..i] + sep + s[i + |sep|..];
      [s[..i]] + SplitN(s[i + |sep|..], sep, n - 1)
  }

  /** `strings.Split` for a non-empty separator: cut at every `sep`. */
  function Split(s: string, sep: string): (parts: seq<string>)
    requires |sep| > 0
    ensures |parts| >= 1
    ensures Join(parts, sep) == s
    ensures forall k :: 0 <= k < |parts| ==> !Contains(parts[k], sep)
    ensures forall k :: 0 <= k < |parts| - 1 ==> Index(parts[k] + sep, sep) == |parts[k]|
    decreases |s|
  {
    var i := Index(s, sep);
    if i < 0 then [s]
    else
      CutBeforeFirst(s, sep);
      FirstCutHasNoSep(s[..i], sep);
      assert s == s[..i] + sep + s[i + |sep|..];
      [s[..i]] + Split(s[i + |sep|..], sep)
  }

  /** Splitting on a one-byte separator undoes joining on it, provided no
      part contains that byte. */
  lemma {:induction false} SplitJoinOneByte(parts: seq<string>, c: char)
    requires |parts| >= 1
    requires forall k :: 0 <= k < |parts| ==> c !in parts[k]
    ensures Split(Join(parts, [c]), [c]) == parts
    decreases |parts|
  {
    var sep := [c];
    var s := Join(parts, sep);
    var p := parts[0];
    if |parts| == 1 {
      forall j | 0 <= j < |s|
        ensures !OccursAt(s, sep, j)
      {
        assert s[j] == p[j] && s[j] in p;
      }
    } else {
      var rest := Join(parts[1..], sep);
      assert s == p + sep + rest;
      assert OccursAt(s, sep, |p|);
      forall j | 0 <= j < |p|
        ensures !OccursAt(s, sep, j)
      {
        assert s[j] == p[j];
      }
      assert Index(s, sep) == |p|;
      assert s[..|p|] == p;
      assert s[|p| + 1..] == rest;
      SplitJoinOneByte(parts[1..], c);
      assert parts == [p] + parts[1..];
    }
  }

  // ---------------------------------------------------------------------
  // Trimming
  // ---------------------------------------------------------------------

  /** `strings.TrimPrefix` */
  function TrimPrefix(s: string, prefix: string): string
  {
    if HasPrefix(s, prefix) then s[|prefix|..] else s
  }

  /** `strings.TrimSuffix` */
  function TrimSuffix(s: string, suffix: string): string
  {
    if HasSuffix(s, suffix) then s[..|s| - |suffix|] else s
  }

  /** `strings.TrimRight`: drop every trailing byte that belongs to the
      CUTSET (a set of bytes, not a suffix). */
  function TrimRight(s: string, cutset: string): (r: string)
    ensures HasPrefix(s, r)
    ensures |r| == 0 || r[|r| - 1] !in cutset
    ensures forall i :: |r| <= i < |s| ==> s[i] in cutset
    decreases |s|
  {
    if |s| > 0 && s[|s| - 1] in cutset then TrimRight(s[..|s| - 1], cutset) else s
  }

  /** The ASCII white-space bytes of `strings.TrimSpace`: space, tab, line
      feed, vertical tab, form feed, carriage return. */
  predicate IsSpace(c: char) {
    c == ' ' || '\t' <= c <= '\r'
  }

  /** Neither the first nor the last byte is white space. */
  predicate Trimmed(s: string) {
    |s| == 0 || (!IsSpace(s[0]) && !IsSpace(s[|s| - 1]))
  }

  function TrimLeftSpace(s: string): (r: string)
    ensures HasSuffix(s, r)
    ensures |r| == 0 || !IsSpace(r[0])
    ensures forall i :: 0 <= i < |s| - |r| ==> IsSpace(s[i])
    decreases |s|
  {
    if |s| > 0 && IsSpace(s[0]) then TrimLeftSpace(s[1..]) else s
  }

  function TrimRightSpace(s: string): (r: string)
    ensures HasPrefix(s, r)
    ensures |r| == 0 || !IsSpace(r[|r| - 1])
    ensures forall i :: |r| <= i < |s| ==> IsSpace(s[i])
    decreases |s|
  {
    if |s| > 0 && IsSpace(s[|s| - 1]) then TrimRightSpace(s[..|s| - 1]) else s
  }

  /** `strings.TrimSpace` (ASCII white space): the result starts and ends
      with a non-space byte, and only white space was removed around it. */
  function TrimSpace(s: string): (r: string)
    ensures Trimmed(r)
    ensures |r| <= |s|
    ensures exists a, b :: 0 <= a <= b <= |s| && r == s[a..b]
              && (forall i :: 0 <= i < a ==> IsSpace(s[i]))
              && (forall i :: b <= i < |s| ==> IsSpace(s[i]))
  {
    var l := TrimLeftSpace(s);
    var r := TrimRightSpace(l);
    assert |r| > 0 ==> r[0] == l[0];
    TrimmedSlice(s, l, r);
    r
  }

  /** Trimming the left and then the right leaves a slice of the input with
      only white space on either side. */
  lemma TrimmedSlice(s: string, l: string, r: string)
    requires HasSuffix(s, l) && forall i :: 0 <= i < |s| - |l| ==> IsSpace(s[i])
    requires HasPrefix(l, r) && forall i :: |r| <= i < |l| ==> IsSpace(l[i])
    ensures exists a, b :: 0 <= a <= b <= |s| && r == s[a..b]
              && (forall i :: 0 <= i < a ==> IsSpace(s[i]))
              && (forall i :: b <= i < |s| ==> IsSpace(s[i]))
  {
    var a := |s| - |l|;
    var b := a + |r|;
    assert l == s[a..];
    assert r == l[..|r|];
    assert r == s[a..b];
    assert forall i :: 0 <= i < a ==> IsSpace(s[i]);
    assert forall i :: b <= i < |s| ==> IsSpace(s[i]) by {
      forall i | b <= i < |s|
        ensures IsSpace(s[i])
      {
        assert s[i] == l[i - a];
      }
    }
    assert 0 <= a <= b <= |s| && r == s[a..b];
  }

  /** TrimSpace leaves a trimmed string alone, and also strips a single
      leading blank from it (the blank that `", "` joining inserts). */
  lemma TrimSpaceOfTrimmed(x: string)
    requires Trimmed(x)
    ensures TrimSpace(x) == x
    ensures TrimSpace(" " + x) == x
  {
  }

  // ---------------------------------------------------------------------
  // Case and ordering
  // ---------------------------------------------------------------------

  /** ASCII lower-casing of one byte. */
  function LowerByte(c: char): char {
    if 'A' <= c <= 'Z' then (c as int + 32) as char else c
  }

  /** `strings.ToLower` restricted to ASCII letters. */
  function ToLower(s: string): (r: string)
    ensures |r| == |s|
    ensures forall i :: 0 <= i < |s| ==> r[i] == LowerByte(s[i])
  {
    seq(|s|, i requires 0 <= i < |s| => LowerByte(s[i]))
  }

  /** Go's `<` on strings: byte-wise lexicographic order, a proper prefix
      coming first. */
  predicate Less(a: string, b: string)
    decreases |a|
  {
    if |a| == 0 then |b| > 0
    else if |b| == 0 then false
    else if a[0] != b[0] then a[0] < b[0]
    else Less(a[1..], b[1..])
  }

  /** `Less` is the first-difference order. */
  lemma {:induction false} LessIffFirstDifference(a: string, b: string)
    ensures Less(a, b) <==> FirstDifferenceLess(a, b)
    decreases |a|
  {
    if |a| > 0 && |b| > 0 {
      if a[0] != b[0] {
        FirstDifferenceAtHead(a, b);
      } else {
        FirstDifferenceShift(a, b);
        LessIffFirstDifference(a[1..], b[1..]);
      }
    }
  }

  /** The textbook definition of lexicographic order: `a` is a proper
      prefix of `b`, or at the first position where they differ `a` has the
      smaller byte. */
  predicate FirstDifferenceLess(a: string, b: string) {
    (|a| < |b| && a == b[..|a|])
    || exists i :: 0 <= i < |a| && i < |b| && a[..i] == b[..i] && a[i] < b[i]
  }

  lemma FirstDifferenceAtHead(a: string, b: string)
    requires |a| > 0 && |b| > 0 && a[0] != b[0]
    ensures FirstDifferenceLess(a, b) <==> a[0] < b[0]
  {
    if a[0] < b[0] {
      assert a[..0] == b[..0];
    } else {
      forall i | 0 < i <= |a| && i <= |b|
        ensures a[..i] != b[..i]
      {
        assert a[..i][0] != b[..i][0];
      }
      if |a| < |b| {
        assert a[0] != b[..|a|][0];
      }
    }
  }

  lemma FirstDifferenceShift(a: string, b: string)
    requires |a| > 0 && |b| > 0 && a[0] == b[0]
    ensures FirstDifferenceLess(a, b) <==> FirstDifferenceLess(a[1..], b[1..])
  {
    if FirstDifferenceLess(a, b) {
      FirstDifferenceDrop(a, b);
    }
    if FirstDifferenceLess(a[1..], b[1..]) {
      FirstDifferenceAdd(a, b);
    }
  }

  lemma FirstDifferenceDrop(a: string, b: string)
    requires |a| > 0 && |b| > 0 && a[0] == b[0]
    requires FirstDifferenceLess(a, b)
    ensures FirstDifferenceLess(a[1..], b[1..])
  {
    var a', b' := a[1..], b[1..];
    if |a| < |b| && a == b[..|a|] {
      assert a' == b'[..|a'|];
    } else {
      var i :| 0 <= i < |a| && i < |b| && a[..i] == b[..i] && a[i] < b[i];
      assert i > 0;
      assert a'[..i - 1] == a[..i][1..] == b[..i][1..] == b'[..i - 1];
      assert a'[i - 1] < b'[i - 1];
    }
  }

  lemma FirstDifferenceAdd(a: string, b: string)
    requires |a| > 0 && |b| > 0 && a[0] == b[0]
    requires FirstDifferenceLess(a[1..], b[1..])
    ensures FirstDifferenceLess(a, b)
  {
    var a', b' := a[1..], b[1..];
    if |a'| < |b'| && a' == b'[..|a'|] {
      assert a == [a[0]] + a' && b[..|a|] == [b[0]] + b'[..|a'|];
    } else {
      var j :| 0 <= j < |a'| && j < |b'| && a'[..j] == b'[..j] && a'[j] < b'[j];
      assert a[..j + 1] == [a[0]] + a'[..j] && b[..j + 1] == [b[0]] + b'[..j];
      assert a[j + 1] < b[j + 1];
    }
  }


  lemma {:induction false} LessIrreflexive(a: string)
    ensures !Less(a, a)
    decreases |a|
  {
    if |a| > 0 {
      LessIrreflexive(a[1..]);
    }
  }

  lemma {:induction false} LessTransitive(a: string, b: string, c: string)
    requires Less(a, b) && Less(b, c)
    ensures Less(a, c)
    decreases |a|
  {
    if |a| > 0 && a[0] == b[0] && b[0] == c[0] {
      LessTransitive(a[1..], b[1..], c[1..]);
    }
  }

  lemma {:induction false} LessTotal(a: string, b: string)
    ensures a == b || Less(a, b) || Less(b, a)
    decreases |a|
  {
    if |a| > 0 && |b| > 0 && a[0] == b[0] {
      LessTotal(a[1..], b[1..]);
      if a[1..] == b[1..] {
        assert a == [a[0]] + a[1..] && b == [b[0]] + b[1..];
      }
    }
  }

  lemma {:induction false} LessAsymmetric(a: string, b: string)
    requires Less(a, b)
    ensures !Less(b, a)
    decreases |a|
  {
    if |a| > 0 && a[0] == b[0] {
      LessAsymmetric(a[1..], b[1..]);
    }
  }
}
