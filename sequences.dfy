/** Python's `in`, `split`, `startswith`, `strip` and `rstrip` on `str`
    and `bytes`, written once over sequences of any element type and built
    on a leftmost search, Find. */
module Sequences {
  import opened Wrappers

  /** `s.startswith(prefix)` */
  predicate StartsWith<T(==)>(s: seq<T>, prefix: seq<T>) {
    |prefix| <= |s| && s[..|prefix|] == prefix
  }

  /** `sep` occurs in `s` starting at index `i`. */
  predicate OccursAt<T(==)>(s: seq<T>, sep: seq<T>, i: nat) {
    i + |sep| <= |s| && s[i..i + |sep|] == sep
  }

  lemma OccursShift<T>(s: seq<T>, sep: seq<T>, j: nat)
    requires |s| > 0
    ensures OccursAt(s[1..], sep, j) <==> OccursAt(s, sep, j + 1)
  {
    if j + |sep| <= |s[1..]| {
      assert s[1..][j..j + |sep|] == s[j + 1..j + 1 + |sep|];
    }
  }

  /** An occurrence that ends within the first `m` elements is an occurrence
      in `s[..m]` and in every extension of `s[..m]`. */
  lemma OccursInPrefix<T>(s: seq<T>, t: seq<T>, sep: seq<T>, j: nat)
    requires j + |sep| <= |s|
    ensures OccursAt(s + t, sep, j) <==> OccursAt(s, sep, j)
  {
    assert (s + t)[j..j + |sep|] == s[j..j + |sep|];
  }

  /** The leftmost occurrence of `sep` in `s`, or None when there is none. */
  function Find<T(==)>(s: seq<T>, sep: seq<T>): (r: Option<nat>)
    ensures r.Some? ==> OccursAt(s, sep, r.value)
    ensures r.Some? ==> forall j: nat :: j < r.value ==> !OccursAt(s, sep, j)
    ensures r.None? ==> forall j: nat :: !OccursAt(s, sep, j)
    decreases |s|
  {
    if |s| < |sep| then None
    else if s[..|sep|] == sep then Some(0)
    else
      match Find(s[1..], sep)
      case None =>
        assert forall j: nat :: !OccursAt(s, sep, j) by {
          forall j: nat ensures !OccursAt(s, sep, j) {
            if j > 0 { OccursShift(s, sep, j - 1); }
          }
        }
        None
      case Some(k) =>
        OccursShift(s, sep, k);
        assert forall j: nat :: j < k + 1 ==> !OccursAt(s, sep, j) by {
          forall j: nat | j < k + 1 ensures !OccursAt(s, sep, j) {
            if j > 0 { OccursShift(s, sep, j - 1); }
          }
        }
        Some(k + 1)
  }

  /** `sep in s`: `sep` occurs somewhere in `s`. */
  predicate Contains<T(==)>(s: seq<T>, sep: seq<T>)
  {
    Find(s, sep).Some?
  }

  /** `sep in s` holds exactly when `sep` occurs somewhere in `s`. */
  lemma ContainsOccurs<T>(s: seq<T>, sep: seq<T>)
    ensures Contains(s, sep) <==> exists j: nat :: OccursAt(s, sep, j)
  {
    if Contains(s, sep) {
      assert OccursAt(s, sep, Find(s, sep).value);
    }
  }

  /** Find is determined by its contract: the leftmost occurrence. */
  lemma FindIsLeftmost<T>(s: seq<T>, sep: seq<T>, i: nat)
    requires OccursAt(s, sep, i)
    requires forall j: nat :: j < i ==> !OccursAt(s, sep, j)
    ensures Find(s, sep) == Some(i)
  {
  }

  /** The leftmost occurrence in `a` is still the leftmost one in `a + b`. */
  lemma FindExtend<T>(a: seq<T>, b: seq<T>, sep: seq<T>)
    requires Find(a, sep).Some?
    ensures Find(a + b, sep) == Find(a, sep)
  {
    var i := Find(a, sep).value;
    OccursInPrefix(a, b, sep, i);
    forall j: nat | j < i ensures !OccursAt(a + b, sep, j) {
      OccursInPrefix(a, b, sep, j);
    }
    FindIsLeftmost(a + b, sep, i);
  }

  /** For a one-element separator, Find is the index of the first `c`. */
  lemma FindSingle<T>(s: seq<T>, c: T)
    ensures Find(s, [c]).None? <==> c !in s
    ensures Find(s, [c]).Some? ==>
      var i := Find(s, [c]).value;
      i < |s| && s[i] == c && c !in s[..i]
  {
    forall j: nat | j < |s| ensures OccursAt(s, [c], j) <==> s[j] == c {
      assert s[j..j + 1] == [s[j]];
    }
    match Find(s, [c])
    case Some(i) =>
      assert s[i..i + 1] == [s[i]];
      forall k | 0 <= k < i ensures s[..i][k] != c {
        assert !OccursAt(s, [c], k);
      }
    case None =>
      forall k | 0 <= k < |s| ensures s[k] != c {
        assert !OccursAt(s, [c], k);
      }
  }

  /** An occurrence of a one-element separator is that element. */
  lemma OccursSingle<T>(s: seq<T>, c: T, i: nat)
    requires OccursAt(s, [c], i)
    ensures i < |s| && s[i] == c
  {
    assert s[i] == s[i..i + 1][0];
  }

  /** The first `c` in `s` is at `i`. */
  lemma FindSingleAt<T>(s: seq<T>, c: T, i: nat)
    requires i < |s| && s[i] == c && c !in s[..i]
    ensures Find(s, [c]) == Some(i)
  {
    FindSingle(s, c);
    var j := Find(s, [c]).value;
    forall k | 0 <= k < i ensures s[k] != c {
      assert s[k] == s[..i][k];
    }
    forall k | 0 <= k < j ensures s[k] != c {
      assert s[k] == s[..j][k];
    }
  }

  /** `sep.join(parts)` */
  function Join<T>(parts: seq<seq<T>>, sep: seq<T>): seq<T>
    decreases |parts|
  {
    if |parts| == 0 then []
    else if |parts| == 1 then parts[0]
    else parts[0] + sep + Join(parts[1..], sep)
  }

  /** `piece + sep` holds its first occurrence of `sep` at its end: the
      shape of every piece of a split except the last. */
  predicate EndsAtFirst<T(==)>(piece: seq<T>, sep: seq<T>) {
    Find(piece + sep, sep) == Some(|piece|)
  }

  /** `s.split(sep)`: cut at every leftmost, non-overlapping occurrence.
      SplitJoin says the pieces join back to `s`, SplitShape where the
      cuts are. */
  function Split<T(==)>(s: seq<T>, sep: seq<T>): (parts: seq<seq<T>>)
    requires |sep| > 0
    ensures |parts| >= 1
    decreases |s|
  {
    match Find(s, sep)
    case None => [s]
    case Some(i) => [s[..i]] + Split(s[i + |sep|..], sep)
  }

  /** Joining the pieces of a split with the separator gives the text back. */
  lemma {:induction false} SplitJoin<T>(s: seq<T>, sep: seq<T>)
    requires |sep| > 0
    ensures Join(Split(s, sep), sep) == s
    decreases |s|
  {
    match Find(s, sep)
    case None =>
    case Some(i) =>
      var rest := Split(s[i + |sep|..], sep);
      SplitJoin(s[i + |sep|..], sep);
      assert s[..i] + sep + s[i + |sep|..] == s by {
        assert s[..i] + sep == s[..i + |sep|];
      }
      assert ([s[..i]] + rest)[1..] == rest;
  }

  /** Every piece but the last ends where the first separator after it
      begins, and the last piece holds no separator. */
  predicate SplitAtFirsts<T(==)>(parts: seq<seq<T>>, sep: seq<T>) {
    |parts| >= 1 &&
    (forall k :: 0 <= k < |parts| - 1 ==> EndsAtFirst(parts[k], sep)) &&
    !Contains(parts[|parts| - 1], sep)
  }

  lemma {:induction false} SplitShape<T>(s: seq<T>, sep: seq<T>)
    requires |sep| > 0
    ensures SplitAtFirsts(Split(s, sep), sep)
    decreases |s|
  {
    match Find(s, sep)
    case None =>
      SplitNone(s, sep);
    case Some(i) =>
      FindPrefixOfSource(s, sep, i);
      SplitShape(s[i + |sep|..], sep);
      SplitAtFirstsCons(s[..i], Split(s[i + |sep|..], sep), sep);
  }

  lemma SplitAtFirstsCons<T>(p: seq<T>, rest: seq<seq<T>>, sep: seq<T>)
    requires EndsAtFirst(p, sep) && SplitAtFirsts(rest, sep)
    ensures SplitAtFirsts([p] + rest, sep)
  {
    var parts := [p] + rest;
    assert forall k :: 1 <= k < |parts| ==> parts[k] == rest[k - 1];
  }

  /** Helper of Split: the text before the first occurrence, followed by
      the separator, has its first occurrence at its end. */
  lemma FindPrefixOfSource<T>(s: seq<T>, sep: seq<T>, i: nat)
    requires Find(s, sep) == Some(i)
    ensures EndsAtFirst(s[..i], sep)
  {
    var a, b := s[..i + |sep|], s[i + |sep|..];
    assert a + b == s;
    FindInPrefix(a, b, sep, i);
    assert s[..i] + sep == a;
  }

  /** An occurrence that is leftmost in `a + b` and ends inside `a` is the
      leftmost one in `a`. */
  lemma FindInPrefix<T>(a: seq<T>, b: seq<T>, sep: seq<T>, i: nat)
    requires Find(a + b, sep) == Some(i) && i + |sep| <= |a|
    ensures Find(a, sep) == Some(i)
  {
    OccursInPrefix(a, b, sep, i);
    forall j: nat | j < i ensures !OccursAt(a, sep, j) {
      OccursInPrefix(a, b, sep, j);
    }
    FindIsLeftmost(a, sep, i);
  }

  /** Split is the only decomposition with the shape its contract describes. */
  lemma {:induction false} SplitUnique<T>(s: seq<T>, sep: seq<T>, parts: seq<seq<T>>)
    requires |sep| > 0 && |parts| >= 1
    requires Join(parts, sep) == s
    requires SplitAtFirsts(parts, sep)
    ensures Split(s, sep) == parts
    decreases |parts|
  {
    if |parts| == 1 {
      SplitNone(s, sep);
    } else {
      var p := parts[0];
      var tail := Join(parts[1..], sep);
      assert SplitAtFirsts(parts[1..], sep) by {
        forall k | 0 <= k < |parts[1..]| - 1 ensures EndsAtFirst(parts[1..][k], sep) {
          assert parts[1..][k] == parts[k + 1];
        }
      }
      SplitUnique(tail, sep, parts[1..]);
      SplitAt(p, sep, tail);
      assert parts == [p] + parts[1..];
    }
  }

  /** One step of Split: the text before the first occurrence, then the
      split of what follows it. */
  lemma SplitStep<T>(s: seq<T>, sep: seq<T>)
    requires |sep| > 0 && Contains(s, sep)
    ensures var i := Find(s, sep).value;
      Split(s, sep) == [s[..i]] + Split(s[i + |sep|..], sep)
  {
  }

  /** A text holding the separator is split into at least two pieces. */
  lemma SplitContains<T>(s: seq<T>, sep: seq<T>)
    requires |sep| > 0 && Contains(s, sep)
    ensures |Split(s, sep)| >= 2
  {
    SplitStep(s, sep);
  }

  /** A text with no separator is split into itself alone. */
  lemma SplitNone<T>(s: seq<T>, sep: seq<T>)
    requires |sep| > 0 && !Contains(s, sep)
    ensures Split(s, sep) == [s]
  {
  }

  /** Splitting where `sep` first occurs right after `a`. */
  lemma SplitAt<T>(a: seq<T>, sep: seq<T>, b: seq<T>)
    requires |sep| > 0 && EndsAtFirst(a, sep)
    ensures Split(a + sep + b, sep) == [a] + Split(b, sep)
  {
    var s := a + sep + b;
    FindExtend(a + sep, b, sep);
    SplitStep(s, sep);
    assert s[..|a|] == a;
    assert s[|a| + |sep|..] == b;
  }

  /** A text that starts with `sep` ends its first piece at once. */
  lemma EndsAtFirstEmpty<T>(sep: seq<T>)
    ensures EndsAtFirst([], sep)
  {
    assert [] + sep == sep;
    assert sep[..|sep|] == sep;
  }

  /** The first piece of a split is the text before the first occurrence. */
  lemma SplitFirst<T>(s: seq<T>, sep: seq<T>)
    requires |sep| > 0
    ensures Split(s, sep)[0] == if Contains(s, sep) then s[..Find(s, sep).value] else s
  {
  }

  /** `s.endswith(suffix)` */
  predicate EndsWith<T(==)>(s: seq<T>, suffix: seq<T>) {
    |suffix| <= |s| && s[|s| - |suffix|..] == suffix
  }

  /** `s.split(sep)[-1]`: the text after the last occurrence of `sep`, or
      all of `s` when there is none; LastPieceShape says what it is. */
  function LastPiece<T(==)>(s: seq<T>, sep: seq<T>): (r: seq<T>)
    requires |sep| > 0
  {
    var parts := Split(s, sep);
    parts[|parts| - 1]
  }

  /** The last piece holds no `sep`, ends `s`, and follows a `sep` unless
      it is all of `s`. */
  lemma LastPieceShape<T>(s: seq<T>, sep: seq<T>)
    requires |sep| > 0
    ensures var r := LastPiece(s, sep);
      !Contains(r, sep) && EndsWith(s, r) && (|r| < |s| ==> EndsWith(s[..|s| - |r|], sep))
  {
    SplitJoin(s, sep);
    SplitShape(s, sep);
    JoinEndsWithLast(Split(s, sep), sep);
  }

  /** The last of the joined pieces ends the text, and what comes before
      it, if anything, ends with a separator. */
  lemma {:induction false} JoinEndsWithLast<T>(parts: seq<seq<T>>, sep: seq<T>)
    requires |parts| >= 1
    ensures var s, r := Join(parts, sep), parts[|parts| - 1];
      EndsWith(s, r) && (|r| < |s| ==> EndsWith(s[..|s| - |r|], sep))
    decreases |parts|
  {
    var s, r := Join(parts, sep), parts[|parts| - 1];
    if |parts| == 1 {
      assert s[|s| - |s|..] == s;
    } else {
      var t := Join(parts[1..], sep);
      JoinEndsWithLast(parts[1..], sep);
      assert parts[1..][|parts[1..]| - 1] == r;
      var head := parts[0] + sep;
      assert s == head + t;
      assert head[|head| - |sep|..] == sep;
      EndsAfterHead(head, t, r, sep);
    }
  }

  /** A tail that ends `t` after a separator still does so once a text
      ending in a separator is put in front of `t`. */
  lemma EndsAfterHead<T>(head: seq<T>, t: seq<T>, r: seq<T>, sep: seq<T>)
    requires EndsWith(head, sep) && EndsWith(t, r)
    requires |r| < |t| ==> EndsWith(t[..|t| - |r|], sep)
    ensures var s := head + t;
      EndsWith(s, r) && (|r| < |s| ==> EndsWith(s[..|s| - |r|], sep))
  {
    var s := head + t;
    assert s[|s| - |r|..] == t[|t| - |r|..];
    var front := s[..|s| - |r|];
    assert front == head + t[..|t| - |r|];
    if |r| < |t| {
      var f := t[..|t| - |r|];
      assert front[|front| - |sep|..] == f[|f| - |sep|..];
    } else {
      assert front == head;
    }
  }

  /** Number of elements of `s` equal to `c`. */
  function Count<T(==)>(s: seq<T>, c: T): nat
    decreases |s|
  {
    if s == [] then 0 else (if s[0] == c then 1 else 0) + Count(s[1..], c)
  }

  lemma {:induction false} CountAppend<T>(a: seq<T>, b: seq<T>, c: T)
    ensures Count(a + b, c) == Count(a, c) + Count(b, c)
    decreases |a|
  {
    if a == [] {
      assert a + b == b;
    } else {
      assert (a + b)[1..] == a[1..] + b;
      CountAppend(a[1..], b, c);
    }
  }

  lemma {:induction false} CountAbsent<T>(s: seq<T>, c: T)
    requires c !in s
    ensures Count(s, c) == 0
    decreases |s|
  {
    if s != [] {
      CountAbsent(s[1..], c);
    }
  }

  /** Splitting on one element yields one more piece than it has occurrences. */
  lemma {:induction false} SplitSingleCount<T>(s: seq<T>, c: T)
    ensures |Split(s, [c])| == Count(s, c) + 1
    decreases |s|
  {
    FindSingle(s, c);
    match Find(s, [c])
    case None =>
      CountAbsent(s, c);
    case Some(i) =>
      assert s == s[..i] + [c] + s[i + 1..];
      CountAppend(s[..i] + [c], s[i + 1..], c);
      CountAppend(s[..i], [c], c);
      CountAbsent(s[..i], c);
      SplitSingleCount(s[i + 1..], c);
  }

  /** `s.rstrip(chars)`: drop every trailing element in `chars`. */
  function RStrip<T(==)>(s: seq<T>, chars: set<T>): (r: seq<T>)
    ensures |r| <= |s| && forall k :: 0 <= k < |r| ==> r[k] == s[k]
    ensures forall k :: |r| <= k < |s| ==> s[k] in chars
    ensures |r| > 0 ==> r[|r| - 1] !in chars
    decreases |s|
  {
    if |s| > 0 && s[|s| - 1] in chars then RStrip(s[..|s| - 1], chars) else s
  }

  lemma RStripPrefix<T>(s: seq<T>, chars: set<T>)
    ensures StartsWith(s, RStrip(s, chars))
  {
    var r := RStrip(s, chars);
    assert s[..|r|] == r;
  }

  /** The number of leading elements of `s` in `chars`. */
  function LeadLength<T(==)>(s: seq<T>, chars: set<T>): (n: nat)
    ensures n <= |s| && forall k :: 0 <= k < n ==> s[k] in chars
    ensures n < |s| ==> s[n] !in chars
    decreases |s|
  {
    if |s| > 0 && s[0] in chars then
      var n := LeadLength(s[1..], chars);
      assert forall k :: 1 <= k < |s| ==> s[1..][k - 1] == s[k];
      n + 1
    else 0
  }

  /** `s.lstrip(chars)`: drop every leading element in `chars`. */
  function LStrip<T(==)>(s: seq<T>, chars: set<T>): (r: seq<T>)
    ensures |r| <= |s| && forall k :: 0 <= k < |r| ==> r[k] == s[|s| - |r| + k]
    ensures forall k :: 0 <= k < |s| - |r| ==> s[k] in chars
    ensures |r| > 0 ==> r[0] !in chars
  {
    s[LeadLength(s, chars)..]
  }

  /** `r` is `s` with `i` leading and some trailing elements of `chars` removed. */
  predicate TrimmedAt<T(==)>(s: seq<T>, r: seq<T>, chars: set<T>, i: nat) {
    i + |r| <= |s| && (forall k :: 0 <= k < |r| ==> r[k] == s[i + k]) &&
    (forall k :: 0 <= k < i ==> s[k] in chars) &&
    (forall k :: i + |r| <= k < |s| ==> s[k] in chars)
  }

  /** `s.strip(chars)`: both ends. */
  function Strip<T(==)>(s: seq<T>, chars: set<T>): (r: seq<T>)
    ensures |r| > 0 ==> r[0] !in chars && r[|r| - 1] !in chars
  {
    var right := RStrip(s, chars);
    var r := LStrip(right, chars);
    assert |r| > 0 ==> r[|r| - 1] == right[|right| - 1];
    r
  }

  /** Strip removes a run of `chars` at each end and nothing else; it
      leaves nothing exactly when every element is in `chars`. */
  lemma StripShape<T>(s: seq<T>, chars: set<T>)
    ensures var r := Strip(s, chars);
      |r| <= |RStrip(s, chars)| && TrimmedAt(s, r, chars, |RStrip(s, chars)| - |r|)
    ensures Strip(s, chars) == [] <==> forall k :: 0 <= k < |s| ==> s[k] in chars
  {
    var right := RStrip(s, chars);
    var r := LStrip(right, chars);
    assert r == Strip(s, chars);
    TrimmedOfBoth(s, right, r, chars);
    assert r != [] ==> r[0] == s[|right| - |r|];
  }

  lemma TrimmedOfBoth<T>(s: seq<T>, right: seq<T>, r: seq<T>, chars: set<T>)
    requires |right| <= |s| && forall k :: 0 <= k < |right| ==> right[k] == s[k]
    requires forall k :: |right| <= k < |s| ==> s[k] in chars
    requires |r| <= |right| && forall k :: 0 <= k < |r| ==> r[k] == right[|right| - |r| + k]
    requires forall k :: 0 <= k < |right| - |r| ==> right[k] in chars
    ensures TrimmedAt(s, r, chars, |right| - |r|)
  {
  }

  /** Once the trailing elements are known, RStrip is determined. */
  lemma RStripKeeps<T>(s: seq<T>, tail: seq<T>, chars: set<T>)
    requires |s| > 0 && s[|s| - 1] !in chars
    requires forall k :: 0 <= k < |tail| ==> tail[k] in chars
    ensures RStrip(s + tail, chars) == s
  {
    var t := s + tail;
    var r := RStrip(t, chars);
    assert t[|s| - 1] !in chars;
    assert |r| >= |s|;
    forall k | |s| <= k < |t| ensures t[k] in chars {
      assert t[k] == tail[k - |s|];
    }
    assert |r| <= |s|;
    assert r == t[..|s|];
  }

  /** A text made only of stripped elements strips to nothing. */
  lemma RStripAll<T>(s: seq<T>, chars: set<T>)
    requires forall k :: 0 <= k < |s| ==> s[k] in chars
    ensures RStrip(s, chars) == []
  {
  }

  lemma EndsWithSingle<T>(s: seq<T>, c: T)
    ensures EndsWith(s, [c]) <==> |s| > 0 && s[|s| - 1] == c
  {
    if |s| > 0 {
      assert s[|s| - 1..] == [s[|s| - 1]];
    }
  }

  /** The text after the last `c` of `a + [c] + b`, when `b` holds no `c`,
      is `b`. */
  lemma LastPieceAfter<T>(a: seq<T>, c: T, b: seq<T>)
    requires c !in b
    ensures LastPiece(a + [c] + b, [c]) == b
  {
    var s := a + [c] + b;
    var r := LastPiece(s, [c]);
    var n := |s| - |r|;
    LastPieceShape(s, [c]);
    FindSingle(r, c);
    assert r == s[n..];
    AbsentFrom(s, n, c);
    assert s[|a|] == c;
    assert s[|a| + 1..] == b;
    AbsentFrom(s, |a| + 1, c);
    EndsWithSingle(s[..n], c);
    assert s[n - 1] == s[..n][n - 1];
  }

  /** No `x` in `s[n..]` means no `x` at any index from `n` on. */
  lemma AbsentFrom<T>(s: seq<T>, n: nat, x: T)
    requires n <= |s| && x !in s[n..]
    ensures forall k :: n <= k < |s| ==> s[k] != x
  {
    forall k | n <= k < |s| ensures s[k] != x {
      assert s[k] == s[n..][k - n];
    }
  }
}
