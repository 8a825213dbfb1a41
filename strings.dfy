/** String helpers shared by the backend indexer and the batch converter:
    suffix tests, single-character replacement and deletion (Python's
    `str.replace` with one-character arguments), `str.rfind`, ASCII
    lower-casing and `Array.prototype.indexOf`. */
module Strings {

  /** `s.endswith(suffix)` / `s.endsWith(suffix)` */
  predicate EndsWith(s: string, suffix: string) {
    |suffix| <= |s| && s[|s| - |suffix|..] == suffix
  }

  /** No element occurs twice. */
  predicate NoDuplicates<T(==)>(s: seq<T>) {
    forall i, j :: 0 <= i < j < |s| ==> s[i] != s[j]
  }

  /** `s.replace(target, replacement)` for one-character arguments. */
  function ReplaceAll(s: string, target: char, replacement: char): string {
    if s == [] then []
    else [if s[0] == target then replacement else s[0]] + ReplaceAll(s[1..], target, replacement)
  }

  /** Replacing works position by position. */
  lemma {:induction false} ReplaceAllAt(s: string, target: char, replacement: char)
    ensures var r := ReplaceAll(s, target, replacement);
      && |r| == |s|
      && forall i :: 0 <= i < |s| ==> r[i] == (if s[i] == target then replacement else s[i])
  {
    if s != [] {
      ReplaceAllAt(s[1..], target, replacement);
    }
  }

  /** `s.replace(target, '')`. */
  function DeleteAll(s: string, target: char): string {
    if s == [] then []
    else
      var rest := DeleteAll(s[1..], target);
      if s[0] == target then rest else [s[0]] + rest
  }

  /** Deleting removes every occurrence of `target` and touches nothing else. */
  lemma {:induction false} DeleteAllMembers(s: string, target: char)
    ensures target !in DeleteAll(s, target)
    ensures forall c :: c != target ==> (c in DeleteAll(s, target) <==> c in s)
  {
    if s != [] {
      DeleteAllMembers(s[1..], target);
      assert s == [s[0]] + s[1..];
    }
  }

  lemma {:induction false} DeleteAbsent(s: string, target: char)
    requires target !in s
    ensures DeleteAll(s, target) == s
  {
    if s != [] {
      DeleteAbsent(s[1..], target);
    }
  }

  /** Replacing distributes over concatenation. */
  lemma ReplaceConcat(a: string, b: string, target: char, replacement: char)
    ensures ReplaceAll(a + b, target, replacement) == ReplaceAll(a, target, replacement) + ReplaceAll(b, target, replacement)
  {
    var r := ReplaceAll(a + b, target, replacement);
    var r' := ReplaceAll(a, target, replacement) + ReplaceAll(b, target, replacement);
    ReplaceAllAt(a + b, target, replacement);
    ReplaceAllAt(a, target, replacement);
    ReplaceAllAt(b, target, replacement);
    assert |r| == |r'|;
    forall i | 0 <= i < |r|
      ensures r[i] == r'[i]
    {
      if i < |a| {
        assert (a + b)[i] == a[i];
      } else {
        assert (a + b)[i] == b[i - |a|];
      }
    }
  }

  lemma DeleteOne(c: char, target: char)
    ensures DeleteAll([c], target) == if c == target then [] else [c]
  {
  }

  /** Dropping the head of a concatenation drops the head of its first part. */
  lemma TailOfConcat<T>(a: seq<T>, b: seq<T>)
    requires a != []
    ensures (a + b)[0] == a[0] && (a + b)[1..] == a[1..] + b
    ensures a == [a[0]] + a[1..] && a + b == [a[0]] + (a[1..] + b)
  {
  }

  /** Concatenation is associative. */
  lemma ConcatAssoc<T>(a: seq<T>, b: seq<T>, c: seq<T>)
    ensures a + (b + c) == (a + b) + c
  {
  }

  /** Deleting distributes over concatenation. */
  lemma {:induction false} DeleteConcat(a: string, b: string, target: char)
    ensures DeleteAll(a + b, target) == DeleteAll(a, target) + DeleteAll(b, target)
  {
    if a == [] {
      assert a + b == b;
    } else {
      DeleteConcat(a[1..], b, target);
      TailOfConcat(a, b);
    }
  }

  /** `s.rfind(c)`: the index of the last occurrence of `c`, or -1. */
  function RFind(s: string, c: char): int {
    if s == [] then -1
    else if s[|s| - 1] == c then |s| - 1
    else RFind(s[..|s| - 1], c)
  }

  lemma {:induction false} RFindLast(s: string, c: char)
    ensures var r := RFind(s, c);
      && -1 <= r < |s|
      && (r >= 0 ==> s[r] == c)
      && forall j :: r < j < |s| ==> s[j] != c
  {
    if s != [] && s[|s| - 1] != c {
      RFindLast(s[..|s| - 1], c);
    }
  }

  /** Lower-casing of one character, as `toLowerCase` does for ASCII letters. */
  function LowerChar(c: char): char {
    if 'A' <= c <= 'Z' then (c as int + 32) as char else c
  }

  /** `s.toLowerCase()`, character by character. */
  function Lower(s: string): (r: string)
    ensures |r| == |s|
    ensures forall i :: 0 <= i < |s| ==> r[i] == LowerChar(s[i])
  {
    if s == [] then [] else [LowerChar(s[0])] + Lower(s[1..])
  }

  /** `args.indexOf(x)`: the first position of `x`, or -1. */
  function IndexOf(args: seq<string>, x: string): (r: int)
    ensures -1 <= r < |args|
    ensures r == -1 <==> x !in args
    ensures r >= 0 ==> args[r] == x && forall j :: 0 <= j < r ==> args[j] != x
  {
    if args == [] then -1
    else if args[0] == x then 0
    else
      var k := IndexOf(args[1..], x);
      if k == -1 then -1 else k + 1
  }

  /** A sequence without repetitions has as many elements as its set. */
  lemma {:induction false} DistinctCardinality<T>(s: seq<T>)
    requires NoDuplicates(s)
    ensures |set x | x in s| == |s|
  {
    if s != [] {
      var tail := s[1..];
      DistinctCardinality(tail);
      assert (set x | x in s) == (set x | x in tail) + {s[0]};
      assert s[0] !in tail;
    }
  }

  /** Appending the same suffix is injective. */
  lemma SameSuffixCancels(a: string, b: string, suffix: string)
    requires a + suffix == b + suffix
    ensures a == b
  {
    assert |a| == |b|;
    assert a == (a + suffix)[..|a|];
    assert b == (b + suffix)[..|b|];
  }
}
