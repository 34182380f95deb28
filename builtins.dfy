/** The few Python built-ins the summarizer's data shaping relies on:
    slicing with clamped bounds, `range` with a positive step,
    `sep.join(parts)`, `s.split(c)` (used only as the inverse of a join)
    and the truthiness test behind `x or y` / `x if x else y`.
    A Python `str` is a sequence of code points and is modelled as `string`. */
module Builtins {

  datatype Option<T> = None | Some(value: T)

  function Min(a: int, b: int): int { if a <= b then a else b }

  /** Python truthiness of a value that is either `None` or a string:
      only `None` and the empty string are false. */
  predicate Truthy(o: Option<string>): (b: bool)
    ensures b <==> o != None && o != Some("")
  {
    o.Some? && o.value != ""
  }

  /** `o or fallback` (and `o if o else fallback`): the value itself when it
      is truthy, the fallback otherwise. */
  function OrElse(o: Option<string>, fallback: string): (r: string)
    ensures Truthy(o) ==> o == Some(r) && r != ""
    ensures !Truthy(o) ==> r == fallback
  {
    if Truthy(o) then o.value else fallback
  }

  /** `s[i:j]` for non-negative bounds: both bounds are clamped to `len(s)`,
      and the slice is empty when `j <= i`. */
  function Slice<T>(s: seq<T>, i: nat, j: nat): (r: seq<T>)
    ensures |r| == if i < j && i < |s| then Min(j, |s|) - i else 0
    ensures forall k :: 0 <= k < |r| ==> r[k] == s[i + k]
  {
    if i < j && i < |s| then s[i..Min(j, |s|)] else []
  }

  /** `range(start, stop, step)` for a positive step. */
  function Range(start: int, stop: int, step: nat): (r: seq<int>)
    requires step > 0
    ensures |r| > 0 <==> start < stop
    ensures |r| > 0 ==> r[0] == start && stop <= r[|r| - 1] + step
    ensures forall k :: 0 <= k < |r| ==> start <= r[k] < stop
    ensures forall k :: 0 < k < |r| ==> r[k] == r[k - 1] + step
    decreases stop - start
  {
    if start >= stop then [] else [start] + Range(start + step, stop, step)
  }

  /** The k-th element of a range from 0 is k steps away from 0. */
  lemma {:induction false} RangeAt(stop: int, step: nat, k: nat)
    requires step > 0 && k < |Range(0, stop, step)|
    ensures Range(0, stop, step)[k] == k * step
  {
    var r := Range(0, stop, step);
    if k > 0 {
      RangeAt(stop, step, k - 1);
      assert r[k] == r[k - 1] + step;
      StepProduct(k, step);
    }
  }

  lemma StepProduct(k: nat, step: nat)
    requires k > 0
    ensures (k - 1) * step + step == k * step
  {
  }

  /** `sep.join(parts)`: no parts give the empty string, and otherwise the
      parts with `sep` between each two of them, so the result is at least as
      long as the parts together (`JoinContainsParts`, `JoinStartsWith` and
      `JoinEndsWith` say what it holds). */
  function Join(parts: seq<string>, sep: string): (r: string)
    ensures parts == [] ==> r == ""
    ensures |r| >= TotalLength(parts)
  {
    if |parts| == 0 then ""
    else if |parts| == 1 then parts[0]
    else Join(parts[..|parts| - 1], sep) + sep + parts[|parts| - 1]
  }

  /** Joining two non-empty lists puts exactly one separator between their joins. */
  lemma {:induction false} JoinAppend(a: seq<string>, b: seq<string>, sep: string)
    requires |a| > 0 && |b| > 0
    ensures Join(a + b, sep) == Join(a, sep) + sep + Join(b, sep)
    decreases |b|
  {
    var ab := a + b;
    if |b| == 1 {
      assert ab[..|ab| - 1] == a;
    } else {
      var front := b[..|b| - 1];
      assert ab[..|ab| - 1] == a + front;
      JoinAppend(a, front, sep);
    }
  }

  /** The join of two or more parts starts with the first part and a separator. */
  lemma JoinCons(parts: seq<string>, sep: string)
    requires |parts| >= 2
    ensures Join(parts, sep) == parts[0] + sep + Join(parts[1..], sep)
  {
    assert parts == [parts[0]] + parts[1..];
    JoinAppend([parts[0]], parts[1..], sep);
  }

  /** A join of one or more parts starts with the first part. */
  lemma {:induction false} JoinStartsWith(parts: seq<string>, sep: string)
    requires parts != []
    ensures |Join(parts, sep)| >= |parts[0]| && Join(parts, sep)[..|parts[0]|] == parts[0]
  {
    if |parts| > 1 {
      JoinCons(parts, sep);
    }
  }

  /** A join of one or more parts ends with the last part. */
  lemma JoinEndsWith(parts: seq<string>, sep: string)
    requires parts != []
    ensures var r, last := Join(parts, sep), parts[|parts| - 1];
      |r| >= |last| && r[|r| - |last|..] == last
  {
  }

  /** Every character of every part occurs in the join, at least as often as in that part. */
  lemma {:induction false} JoinContainsParts(parts: seq<string>, sep: string)
    ensures forall i :: 0 <= i < |parts| ==> multiset(parts[i]) <= multiset(Join(parts, sep))
  {
    if |parts| > 1 {
      var front, last := parts[..|parts| - 1], parts[|parts| - 1];
      JoinContainsParts(front, sep);
      var m := multiset(Join(parts, sep));
      assert m == multiset(Join(front, sep)) + multiset(sep) + multiset(last);
      forall i | 0 <= i < |parts|
        ensures multiset(parts[i]) <= m
      {
        if i < |parts| - 1 {
          assert parts[i] == front[i];
        }
      }
    }
  }

  /** Total length of the parts. */
  function TotalLength(parts: seq<string>): nat
  {
    if parts == [] then 0 else TotalLength(parts[..|parts| - 1]) + |parts[|parts| - 1]|
  }

  /** Number of occurrences of `c` over all the parts. */
  function CountAll(parts: seq<string>, c: char): nat
  {
    if parts == [] then 0 else CountAll(parts[..|parts| - 1], c) + multiset(parts[|parts| - 1])[c]
  }

  /** Joining n >= 1 parts with a one-character separator adds exactly n - 1
      characters, all of them that separator. */
  lemma {:induction false} JoinCharSeparators(parts: seq<string>, sep: char)
    requires |parts| >= 1
    ensures |Join(parts, [sep])| == TotalLength(parts) + |parts| - 1
    ensures multiset(Join(parts, [sep]))[sep] == CountAll(parts, sep) + |parts| - 1
  {
    if |parts| > 1 {
      var front := parts[..|parts| - 1];
      JoinCharSeparators(front, sep);
      var last := parts[|parts| - 1];
      assert Join(parts, [sep]) == Join(front, [sep]) + [sep] + last;
      assert multiset(Join(parts, [sep])) == multiset(Join(front, [sep])) + multiset([sep]) + multiset(last);
    }
  }

  /** Position of the first occurrence of `c` in `s`. */
  function FirstIndex(s: string, c: char): (i: nat)
    requires c in s
    ensures i < |s| && s[i] == c
    ensures forall j :: 0 <= j < i ==> s[j] != c
  {
    if s[0] == c then 0
    else
      assert c in s[1..] by { var j :| 0 <= j < |s| && s[j] == c; assert s[1..][j - 1] == c; }
      1 + FirstIndex(s[1..], c)
  }

  /** An occurrence of `c` with none before it is the first one. */
  lemma FirstIndexOf(s: string, c: char, n: nat)
    requires n < |s| && s[n] == c
    requires forall j :: 0 <= j < n ==> s[j] != c
    ensures c in s && FirstIndex(s, c) == n
  {
    assert s[n] in s;
  }

  /** `s.split(c)` for a single-character separator: the pieces between
      occurrences of `c`, so there is always at least one piece. */
  function Split(s: string, c: char): (r: seq<string>)
    ensures |r| >= 1
    ensures forall k :: 0 <= k < |r| ==> c !in r[k]
    decreases |s|
  {
    if c !in s then [s]
    else
      var i := FirstIndex(s, c);
      assert c !in s[..i] by {
        forall j | 0 <= j < i ensures s[..i][j] != c { }
      }
      [s[..i]] + Split(s[i + 1..], c)
  }

  /** Splitting a join of separator-free parts at the separator gives the parts back. */
  lemma {:induction false} SplitJoin(parts: seq<string>, c: char)
    requires |parts| >= 1
    requires forall p :: p in parts ==> c !in p
    ensures Split(Join(parts, [c]), c) == parts
    decreases |parts|
  {
    if |parts| > 1 {
      var head, rest := parts[0], Join(parts[1..], [c]);
      JoinCons(parts, [c]);
      var s := head + [c] + rest;
      assert parts[0] in parts;
      forall j | 0 <= j < |head|
        ensures s[j] != c
      {
        assert s[j] == head[j] && head[j] in head;
      }
      FirstIndexOf(s, c, |head|);
      assert s[..|head|] == head;
      assert s[|head| + 1..] == rest;
      SplitJoin(parts[1..], c);
    }
  }
}
