/** Order-preserving list operations the Kotlin collection library provides
    (`filter`, `distinct`, `groupBy` + `flatMap`, `joinToString`, `split`),
    together with the facts the rest of the model relies on. */
module Seqs {
  import opened Wrappers

  /** `xs.filter(p)`: the elements satisfying `p`, in their original order. */
  function Filter<T(!new)>(xs: seq<T>, p: T -> bool): (r: seq<T>)
    ensures |r| <= |xs|
    ensures forall x :: x in r <==> x in xs && p(x)
    decreases |xs|
  {
    if |xs| == 0 then [] else (if p(xs[0]) then [xs[0]] else []) + Filter(xs[1..], p)
  }

  /** Filtering distributes over concatenation. */
  lemma {:induction false} FilterConcat<T(!new)>(a: seq<T>, b: seq<T>, p: T -> bool)
    ensures Filter(a + b, p) == Filter(a, p) + Filter(b, p)
    decreases |a|
  {
    if |a| == 0 {
      assert a + b == b;
    } else {
      assert (a + b)[1..] == a[1..] + b;
      FilterConcat(a[1..], b, p);
    }
  }

  /** Filtering twice with the same predicate is filtering once. */
  lemma {:induction false} FilterIdempotent<T(!new)>(xs: seq<T>, p: T -> bool)
    ensures Filter(Filter(xs, p), p) == Filter(xs, p)
    decreases |xs|
  {
    if |xs| > 0 {
      var head := if p(xs[0]) then [xs[0]] else [];
      FilterConcat(head, Filter(xs[1..], p), p);
      FilterIdempotent(xs[1..], p);
      if p(xs[0]) {
        assert Filter(head, p) == head by {
          assert head[1..] == [];
        }
      }
    }
  }

  /** Number of elements satisfying `p` (`xs.count(p)`). */
  function Count<T(!new)>(xs: seq<T>, p: T -> bool): (n: nat)
    ensures n <= |xs|
    decreases |xs|
  {
    if |xs| == 0 then 0 else (if p(xs[0]) then 1 else 0) + Count(xs[1..], p)
  }

  /** The count is the length of the filtered list. */
  lemma {:induction false} CountIsFilterLength<T(!new)>(xs: seq<T>, p: T -> bool)
    ensures Count(xs, p) == |Filter(xs, p)|
    decreases |xs|
  {
    if |xs| > 0 {
      CountIsFilterLength(xs[1..], p);
    }
  }

  /** Counting over an appended element adds one exactly when it qualifies. */
  lemma {:induction false} CountSnoc<T(!new)>(xs: seq<T>, x: T, p: T -> bool)
    ensures Count(xs + [x], p) == Count(xs, p) + (if p(x) then 1 else 0)
    decreases |xs|
  {
    if |xs| == 0 {
      assert xs + [x] == [x];
      assert [x][1..] == [];
    } else {
      assert (xs + [x])[1..] == xs[1..] + [x];
      CountSnoc(xs[1..], x, p);
    }
  }

  /** Counting over a non-empty list splits off its last element. */
  lemma {:induction false} CountLast<T(!new)>(xs: seq<T>, p: T -> bool)
    requires |xs| > 0
    ensures Count(xs, p) == Count(xs[..|xs| - 1], p) + (if p(xs[|xs| - 1]) then 1 else 0)
  {
    var n := |xs| - 1;
    assert xs[..n] + [xs[n]] == xs;
    CountSnoc(xs[..n], xs[n], p);
  }

  /** No element occurs twice. */
  predicate NoDuplicates<T(==)>(xs: seq<T>) {
    forall i, j :: 0 <= i < j < |xs| ==> xs[i] != xs[j]
  }

  /** `xs.distinct()`: first occurrences only, in order of first appearance
      (also the key order of a `LinkedHashMap` built from `xs`). */
  function Distinct<T(==,!new)>(xs: seq<T>): (r: seq<T>)
    ensures forall x :: x in r <==> x in xs
    ensures NoDuplicates(r)
    ensures |r| <= |xs|
    decreases |xs|
  {
    if |xs| == 0 then []
    else
      var d := Distinct(xs[..|xs| - 1]);
      var last := xs[|xs| - 1];
      assert forall x :: x in xs <==> x in xs[..|xs| - 1] || x == last by {
        assert xs == xs[..|xs| - 1] + [last];
      }
      if last in d then d else d + [last]
  }

  /** `xs.firstOrNull(p)`: the first element satisfying `p`, if any. */
  function First<T(==,!new)>(xs: seq<T>, p: T -> bool): (r: Option<T>)
    ensures r.None? <==> forall i :: 0 <= i < |xs| ==> !p(xs[i])
    ensures r.Some? ==> exists i :: 0 <= i < |xs| && xs[i] == r.value && p(r.value)
                                    && forall j :: 0 <= j < i ==> !p(xs[j])
    decreases |xs|
  {
    if |xs| == 0 then None
    else if p(xs[0]) then Some(xs[0])
    else
      var r := First(xs[1..], p);
      assert forall i :: 1 <= i < |xs| ==> xs[i] == xs[1..][i - 1];
      if r.Some? then
        var k :| 0 <= k < |xs[1..]| && xs[1..][k] == r.value && p(r.value) && forall j :: 0 <= j < k ==> !p(xs[1..][j]);
        assert xs[k + 1] == r.value;
        r
      else r
  }

  /** The least value of a non-empty list. */
  function SeqMin(xs: seq<int>): (m: int)
    requires |xs| > 0
    ensures m in xs
    ensures forall i :: 0 <= i < |xs| ==> m <= xs[i]
    decreases |xs|
  {
    if |xs| == 1 then xs[0]
    else
      var rest := SeqMin(xs[1..]);
      assert forall i :: 1 <= i < |xs| ==> xs[i] == xs[1..][i - 1];
      if xs[0] <= rest then xs[0] else rest
  }

  /** `xs.groupBy(key).listOfSmallest()` for integer keys: the group whose key
      is least, in original order, or `None` when there is nothing to group. */
  function ListOfSmallest<T(!new)>(xs: seq<T>, key: T -> int): (r: Option<seq<T>>)
    ensures r.None? <==> |xs| == 0
    ensures r.Some? ==> |r.value| > 0
    ensures r.Some? ==> forall x :: x in r.value <==> x in xs && forall y :: y in xs ==> key(x) <= key(y)
  {
    if |xs| == 0 then None
    else
      var keys := seq(|xs|, i requires 0 <= i < |xs| => key(xs[i]));
      var m := SeqMin(keys);
      var i :| 0 <= i < |keys| && keys[i] == m;
      assert xs[i] in Filter(xs, x => key(x) == m);
      assert forall y :: y in xs ==> m <= key(y) by {
        forall y | y in xs ensures m <= key(y) {
          var j :| 0 <= j < |xs| && xs[j] == y;
          assert keys[j] == key(y);
        }
      }
      Some(Filter(xs, x => key(x) == m))
  }

  /** Concatenation of the groups of `xs` for the keys `ks`, in key order. */
  function GroupConcat<T(!new), K(==,!new)>(xs: seq<T>, key: T -> K, ks: seq<K>): (r: seq<T>)
    ensures forall x :: x in r <==> x in xs && key(x) in ks
    decreases |ks|
  {
    if |ks| == 0 then []
    else
      var k := ks[0];
      assert forall k' :: k' in ks <==> k' == k || k' in ks[1..] by {
        assert ks == [k] + ks[1..];
      }
      Filter(xs, x => key(x) == k) + GroupConcat(xs, key, ks[1..])
  }

  /** `xs.groupBy(key).flatMap { it.value }`: the groups of `xs` laid out one
      after the other, groups in the order their key first appears. */
  function GroupedOrder<T(!new), K(==,!new)>(xs: seq<T>, key: T -> K): (r: seq<T>)
    ensures forall x :: x in r <==> x in xs
  {
    var ks := Distinct(seq(|xs|, i requires 0 <= i < |xs| => key(xs[i])));
    assert forall x :: x in xs ==> key(x) in ks by {
      forall x | x in xs ensures key(x) in ks {
        var i :| 0 <= i < |xs| && xs[i] == x;
        assert seq(|xs|, i requires 0 <= i < |xs| => key(xs[i]))[i] == key(x);
      }
    }
    GroupConcat(xs, key, ks)
  }

  /** `fields.joinToString(separator = [sep])`. */
  function Join(fields: seq<string>, sep: char): string
    decreases |fields|
  {
    if |fields| == 0 then ""
    else if |fields| == 1 then fields[0]
    else fields[0] + [sep] + Join(fields[1..], sep)
  }

  /** Position of the first `c` in `s`. */
  function IndexOf(s: string, c: char): (i: nat)
    requires c in s
    ensures i < |s| && s[i] == c && c !in s[..i]
  {
    if s[0] == c then 0
    else
      assert c in s[1..] by {
        var k :| 0 <= k < |s| && s[k] == c;
        assert s[1..][k - 1] == c;
      }
      var j := IndexOf(s[1..], c);
      assert s[..j + 1] == [s[0]] + s[1..][..j];
      j + 1
  }

  /** Kotlin's `s.split(sep)`: every piece between separators, empty pieces
      (including trailing ones) kept. */
  function Split(s: string, sep: char): (r: seq<string>)
    ensures |r| > 0
    decreases |s|
  {
    if sep !in s then [s]
    else
      var i := IndexOf(s, sep);
      [s[..i]] + Split(s[i + 1..], sep)
  }

  /** No field contains the separator. */
  predicate SeparatorFree(fields: seq<string>, sep: char) {
    forall i :: 0 <= i < |fields| ==> sep !in fields[i]
  }

  /** Splitting a joined list gives the list back when no field contains
      the separator. */
  lemma {:induction false} SplitJoin(fields: seq<string>, sep: char)
    requires |fields| > 0
    requires SeparatorFree(fields, sep)
    ensures Split(Join(fields, sep), sep) == fields
    decreases |fields|
  {
    if |fields| == 1 {
      assert sep !in fields[0];
    } else {
      var f := fields[0];
      var rest := Join(fields[1..], sep);
      var s := f + [sep] + rest;
      assert sep !in f;
      assert s[|f|] == sep;
      assert sep in s;
      assert forall k :: 0 <= k < |f| ==> s[k] == f[k];
      var i := IndexOf(s, sep);
      assert i <= |f| by {
        assert s[..|f| + 1][|f|] == sep;
      }
      assert i == |f|;
      assert s[..i] == f;
      assert s[i + 1..] == rest;
      SplitJoin(fields[1..], sep);
    }
  }
}
