/** Small value types and the Python string and list idioms the rest of the model
    relies on: `str.split`, `str.upper`, substring search, string ordering and
    order-preserving list comprehensions. */
module Common {

  datatype Option<+T> = None | Some(value: T)

  datatype Result<+R, +E> = Success(value: R) | Failure(error: E)

  // ---------------------------------------------------------------------------
  // Order-preserving filtering (a Python list comprehension with an `if`)
  // ---------------------------------------------------------------------------

  /** The elements of `s` that satisfy `keep`, in their original order. Defined
      from the back so that a loop appending to a list matches it step by step. */
  function Filter<T>(s: seq<T>, keep: T -> bool): (r: seq<T>)
    ensures |r| <= |s|
    ensures forall x :: x in r ==> x in s && keep(x)
  {
    if s == [] then []
    else Filter(s[..|s| - 1], keep) + (if keep(s[|s| - 1]) then [s[|s| - 1]] else [])
  }

  /** `a` can be obtained from `b` by deleting elements. */
  ghost predicate Subsequence<T>(a: seq<T>, b: seq<T>)
    decreases |b|
  {
    if a == [] then true
    else if b == [] then false
    else if a[|a| - 1] == b[|b| - 1] then Subsequence(a[..|a| - 1], b[..|b| - 1])
    else Subsequence(a, b[..|b| - 1])
  }

  lemma {:induction false} SubsequenceOfSelf<T>(s: seq<T>)
    ensures Subsequence(s, s)
  {
    if s != [] {
      SubsequenceOfSelf(s[..|s| - 1]);
    }
  }

  /** A subsequence of a prefix is a subsequence of the whole. */
  lemma {:induction false} SubsequenceExtend<T>(a: seq<T>, b: seq<T>)
    requires b != [] && Subsequence(a, b[..|b| - 1])
    ensures Subsequence(a, b)
    decreases |b|, 0
  {
    if a != [] && a[|a| - 1] == b[|b| - 1] {
      SubsequenceDropLast(a, b[..|b| - 1]);
    }
  }

  /** Dropping the last element keeps a subsequence. */
  lemma {:induction false} SubsequenceDropLast<T>(a: seq<T>, b: seq<T>)
    requires a != [] && Subsequence(a, b)
    ensures Subsequence(a[..|a| - 1], b)
    decreases |b|, 1
  {
    var a', b' := a[..|a| - 1], b[..|b| - 1];
    if a[|a| - 1] == b[|b| - 1] {
      SubsequenceExtend(a', b);
    } else {
      SubsequenceDropLast(a, b');
      SubsequenceExtend(a', b);
    }
  }

  lemma {:induction false} SubsequenceTrans<T>(a: seq<T>, b: seq<T>, c: seq<T>)
    requires Subsequence(a, b) && Subsequence(b, c)
    ensures Subsequence(a, c)
    decreases |c|
  {
    if a != [] {
      var a', b', c' := a[..|a| - 1], b[..|b| - 1], c[..|c| - 1];
      if b[|b| - 1] == c[|c| - 1] {
        if a[|a| - 1] == b[|b| - 1] {
          SubsequenceTrans(a', b', c');
        } else {
          SubsequenceTrans(a, b', c');
          SubsequenceExtend(a, c);
        }
      } else {
        SubsequenceTrans(a, b, c');
        SubsequenceExtend(a, c);
      }
    }
  }

  /** Filtering keeps the survivors in their original order. */
  lemma {:induction false} FilterSubsequence<T>(s: seq<T>, keep: T -> bool)
    ensures Subsequence(Filter(s, keep), s)
  {
    if s != [] {
      var init, last := s[..|s| - 1], s[|s| - 1];
      FilterSubsequence(init, keep);
      var f := Filter(init, keep);
      if keep(last) {
        var r := f + [last];
        assert r[..|r| - 1] == f;
      } else {
        assert Filter(s, keep) == f;
        if f != [] {
          assert keep(f[|f| - 1]);
          assert f[|f| - 1] != s[|s| - 1];
        }
      }
    }
  }

  /** Filtering keeps every copy of a kept value and drops every copy of a
      rejected one. */
  lemma {:induction false} FilterCount<T>(s: seq<T>, keep: T -> bool)
    ensures forall x :: multiset(Filter(s, keep))[x] == if keep(x) then multiset(s)[x] else 0
  {
    if s != [] {
      var init, last := s[..|s| - 1], s[|s| - 1];
      assert s == init + [last];
      FilterCount(init, keep);
      assert multiset(s) == multiset(init) + multiset{last};
    }
  }

  /** A value survives filtering exactly when it occurs and is kept. */
  lemma FilterMembership<T>(s: seq<T>, keep: T -> bool)
    ensures forall x :: x in Filter(s, keep) <==> x in s && keep(x)
  {
    FilterCount(s, keep);
    assert forall x :: x in Filter(s, keep) <==> multiset(Filter(s, keep))[x] > 0;
  }

  /** Filtering with no element rejected returns the list unchanged. */
  lemma {:induction false} FilterAll<T>(s: seq<T>, keep: T -> bool)
    requires forall x :: x in s ==> keep(x)
    ensures Filter(s, keep) == s
  {
    if s != [] {
      assert s == s[..|s| - 1] + [s[|s| - 1]];
      FilterAll(s[..|s| - 1], keep);
    }
  }

  /** The step a forward loop takes: one more element filtered at the end. */
  lemma FilterSnoc<T>(s: seq<T>, i: nat, keep: T -> bool)
    requires i < |s|
    ensures Filter(s[..i + 1], keep) == Filter(s[..i], keep) + (if keep(s[i]) then [s[i]] else [])
  {
    assert s[..i + 1][..i] == s[..i];
  }

  /** `[x for x in s if x not in excluded]` */
  function Without<T(==)>(s: seq<T>, excluded: seq<T>): (r: seq<T>)
    ensures forall x :: x in r ==> x in s && x !in excluded
    ensures forall x :: x in s ==> (x in r <==> x !in excluded)
  {
    FilterMembership(s, x => x !in excluded);
    Filter(s, x => x !in excluded)
  }

  /** `[x for x in s if x in pool]` */
  function KeepIn<T(==)>(s: seq<T>, pool: seq<T>): (r: seq<T>)
    ensures forall x :: x in r ==> x in s && x in pool
    ensures forall x :: x in s ==> (x in r <==> x in pool)
  {
    FilterMembership(s, x => x in pool);
    Filter(s, x => x in pool)
  }

  // ---------------------------------------------------------------------------
  // Strings
  // ---------------------------------------------------------------------------

  /** Python's `s.split(sep)` for a one-character separator: the text between
      consecutive separators, never trimmed, always at least one piece. */
  function Split(s: string, sep: char): (parts: seq<string>)
    ensures |parts| >= 1
    ensures forall i :: 0 <= i < |parts| ==> sep !in parts[i]
  {
    if s == [] then [""]
    else if s[0] == sep then [""] + Split(s[1..], sep)
    else
      var rest := Split(s[1..], sep);
      [[s[0]] + rest[0]] + rest[1..]
  }

  /** Python's `sep.join(parts)`. */
  function Join(parts: seq<string>, sep: char): string
  {
    if parts == [] then ""
    else if |parts| == 1 then parts[0]
    else parts[0] + [sep] + Join(parts[1..], sep)
  }

  /** Joining the pieces of a split gives back the original text. */
  lemma {:induction false} JoinSplit(s: string, sep: char)
    ensures Join(Split(s, sep), sep) == s
  {
    if s != [] {
      JoinSplit(s[1..], sep);
      var rest := Split(s[1..], sep);
      if s[0] == sep {
        assert s == [sep] + s[1..];
      } else {
        var parts := Split(s, sep);
        assert parts[1..] == rest[1..];
        if |rest| == 1 {
          assert s == [s[0]] + rest[0];
        } else {
          assert Join(rest, sep) == rest[0] + [sep] + Join(rest[1..], sep);
          assert s == [s[0]] + (rest[0] + [sep] + Join(rest[1..], sep));
        }
      }
    }
  }

  /** One step of `Split`: the first character either closes an empty part or
      joins the first part of the rest. */
  lemma SplitCons(c: char, t: string, sep: char)
    ensures Split([c] + t, sep) ==
            if c == sep then [""] + Split(t, sep)
            else [[c] + Split(t, sep)[0]] + Split(t, sep)[1..]
  {
    assert ([c] + t)[0] == c && ([c] + t)[1..] == t;
  }

  /** Splitting text that has a separator at a given point splits both sides. */
  lemma {:induction false} SplitAround(a: string, sep: char, b: string)
    ensures Split(a + [sep] + b, sep) == Split(a, sep) + Split(b, sep)
  {
    if a == [] {
      assert a + [sep] + b == [sep] + b;
      SplitCons(sep, b, sep);
    } else {
      var c, t := a[0], a[1..];
      assert a == [c] + t;
      assert a + [sep] + b == [c] + (t + [sep] + b);
      SplitAround(t, sep, b);
      SplitCons(c, t + [sep] + b, sep);
      SplitCons(c, t, sep);
      if c != sep {
        FirstPartJoin([c], Split(t, sep), Split(b, sep));
      }
    }
  }

  /** Prefixing the first part of a concatenation of part lists. */
  lemma FirstPartJoin(x: string, p: seq<string>, q: seq<string>)
    requires |p| >= 1
    ensures [x + (p + q)[0]] + (p + q)[1..] == ([x + p[0]] + p[1..]) + q
  {
    assert (p + q)[0] == p[0];
    assert (p + q)[1..] == p[1..] + q;
  }

  /** The first piece is the text up to the first separator, or all of it. */
  lemma {:induction false} SplitHead(s: string, sep: char)
    ensures var p := Split(s, sep)[0];
            |p| <= |s| && s[..|p|] == p && (|p| < |s| ==> s[|p|] == sep)
  {
    if s != [] && s[0] != sep {
      SplitHead(s[1..], sep);
      var rest := Split(s[1..], sep);
      assert Split(s, sep)[0] == [s[0]] + rest[0];
      assert s == [s[0]] + s[1..];
    }
  }

  /** Text without the separator is a single piece. */
  lemma {:induction false} SplitNoSep(s: string, sep: char)
    requires sep !in s
    ensures Split(s, sep) == [s]
  {
    if s != [] {
      assert sep !in s[1..];
      SplitNoSep(s[1..], sep);
      assert s == [s[0]] + s[1..];
    }
  }

  /** ASCII upper-casing of one character. */
  function UpperChar(c: char): (u: char)
    ensures 'a' <= c <= 'z' ==> u as int == c as int - 32
    ensures !('a' <= c <= 'z') ==> u == c
  {
    if 'a' <= c <= 'z' then (c as int - 32) as char else c
  }

  /** `s.upper()` over ASCII letters. */
  function Upper(s: string): (u: string)
    ensures |u| == |s|
    ensures forall i :: 0 <= i < |s| ==> u[i] == UpperChar(s[i])
  {
    seq(|s|, i requires 0 <= i < |s| => UpperChar(s[i]))
  }

  /** `s.startswith(prefix)` */
  predicate StartsWith(s: string, prefix: string)
  {
    |prefix| <= |s| && s[..|prefix|] == prefix
  }

  /** `sub` occurs in `s` starting at index `j`. */
  predicate OccursAt(s: string, sub: string, j: int)
  {
    0 <= j <= |s| - |sub| && s[j..j + |sub|] == sub
  }

  /** `s.find(sub)`: the first index at which `sub` occurs, or -1. */
  function Find(s: string, sub: string): (r: int)
    ensures r == -1 || OccursAt(s, sub, r)
    ensures r >= 0 ==> forall j :: 0 <= j < r ==> !OccursAt(s, sub, j)
    ensures r == -1 ==> forall j :: !OccursAt(s, sub, j)
  {
    if |s| < |sub| then -1
    else if s[..|sub|] == sub then 0
    else
      var k := Find(s[1..], sub);
      assert forall j {:trigger OccursAt(s, sub, j)} :: 1 <= j ==> (OccursAt(s, sub, j) <==> OccursAt(s[1..], sub, j - 1));
      if k < 0 then -1 else k + 1
  }

  /** `sub in s` for strings. */
  predicate Contains(s: string, sub: string)
  {
    Find(s, sub) >= 0
  }

  // ---------------------------------------------------------------------------
  // Python's ordering of strings (by code point, lexicographic)
  // ---------------------------------------------------------------------------

  predicate StrLeq(a: string, b: string)
  {
    a == [] || (b != [] && (a[0] < b[0] || (a[0] == b[0] && StrLeq(a[1..], b[1..]))))
  }

  lemma {:induction false} StrLeqTotal(a: string, b: string)
    ensures StrLeq(a, b) || StrLeq(b, a)
  {
    if a != [] && b != [] && a[0] == b[0] {
      StrLeqTotal(a[1..], b[1..]);
    }
  }

  lemma {:induction false} StrLeqTrans(a: string, b: string, c: string)
    requires StrLeq(a, b) && StrLeq(b, c)
    ensures StrLeq(a, c)
  {
    if a != [] && b != [] && c != [] && a[0] == b[0] == c[0] {
      StrLeqTrans(a[1..], b[1..], c[1..]);
    }
  }

  lemma {:induction false} StrLeqAntisym(a: string, b: string)
    requires StrLeq(a, b) && StrLeq(b, a)
    ensures a == b
  {
    if a != [] && b != [] {
      StrLeqAntisym(a[1..], b[1..]);
      assert a == [a[0]] + a[1..] && b == [b[0]] + b[1..];
    }
  }

  // ---------------------------------------------------------------------------
  // Mapping over a list
  // ---------------------------------------------------------------------------

  /** `[f(x) for x in s]` */
  function MapSeq<A, B>(s: seq<A>, f: A -> B): (r: seq<B>)
    ensures |r| == |s|
    ensures forall i :: 0 <= i < |s| ==> r[i] == f(s[i])
  {
    seq(|s|, i requires 0 <= i < |s| => f(s[i]))
  }

  lemma MapSeqConcat<A, B>(u: seq<A>, v: seq<A>, f: A -> B)
    ensures MapSeq(u + v, f) == MapSeq(u, f) + MapSeq(v, f)
  {
  }

  /** Mapping two permutations of each other gives permutations of each other. */
  lemma {:induction false} MapPermutation<A, B>(a: seq<A>, b: seq<A>, f: A -> B)
    requires multiset(a) == multiset(b)
    ensures multiset(MapSeq(a, f)) == multiset(MapSeq(b, f))
  {
    if a == [] {
      assert |b| == |multiset(b)| == 0;
    } else {
      var x := a[0];
      assert x in multiset(b);
      var k :| 0 <= k < |b| && b[k] == x;
      var rest := b[..k] + b[k + 1..];
      assert b == b[..k] + [x] + b[k + 1..];
      assert a == [x] + a[1..];
      assert multiset(rest) == multiset(b) - multiset{x};
      assert multiset(a[1..]) == multiset(a) - multiset{x};
      MapPermutation(a[1..], rest, f);
      MapSeqConcat(b[..k], b[k + 1..], f);
      MapSeqConcat(b[..k] + [x], b[k + 1..], f);
      MapSeqConcat(b[..k], [x], f);
      MapSeqConcat([x], a[1..], f);
    }
  }
}
