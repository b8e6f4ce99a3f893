/** Sequence and string helpers standing in for the LINQ and System.String calls of the source:
    `Where`, `Select`, `FindIndex`/`FirstOrDefault`, `String.Split` and `String.Join`. */
module Seqs {
  import opened Wrappers

  /** `Enumerable.Select`: apply `f` to every element, keeping the order. */
  function Map<A, B>(s: seq<A>, f: A -> B): (r: seq<B>)
    ensures |r| == |s|
    ensures forall i :: 0 <= i < |s| ==> r[i] == f(s[i])
  {
    seq(|s|, i requires 0 <= i < |s| => f(s[i]))
  }

  /** `Enumerable.Where`: the elements of `s` satisfying `p`, in their original order. */
  function Where<T(==)>(s: seq<T>, p: T -> bool): (r: seq<T>)
    ensures |r| <= |s|
    ensures forall i :: 0 <= i < |r| ==> r[i] in s && p(r[i])
    ensures forall i :: 0 <= i < |s| && p(s[i]) ==> s[i] in r
    ensures (forall i :: 0 <= i < |s| ==> p(s[i])) ==> r == s
    ensures r == [] <==> forall i :: 0 <= i < |s| ==> !p(s[i])
  {
    if |s| == 0 then []
    else if p(s[0]) then [s[0]] + Where(s[1..], p)
    else Where(s[1..], p)
  }

  /** Filtering a concatenation filters each part and keeps the parts in order. */
  lemma {:induction false} WhereConcat<T>(a: seq<T>, b: seq<T>, p: T -> bool)
    ensures Where(a + b, p) == Where(a, p) + Where(b, p)
  {
    if |a| == 0 {
      assert a + b == b;
    } else {
      var ab := a + b;
      assert ab[0] == a[0] && ab[1..] == a[1..] + b;
      WhereConcat(a[1..], b, p);
      var rest := Where(a[1..], p) + Where(b, p);
      if p(a[0]) {
        assert Where(ab, p) == [a[0]] + rest;
        assert [a[0]] + rest == ([a[0]] + Where(a[1..], p)) + Where(b, p);
      } else {
        assert Where(ab, p) == rest;
      }
    }
  }

  /** Filtering one element keeps it exactly when it passes. */
  lemma WhereOne<T>(x: T, p: T -> bool)
    ensures Where([x], p) == if p(x) then [x] else []
  {
  }

  /** `Array.FindIndex`: the position of the first element satisfying `p`, or `None`
      where the source gets -1. */
  function FirstIndex<T>(s: seq<T>, p: T -> bool): (r: Option<nat>)
    ensures r.Some? ==> r.value < |s| && p(s[r.value])
    ensures r.Some? ==> forall j :: 0 <= j < r.value ==> !p(s[j])
    ensures r.None? <==> forall j :: 0 <= j < |s| ==> !p(s[j])
  {
    if |s| == 0 then None
    else if p(s[0]) then Some(0)
    else match FirstIndex(s[1..], p)
      case None => None
      case Some(k) => Some(k + 1)
  }

  /** An index holding a match with no match before it is the first index. */
  lemma FirstIndexAt<T>(s: seq<T>, p: T -> bool, k: nat)
    requires k < |s| && p(s[k])
    requires forall j :: 0 <= j < k ==> !p(s[j])
    ensures FirstIndex(s, p) == Some(k)
  {
  }

  /** Two tests that agree on every element find the same first match. */
  lemma {:induction false} FirstIndexAgrees<T>(s: seq<T>, p: T -> bool, q: T -> bool)
    requires forall i :: 0 <= i < |s| ==> p(s[i]) == q(s[i])
    ensures FirstIndex(s, p) == FirstIndex(s, q)
  {
    if |s| > 0 {
      FirstIndexAgrees(s[1..], p, q);
    }
  }

  /** Two tests that agree on every element keep the same elements. */
  lemma {:induction false} WhereAgrees<T>(s: seq<T>, p: T -> bool, q: T -> bool)
    requires forall i :: 0 <= i < |s| ==> p(s[i]) == q(s[i])
    ensures Where(s, p) == Where(s, q)
  {
    if |s| > 0 {
      WhereAgrees(s[1..], p, q);
    }
  }

  /** `FirstOrDefault` over a sequence: `None` in place of the default value. */
  function First<T>(s: seq<T>): (r: Option<T>)
    ensures r.None? <==> s == []
    ensures r.Some? ==> r.value == s[0]
  {
    if |s| == 0 then None else Some(s[0])
  }

  /** The first element kept by `Where` is the element `FirstIndex` finds. */
  lemma {:induction false} WhereStartsAtFirstIndex<T>(s: seq<T>, p: T -> bool)
    ensures Where(s, p) == [] <==> FirstIndex(s, p).None?
    ensures FirstIndex(s, p).Some? ==> Where(s, p)[0] == s[FirstIndex(s, p).value]
  {
    if |s| > 0 && !p(s[0]) {
      WhereStartsAtFirstIndex(s[1..], p);
    }
  }

  /** Mapping both sides of a permutation yields a permutation. */
  lemma {:induction false} MapKeepsPermutation<A, B>(s: seq<A>, t: seq<A>, f: A -> B)
    requires multiset(s) == multiset(t)
    ensures multiset(Map(s, f)) == multiset(Map(t, f))
    decreases |s|
  {
    if |s| == 0 {
      assert t == [];
    } else {
      assert s[0] in multiset(t);
      var k :| 0 <= k < |t| && t[k] == s[0];
      var t' := t[..k] + t[k + 1..];
      RestIsPermutation(s, t, k);
      MapKeepsPermutation(s[1..], t', f);
      MapStep(s, t, k, f);
    }
  }

  lemma RestIsPermutation<A>(s: seq<A>, t: seq<A>, k: nat)
    requires multiset(s) == multiset(t) && 0 < |s| && k < |t| && t[k] == s[0]
    ensures multiset(s[1..]) == multiset(t[..k] + t[k + 1..])
  {
    MultisetWithout(t, k);
    assert s == [s[0]] + s[1..];
    MultisetCancel(multiset(s[1..]), multiset(t[..k] + t[k + 1..]), multiset{s[0]});
  }

  /** Two multisets that become equal by adding the same elements were already equal. */
  lemma MultisetCancel<A>(a: multiset<A>, b: multiset<A>, m: multiset<A>)
    requires a + m == b + m
    ensures a == b
  {
    assert forall x :: a[x] == (a + m)[x] - m[x];
  }

  lemma MapStep<A, B>(s: seq<A>, t: seq<A>, k: nat, f: A -> B)
    requires 0 < |s| && k < |t| && t[k] == s[0]
    requires multiset(Map(s[1..], f)) == multiset(Map(t[..k] + t[k + 1..], f))
    ensures multiset(Map(s, f)) == multiset(Map(t, f))
  {
    assert Map(t[..k] + t[k + 1..], f) == Map(t, f)[..k] + Map(t, f)[k + 1..];
    MultisetWithout(Map(t, f), k);
    assert Map(s, f) == [f(s[0])] + Map(s[1..], f);
  }

  /** Removing the element at `k` removes one occurrence of it from the multiset. */
  lemma MultisetWithout<A>(t: seq<A>, k: nat)
    requires k < |t|
    ensures multiset(t) == multiset(t[..k] + t[k + 1..]) + multiset{t[k]}
  {
    assert t == t[..k] + [t[k]] + t[k + 1..];
  }

  /** The total length of the pieces. */
  function TotalLength(parts: seq<string>): nat {
    if |parts| == 0 then 0 else |parts[0]| + TotalLength(parts[1..])
  }

  /** `String.Join(sep, parts)`: the pieces with one separator between each two. */
  function Join(sep: string, parts: seq<string>): string {
    if |parts| == 0 then ""
    else if |parts| == 1 then parts[0]
    else parts[0] + sep + Join(sep, parts[1..])
  }

  /** A join is as long as its pieces plus one separator between each two. */
  lemma {:induction false} JoinLength(sep: string, parts: seq<string>)
    requires |parts| > 0
    ensures |Join(sep, parts)| == TotalLength(parts) + (|parts| - 1) * |sep|
  {
    if |parts| > 1 {
      JoinLength(sep, parts[1..]);
    }
  }

  /** `String.Split(sep)` without options: every piece between separators, empty ones included;
      the empty string splits into one empty piece. */
  function Split(s: string, sep: char): (r: seq<string>)
    ensures |r| >= 1
    ensures forall i :: 0 <= i < |r| ==> sep !in r[i]
  {
    if |s| == 0 then [""]
    else
      var rest := Split(s[1..], sep);
      if s[0] == sep then [""] + rest
      else [[s[0]] + rest[0]] + rest[1..]
  }

  /** A piece that `StringSplitOptions.RemoveEmptyEntries` keeps. */
  predicate IsPiece(p: string) {
    p != ""
  }

  /** `String.Split(sep, StringSplitOptions.RemoveEmptyEntries)`: the pieces of `Split` that
      are not empty, in their order; with no empty piece, all of them. */
  function SplitNonEmpty(s: string, sep: char): (r: seq<string>)
    ensures forall i :: 0 <= i < |r| ==> r[i] != "" && sep !in r[i]
    ensures var all := Split(s, sep);
      (forall i :: 0 <= i < |all| ==> all[i] != "") ==> r == all
  {
    Where(Split(s, sep), IsPiece)
  }

  /** Text without the separator gives itself as the only piece, or no piece when empty. */
  lemma SplitNonEmptyOfPiece(p: string, sep: char)
    requires sep !in p
    ensures SplitNonEmpty(p, sep) == if p == "" then [] else [p]
  {
    SplitOfPiece(p, sep);
  }

  /** The first piece before a separator is kept exactly when it is not empty, in front of the
      pieces of the rest. */
  lemma SplitNonEmptyPeel(p: string, sep: char, rest: string)
    requires sep !in p
    ensures SplitNonEmpty(p + [sep] + rest, sep)
      == (if p == "" then [] else [p]) + SplitNonEmpty(rest, sep)
  {
    SplitPeel(p, sep, rest);
    WhereConcat([p], Split(rest, sep), IsPiece);
  }

  /** Splitting and joining back with the same separator gives the string back. */
  lemma {:induction false} JoinSplit(s: string, sep: char)
    ensures Join([sep], Split(s, sep)) == s
  {
    if |s| > 0 {
      JoinSplit(s[1..], sep);
      var rest := Split(s[1..], sep);
      if s[0] == sep {
        assert Split(s, sep) == [""] + rest;
        assert ([""] + rest)[1..] == rest;
        assert s == [sep] + s[1..];
      } else {
        if |rest| == 1 {
          assert s == [s[0]] + rest[0];
        } else {
          var r := Split(s, sep);
          assert r[0] == [s[0]] + rest[0];
          assert r[1..] == rest[1..];
          assert Join([sep], rest) == rest[0] + [sep] + Join([sep], rest[1..]);
          assert s == [s[0]] + s[1..];
        }
      }
    }
  }

  /** Text without the separator splits into itself alone. */
  lemma {:induction false} SplitOfPiece(p: string, sep: char)
    requires sep !in p
    ensures Split(p, sep) == [p]
  {
    if |p| > 0 {
      SplitOfPiece(p[1..], sep);
      assert [p[0]] + p[1..] == p;
    }
  }

  /** Splitting `p + [sep] + rest` where `p` has no separator peels `p` off the front. */
  lemma {:induction false} SplitPeel(p: string, sep: char, rest: string)
    requires sep !in p
    ensures Split(p + [sep] + rest, sep) == [p] + Split(rest, sep)
  {
    if |p| == 0 {
      assert p + [sep] + rest == [sep] + rest;
      assert ([sep] + rest)[1..] == rest;
    } else {
      var s := p + [sep] + rest;
      assert s[1..] == p[1..] + [sep] + rest;
      SplitPeel(p[1..], sep, rest);
      assert [p[0]] + p[1..] == p;
    }
  }

  /** Joining separator-free pieces and splitting again gives the pieces back. */
  lemma {:induction false} SplitJoin(parts: seq<string>, sep: char)
    requires |parts| >= 1
    requires forall i :: 0 <= i < |parts| ==> sep !in parts[i]
    ensures Split(Join([sep], parts), sep) == parts
  {
    if |parts| == 1 {
      SplitOfPiece(parts[0], sep);
    } else {
      SplitJoin(parts[1..], sep);
      SplitPeel(parts[0], sep, Join([sep], parts[1..]));
      assert [parts[0]] + parts[1..] == parts;
    }
  }
}
