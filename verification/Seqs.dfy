/** Facts about sequences, kept apart from the rows they are used on. */
module Seqs {

  lemma ConcatAssociates<T>(a: seq<T>, b: seq<T>, c: seq<T>)
    ensures a + (b + c) == (a + b) + c
  {
  }

  /** a + b without its last element, b not being empty. */
  lemma InitOfConcat<T>(a: seq<T>, b: seq<T>)
    requires b != []
    ensures (a + b)[..|a + b| - 1] == a + b[..|b| - 1]
    ensures (a + b)[|a + b| - 1] == b[|b| - 1]
  {
  }

  lemma PrefixesOfConcat<T>(a: seq<T>, b: seq<T>)
    ensures forall j :: 0 <= j <= |a| ==> (a + b)[..j] == a[..j]
  {
  }

  /** The first i + 1 elements are the first i and the next. */
  lemma PrefixStep<T>(s: seq<T>, i: nat)
    requires i < |s|
    ensures s[..i + 1] == s[..i] + [s[i]]
    ensures s[..i + 1][..i] == s[..i]
  {
  }

  lemma SplitsAt<T>(s: seq<T>, k: nat)
    requires k <= |s|
    ensures s == s[..k] + s[k..]
  {
  }

  lemma InitAndLast<T>(s: seq<T>)
    requires s != []
    ensures s == s[..|s| - 1] + [s[|s| - 1]]
    ensures forall x :: x in s <==> x in s[..|s| - 1] || x == s[|s| - 1]
  {
  }

  lemma HeadIsMember<T>(s: seq<T>)
    ensures s == [] || s[0] in s
  {
  }

  /** An element of a concatenation is one of the first part or of the second. */
  lemma ConcatAt<T>(a: seq<T>, b: seq<T>, i: nat)
    requires i < |a + b|
    ensures if i < |a| then (a + b)[i] in a else (a + b)[i] in b
  {
    if i < |a| { assert (a + b)[i] == a[i]; } else { assert (a + b)[i] == b[i - |a|]; }
  }

  lemma TailOfConcat<T>(a: seq<T>, b: seq<T>)
    requires a != []
    ensures a + b != [] && (a + b)[0] == a[0] && (a + b)[1..] == a[1..] + b
  {
  }

  /** An updated sequence differs from the original in the middle of three parts. */
  lemma UpdateSplits<T>(s: seq<T>, i: nat, x: T)
    requires i < |s|
    ensures s == s[..i] + ([s[i]] + s[i + 1..])
    ensures s[i := x] == s[..i] + ([x] + s[i + 1..])
  {
  }

  lemma SliceHead<T>(s: seq<T>, i: nat, n: nat)
    requires i < n <= |s|
    ensures s[i..n] == [s[i]] + s[i + 1..n]
  {
  }

  lemma EmptyIsNeutral<T>(s: seq<T>)
    ensures [] + s == s && s + [] == s
  {
  }

  ghost predicate EndsWith<T>(all: seq<T>, s: seq<T>) {
    |s| <= |all| && s == all[|all| - |s|..]
  }

  lemma EndExtends<T>(all: seq<T>, s: seq<T>, t: seq<T>)
    requires EndsWith(all, s)
    ensures EndsWith(all + t, s + t)
    ensures s != [] ==> all[|all| - 1] == s[|s| - 1]
  {
  }

  lemma EndShrinks<T>(all: seq<T>, s: seq<T>, k: nat)
    requires EndsWith(all, s) && k <= |s|
    ensures EndsWith(all, s[k..])
  {
  }

  lemma SuffixSnoc<T>(s: seq<T>, k: nat, t: seq<T>)
    requires k <= |s|
    ensures s[k..] + t == (s + t)[k..]
  {
  }

  /** The last n elements; all of them when n is negative or more than there are. */
  function LastN<T>(s: seq<T>, n: int): (r: seq<T>)
    ensures |r| == if 0 <= n < |s| then n else |s|
  {
    if 0 <= n < |s| then s[|s| - n..] else s
  }

  /** The first n elements; all of them when n is negative or more than there are. */
  function FirstN<T>(s: seq<T>, n: int): (r: seq<T>)
    ensures |r| == if 0 <= n < |s| then n else |s|
  {
    if 0 <= n < |s| then s[..n] else s
  }

  /** The elements of s that are in keep, in order. */
  ghost function Pick<T>(s: seq<T>, keep: set<T>): seq<T> {
    if s == [] then []
    else Pick(s[..|s| - 1], keep) + if s[|s| - 1] in keep then [s[|s| - 1]] else []
  }

  lemma {:induction false} PickMembers<T>(s: seq<T>, keep: set<T>)
    ensures forall x :: x in Pick(s, keep) <==> x in s && x in keep
    decreases |s|
  {
    if s != [] {
      PickMembers(s[..|s| - 1], keep);
      InitAndLast(s);
    }
  }

  lemma {:induction false} PickConcat<T>(a: seq<T>, b: seq<T>, keep: set<T>)
    ensures Pick(a + b, keep) == Pick(a, keep) + Pick(b, keep)
    decreases |b|
  {
    if b == [] {
      EmptyIsNeutral(a);
      EmptyIsNeutral(Pick(a, keep));
    } else {
      PickConcat(a, b[..|b| - 1], keep);
      InitOfConcat(a, b);
    }
  }

  lemma {:induction false} PickAll<T>(s: seq<T>, keep: set<T>)
    requires forall x :: x in s ==> x in keep
    ensures Pick(s, keep) == s
    decreases |s|
  {
    if s != [] {
      PickAll(s[..|s| - 1], keep);
      InitAndLast(s);
    }
  }

  lemma PickAtMostOne<T>(x: T, keep: set<T>)
    ensures Pick([x], keep) == if x in keep then [x] else []
  {
    EmptyIsNeutral([x]);
    assert [x][..0] == [];
  }

  lemma PickNothing<T>(keep: set<T>)
    ensures Pick([], keep) == []
  {
  }

  /** If all of the first n elements are picked, they are the first n picked ones. */
  lemma FirstOfPicked<T>(s: seq<T>, keep: set<T>, n: int)
    requires forall x :: x in FirstN(s, n) ==> x in keep
    ensures FirstN(Pick(s, keep), n) == FirstN(s, n)
  {
    var k := |FirstN(s, n)|;
    SplitsAt(s, k);
    PickConcat(s[..k], s[k..], keep);
    assert FirstN(s, n) == s[..k];
    hide Pick;
    PickAll(s[..k], keep);
    FirstOfConcat(s[..k], Pick(s[k..], keep), n);
  }

  lemma LastOfPicked<T>(s: seq<T>, keep: set<T>, n: int)
    requires forall x :: x in LastN(s, n) ==> x in keep
    ensures LastN(Pick(s, keep), n) == LastN(s, n)
  {
    var k := |s| - |LastN(s, n)|;
    SplitsAt(s, k);
    PickConcat(s[..k], s[k..], keep);
    assert LastN(s, n) == s[k..];
    hide Pick;
    PickAll(s[k..], keep);
    LastOfConcat(Pick(s[..k], keep), s[k..], n);
  }

  function Reverse<T>(s: seq<T>): (r: seq<T>)
    ensures |r| == |s|
    ensures forall i :: 0 <= i < |s| ==> r[i] == s[|s| - 1 - i]
  {
    seq(|s|, i requires 0 <= i < |s| => s[|s| - 1 - i])
  }

  lemma FirstOfReverse<T>(s: seq<T>, n: int)
    ensures FirstN(Reverse(s), n) == Reverse(LastN(s, n))
    ensures Reverse(FirstN(Reverse(s), n)) == LastN(s, n)
  {
  }

  lemma LastOfConcat<T>(a: seq<T>, b: seq<T>, n: int)
    ensures 0 <= n <= |b| ==> LastN(a + b, n) == LastN(b, n)
    ensures |b| <= n ==> LastN(a + b, n) == LastN(a, n - |b|) + b
  {
  }

  lemma FirstOfConcat<T>(a: seq<T>, b: seq<T>, n: int)
    ensures FirstN(a, n) <= FirstN(a + b, n)
    ensures |FirstN(a, n)| == n ==> FirstN(a + b, n) == FirstN(a, n)
  {
  }

  lemma ReversePermutes<T>(s: seq<T>)
    ensures multiset(Reverse(s)) == multiset(s)
    decreases |s|
  {
    if s != [] {
      var n := |s| - 1;
      ReversePermutes(s[..n]);
      assert Reverse(s) == [s[n]] + Reverse(s[..n]);
      assert s == s[..n] + [s[n]];
    }
  }

  lemma HeadAndTail<T>(s: seq<T>)
    requires s != []
    ensures s == [s[0]] + s[1..]
    ensures multiset(s) == multiset{s[0]} + multiset(s[1..])
    ensures forall x :: x in s <==> x == s[0] || x in s[1..]
  {
  }

  lemma TailsPermute<T>(a: seq<T>, b: seq<T>)
    requires a != [] && b != [] && a[0] == b[0] && multiset(a) == multiset(b)
    ensures multiset(a[1..]) == multiset(b[1..])
  {
    HeadAndTail(a);
    HeadAndTail(b);
    assert multiset(a[1..]) == multiset(a) - multiset{a[0]};
  }

  lemma SameMembers<T>(a: seq<T>, b: seq<T>)
    requires multiset(a) == multiset(b)
    ensures |a| == |b|
    ensures forall x :: x in a <==> x in b
  {
    assert |multiset(a)| == |multiset(b)|;
    assert forall x :: x in a <==> x in multiset(a);
  }

  /** whole has exactly the elements of a and of b, in some order. */
  ghost predicate MadeOf<T>(whole: seq<T>, a: seq<T>, b: seq<T>) {
    multiset(whole) == multiset(a) + multiset(b)
  }

  lemma PartIsDetermined<T>(whole: seq<T>, a: seq<T>, a': seq<T>, b: seq<T>)
    requires MadeOf(whole, a, b)
    ensures MadeOf(whole, a', b) <==> multiset(a') == multiset(a)
  {
    var x, x', y := multiset(a), multiset(a'), multiset(b);
    assert (x + y) - y == x && (x' + y) - y == x';
  }
}
