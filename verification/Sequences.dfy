/** Facts about concatenation, kept apart so that no large proof has to find them. */
module Sequences {

  lemma Associate<T>(a: seq<T>, b: seq<T>, c: seq<T>)
    ensures a + (b + c) == a + b + c
  {
  }

  lemma SplitFirst<T>(s: seq<T>)
    requires |s| > 0
    ensures s == [s[0]] + s[1..]
  {
  }

  lemma SplitLast<T>(s: seq<T>)
    requires |s| > 0
    ensures s == s[..|s| - 1] + [s[|s| - 1]]
  {
  }

  lemma TakeDrop<T>(a: seq<T>, b: seq<T>)
    ensures (a + b)[..|a|] == a && (a + b)[|a|..] == b
  {
  }

  lemma PrefixBy<T>(a: seq<T>, b: seq<T>, n: nat)
    requires n <= |a| && n <= |b|
    ensures a <= b <==> a[..n] == b[..n] && a[n..] <= b[n..]
  {
    assert a == a[..n] + a[n..] && b == b[..n] + b[n..];
  }

  lemma DropSnoc<T>(front: seq<T>, last: T, n: nat)
    requires n <= |front|
    ensures (front + [last])[n..] == front[n..] + [last]
  {
  }

  lemma Unsnoc<T>(front: seq<T>, last: T)
    ensures (front + [last])[..|front|] == front && (front + [last])[|front|] == last
  {
  }

  lemma Empty<T>(s: seq<T>)
    ensures [] + s == s && s + [] == s
  {
  }

  lemma SplitAt<T>(s: seq<T>, n: nat)
    requires n <= |s|
    ensures s == s[..n] + s[n..]
  {
  }

  lemma SliceOfSecond<T>(a: seq<T>, b: seq<T>, from: nat, n: nat)
    requires from + n <= |b|
    ensures (a + b)[|a| + from..|a| + from + n] == b[from..from + n]
  {
  }

  lemma SliceOfRest<T>(s: seq<T>, k: nat, from: nat, n: nat)
    requires k + from + n <= |s|
    ensures s[k..][from..from + n] == s[k + from..k + from + n]
  {
  }

  lemma SecondAt<T>(a: seq<T>, b: seq<T>, k: nat)
    requires k < |b|
    ensures (a + b)[|a| + k] == b[k]
  {
  }

  lemma DropPrefix<T>(a: seq<T>, b: seq<T>, whole: seq<T>)
    requires whole == a + b
    ensures a <= whole && whole[|a|..] == b
  {
  }
}
