/** When the first elements of an array are a row with something put in or taken out. */
module Sequences {
  import opened Pages

  lemma IsInserted<T>(a: seq<T>, s: seq<T>, i: nat, x: T)
    requires |a| == |s| + 1 && i <= |s| && a[i] == x
    requires forall j :: 0 <= j < i ==> a[j] == s[j]
    requires forall j :: i < j < |a| ==> a[j] == s[j - 1]
    ensures a == InsertAt(s, i, x)
  {
  }

  lemma IsInFront<T>(a: seq<T>, s: seq<T>, x: T)
    requires |a| == |s| + 1 && a[0] == x
    requires forall j :: 0 < j < |a| ==> a[j] == s[j - 1]
    ensures a == [x] + s
  {
  }

  lemma IsTail<T>(a: seq<T>, s: seq<T>)
    requires |a| + 1 == |s|
    requires forall j :: 0 <= j < |a| ==> a[j] == s[j + 1]
    ensures a == s[1..]
  {
  }

  lemma IsRemoved<T>(a: seq<T>, s: seq<T>, i: nat)
    requires |a| + 1 == |s| && i < |s|
    requires forall j :: 0 <= j < i ==> a[j] == s[j]
    requires forall j :: i <= j < |a| ==> a[j] == s[j + 1]
    ensures a == RemoveAt(s, i)
  {
  }

  // The first elements of b have been written over by l, and o comes right after them,
  lemma Overlaid<T>(a: seq<T>, l: seq<T>, b: seq<T>, o: seq<T>)
    requires |l| + |o| <= |b| && a == b[..0] + l + b[|l|..]
    requires b[|l|..|l| + |o|] == o
    ensures a[..|l| + |o|] == l + o
  {
  }

  // or one place later, after x.
  lemma FrontRow<T>(a: seq<T>, l: seq<T>, b: seq<T>, x: T, o: seq<T>)
    requires |l| + 1 + |o| <= |b| && a == (b[..0] + l + b[|l|..])[|l| := x]
    requires b[|l| + 1..|l| + 1 + |o|] == o
    ensures a[..|l| + 1 + |o|] == l + [x] + o
  {
  }
}
