/** Taking one element out of a sequence and putting one in, as `splice` does in place. */
module Sequences {

  function Cut<T>(s: seq<T>, i: nat): (r: seq<T>)
    requires i < |s|
    ensures |r| == |s| - 1
  {
    seq(|s| - 1, j requires 0 <= j < |s| - 1 => if j < i then s[j] else s[j + 1])
  }

  function Splice<T>(s: seq<T>, p: nat, x: T): (r: seq<T>)
    requires p <= |s|
    ensures |r| == |s| + 1
  {
    seq(|s| + 1, j requires 0 <= j <= |s| => if j < p then s[j] else if j == p then x else s[j - 1])
  }

  lemma Slices<T>(s: seq<T>, i: nat, x: T)
    requires i <= |s|
    ensures Splice(s, i, x) == s[..i] + [x] + s[i..]
    ensures i < |s| ==> Cut(s, i) == s[..i] + s[i + 1..]
  {
  }

  lemma CutOfSplice<T>(s: seq<T>, i: nat, p: nat, x: T)
    requires i < |s| && p <= |s|
    ensures i < p ==> Cut(Splice(s, p, x), i) == Splice(Cut(s, i), p - 1, x)
    ensures i >= p ==> Cut(Splice(s, p, x), i + 1) == Splice(Cut(s, i), p, x)
  {
  }

  lemma SpliceElements<T>(s: seq<T>, p: nat, x: T, y: T)
    requires p <= |s|
    ensures y in Splice(s, p, x) <==> y == x || y in s
  {
    var r := Splice(s, p, x);
    assert r[p] == x;
    assert forall j :: 0 <= j < |s| ==> s[j] == r[if j < p then j else j + 1];
  }

  lemma CutElements<T>(s: seq<T>, i: nat, y: T)
    requires i < |s|
    ensures y in s <==> y == s[i] || y in Cut(s, i)
  {
    var r := Cut(s, i);
    assert forall j :: 0 <= j < |s| && j != i ==> s[j] == r[if j < i then j else j - 1];
    assert forall j :: 0 <= j < |r| ==> r[j] == s[if j < i then j else j + 1];
  }

  lemma CutOwnSplice<T>(s: seq<T>, p: nat, x: T)
    requires p <= |s|
    ensures Cut(Splice(s, p, x), p) == s
  {
  }

  lemma CutsCommute<T>(s: seq<T>, i: nat, j: nat)
    requires i < j < |s|
    ensures Cut(Cut(s, i), j - 1) == Cut(Cut(s, j), i)
  {
  }

  lemma SplicesCommute<T>(s: seq<T>, p: nat, x: T, q: nat, y: T)
    requires p <= q <= |s|
    ensures Splice(Splice(s, p, x), q + 1, y) == Splice(Splice(s, q, y), p, x)
  {
  }
}
