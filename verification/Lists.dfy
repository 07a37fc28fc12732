/** Lists of distinct elements, as the linked lists of the sources hold them. */
module Lists {
  ghost predicate Distinct<T>(s: seq<T>) { forall i, j :: 0 <= i < j < |s| ==> s[i] != s[j] }

  // Where the first such element is, |s| if nowhere.
  function Find<T(==)>(s: seq<T>, x: T): (p: nat)
    ensures p <= |s|
    ensures forall i :: 0 <= i < p ==> s[i] != x
    ensures p < |s| ==> s[p] == x
  {
    if s == [] || s[0] == x then 0 else 1 + Find(s[1..], x)
  }

  lemma FindIs<T>(s: seq<T>, x: T, p: nat)
    requires p <= |s| && forall i :: 0 <= i < p ==> s[i] != x
    requires p < |s| ==> s[p] == x
    ensures Find(s, x) == p
  { }

  lemma FindsExactly<T>(s: seq<T>, x: T)
    ensures Find(s, x) < |s| <==> x in s
  { }

  function Drop<T>(s: seq<T>, p: nat): seq<T>
    requires p < |s|
  {
    s[..p] + s[p + 1..]
  }

  lemma DropAt<T>(s: seq<T>, p: nat)
    requires p < |s|
    ensures |Drop(s, p)| == |s| - 1
    ensures forall i :: 0 <= i < |s| - 1 ==> Drop(s, p)[i] == s[if i < p then i else i + 1]
    ensures forall x :: x in Drop(s, p) ==> x in s
  { }

  lemma DropDistinct<T>(s: seq<T>, p: nat)
    requires p < |s| && Distinct(s)
    ensures Distinct(Drop(s, p))
  {
    DropAt(s, p);
  }

  function Splice<T>(s: seq<T>, p: nat, x: T): seq<T>
    requires p <= |s|
  {
    s[..p] + [x] + s[p..]
  }

  lemma SpliceAt<T>(s: seq<T>, p: nat, x: T)
    requires p <= |s|
    ensures |Splice(s, p, x)| == |s| + 1
    ensures forall i :: 0 <= i <= |s| ==> Splice(s, p, x)[i] == if i < p then s[i] else if i == p then x else s[i - 1]
    ensures forall y :: y in Splice(s, p, x) ==> y in s || y == x
  { }

  lemma SpliceDistinct<T>(s: seq<T>, p: nat, x: T)
    requires p <= |s| && Distinct(s) && x !in s
    ensures Distinct(Splice(s, p, x))
  {
    SpliceAt(s, p, x);
  }
}
