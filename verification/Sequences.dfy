/** What several modules say of sequences. */
module Sequences {

  predicate Distinct<T(==)>(s: seq<T>) {
    forall i, j :: 0 <= i < j < |s| ==> s[i] != s[j]
  }

  lemma Assoc<T>(a: seq<T>, b: seq<T>, c: seq<T>)
    ensures (a + b) + c == a + (b + c)
  {
  }

  function Concat<T>(ss: seq<seq<T>>): seq<T> {
    if ss == [] then [] else Concat(ss[..|ss| - 1]) + ss[|ss| - 1]
  }

  lemma ConcatSnoc<T>(ss: seq<seq<T>>, s: seq<T>)
    ensures Concat(ss + [s]) == Concat(ss) + s
  {
    assert (ss + [s])[..|ss|] == ss;
  }

  lemma {:induction false} ConcatParts<T>(a: seq<seq<T>>, b: seq<seq<T>>)
    ensures Concat(a + b) == Concat(a) + Concat(b)
  {
    if b == [] {
      assert a + b == a;
    } else {
      var c, s := b[..|b| - 1], b[|b| - 1];
      ConcatParts(a, c);
      assert a + b == (a + c) + [s];
      ConcatSnoc(a + c, s);
      Assoc(Concat(a), Concat(c), s);
    }
  }

  lemma ConcatIn<T>(ss: seq<seq<T>>, j: nat, x: T)
    requires j < |ss| && x in ss[j]
    ensures x in Concat(ss)
  {
    assert ss == (ss[..j] + [ss[j]]) + ss[j + 1..];
    ConcatSnoc(ss[..j], ss[j]);
    ConcatParts(ss[..j] + [ss[j]], ss[j + 1..]);
  }

  lemma {:induction false} ConcatAt<T>(ss: seq<seq<T>>, x: T) returns (j: nat)
    requires x in Concat(ss)
    ensures j < |ss| && x in ss[j]
  {
    var n := |ss| - 1;
    if x in ss[n] {
      j := n;
    } else {
      j := ConcatAt(ss[..n], x);
    }
  }
}
