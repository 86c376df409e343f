/**
 Sequence and string helpers shared by the plugin-dependency model: the
 element set of a list, duplicate-freedom, reversal, Java's
 String.contains and String.toLowerCase, and the order-preserving filter
 behind tab completion.
 */
module Seqs {

  /** The elements of a list, as a set. */
  function Elems<T>(s: seq<T>): set<T>
  {
    set x | x in s
  }

  lemma ElemsAppend<T>(a: seq<T>, b: seq<T>)
    ensures Elems(a + b) == Elems(a) + Elems(b)
  {
    assert forall x :: x in a + b <==> x in a || x in b;
  }

  /** No element occurs twice. */
  predicate NoDup<T(==)>(s: seq<T>)
  {
    forall i, j :: 0 <= i < j < |s| ==> s[i] != s[j]
  }

  lemma NoDupAppend<T>(a: seq<T>, b: seq<T>)
    requires NoDup(a) && NoDup(b) && Elems(a) !! Elems(b)
    ensures NoDup(a + b)
  {
    var c := a + b;
    forall i, j | 0 <= i < j < |c|
      ensures c[i] != c[j]
    {
      if i < |a| && j >= |a| {
        assert c[i] in Elems(a) && c[j] == b[j - |a|] && c[j] in Elems(b);
      }
    }
  }

  /** A duplicate-free list is as long as its element set is large. */
  lemma {:induction false} NoDupCard<T>(s: seq<T>)
    requires NoDup(s)
    ensures |Elems(s)| == |s|
  {
    if s != [] {
      var t := s[..|s| - 1];
      assert s == t + [s[|s| - 1]];
      ElemsAppend(t, [s[|s| - 1]]);
      assert s[|s| - 1] !in Elems(t);
      assert NoDup(t);
      NoDupCard(t);
      assert Elems(s) == Elems(t) + {s[|s| - 1]};
    }
  }

  /** Collections.reverse. */
  function Reverse<T>(s: seq<T>): (r: seq<T>)
    ensures |r| == |s|
    ensures forall k :: 0 <= k < |s| ==> r[k] == s[|s| - 1 - k]
  {
    if s == [] then [] else Reverse(s[1..]) + [s[0]]
  }

  /** Java's String.contains: sub occurs in s at some offset. */
  predicate Contains(s: string, sub: string)
  {
    exists i :: 0 <= i <= |s| - |sub| && OccursAt(s, sub, i)
  }

  predicate OccursAt(s: string, sub: string, i: int)
    requires 0 <= i <= |s| - |sub|
  {
    s[i..i + |sub|] == sub
  }

  function LowerChar(c: char): char
  {
    if 'A' <= c <= 'Z' then (c as int - 'A' as int + 'a' as int) as char else c
  }

  /** String.toLowerCase, restricted to the ASCII letters. */
  function ToLower(s: string): (r: string)
    ensures |r| == |s|
    ensures forall k :: 0 <= k < |s| ==> r[k] == LowerChar(s[k])
  {
    if s == [] then [] else [LowerChar(s[0])] + ToLower(s[1..])
  }

  /** Lower-casing twice is lower-casing once. */
  lemma ToLowerIdempotent(s: string)
    ensures ToLower(ToLower(s)) == ToLower(s)
  {
    var t := ToLower(s);
    assert forall k :: 0 <= k < |t| ==> ToLower(t)[k] == t[k];
  }

  /** a can be obtained from b by deleting elements (order is kept). */
  predicate IsSubseq<T(==)>(a: seq<T>, b: seq<T>)
    decreases |b|
  {
    a == [] || (b != [] && if a[0] == b[0] then IsSubseq(a[1..], b[1..]) else IsSubseq(a, b[1..]))
  }

  /** The stream filter `s -> s.contains(arg)` collected into a list. */
  function FilterContaining(names: seq<string>, arg: string): (r: seq<string>)
    ensures forall x :: x in r <==> x in names && Contains(x, arg)
    ensures IsSubseq(r, names)
    ensures |r| <= |names|
  {
    if names == [] then []
    else if Contains(names[0], arg) then [names[0]] + FilterContaining(names[1..], arg)
    else FilterContaining(names[1..], arg)
  }
}
