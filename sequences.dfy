/** Reversal of sequences: both pages build a list by inserting each element
    at the front (`unshift`), which yields the reverse of the scanning order. */
module Sequences {

  function Reverse<T>(s: seq<T>): (r: seq<T>)
    ensures |r| == |s|
  {
    if s == [] then [] else Reverse(s[1..]) + [s[0]]
  }

  /** Element k of the reverse is element |s|-1-k of the original. */
  lemma {:induction false} ReverseAt<T>(s: seq<T>, k: nat)
    requires k < |s|
    ensures Reverse(s)[k] == s[|s| - 1 - k]
  {
    if k < |s| - 1 {
      ReverseAt(s[1..], k);
    }
  }

  /** Inserting at the front extends the reverse of what was scanned so far. */
  lemma {:induction false} ReverseSnoc<T>(s: seq<T>, x: T)
    ensures Reverse(s + [x]) == [x] + Reverse(s)
  {
    if s == [] {
      assert s + [x] == [x];
    } else {
      assert (s + [x])[1..] == s[1..] + [x];
      ReverseSnoc(s[1..], x);
    }
  }

  /** Reversal keeps exactly the same members, with the same multiplicities. */
  lemma {:induction false} ReverseMultiset<T>(s: seq<T>)
    ensures multiset(Reverse(s)) == multiset(s)
  {
    if s != [] {
      ReverseMultiset(s[1..]);
      assert s == [s[0]] + s[1..];
    }
  }

  /** Reversal keeps exactly the same members. */
  lemma ReverseMembers<T>(s: seq<T>, x: T)
    ensures x in Reverse(s) <==> x in s
  {
  }
}
