/** Facts about sequences that several proofs share. */
module Sequences {

  lemma Regroup<T>(a: seq<T>, b: seq<T>, c: seq<T>)
    ensures (a + b) + c == a + (b + c)
  {
  }

  lemma HeadAndTail<T>(s: seq<T>)
    requires s != []
    ensures s == [s[0]] + s[1..]
  {
  }

  lemma EmptyIsNeutral<T>(s: seq<T>)
    ensures s + [] == s && [] + s == s
  {
  }

  lemma NextParity(k: nat)
    ensures (k + 1) % 2 == 0 <==> k % 2 != 0
  {
  }
}
