/** Facts about slices of concatenations, stated once so that longer proofs need not search
    for them. */
module Sequences {

  lemma DropConcat<T>(s: seq<T>, t: seq<T>, n: nat)
    requires n <= |s|
    ensures (s + t)[n..] == s[n..] + t
  {
  }

  lemma TakeConcat<T>(s: seq<T>, t: seq<T>, n: nat)
    requires n <= |s|
    ensures (s + t)[..n] == s[..n]
  {
  }

  lemma MiddleOfConcat<T>(s: seq<T>, t: seq<T>, n: nat, k: nat)
    requires n + k <= |s|
    ensures (s + t)[n..][..k] == s[n..][..k]
  {
  }

  lemma DropTwice<T>(s: seq<T>, n: nat, k: nat)
    requires n + k <= |s|
    ensures s[n..][k..] == s[n + k..]
  {
  }

  lemma TakeTwice<T>(s: seq<T>, n: nat, k: nat)
    requires k <= n <= |s|
    ensures s[..n][..k] == s[..k]
  {
  }

  lemma EmptyInFront<T>(s: seq<T>)
    ensures [] + s == s
  {
  }
}
