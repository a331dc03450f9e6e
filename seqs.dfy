/** Small facts about sequences that the loops of the model step through. */
module Seqs {
  /** Taking one more element of a sequence appends that element. */
  lemma TakeSnoc<T>(s: seq<T>, i: nat)
    requires i < |s|
    ensures s[..i + 1] == s[..i] + [s[i]]
  {
  }

  /** A prefix of a sequence with one more element in front. */
  lemma ConsTake<T>(x: T, s: seq<T>, k: nat)
    requires k <= |s|
    ensures ([x] + s)[..k + 1] == [x] + s[..k]
  {
  }

  lemma HeadTail<T>(s: seq<T>)
    requires |s| > 0
    ensures s == [s[0]] + s[1..]
  {
  }

  lemma TailAppend<T>(s: seq<T>, t: seq<T>)
    requires |s| > 0
    ensures (s + t)[1..] == s[1..] + t
  {
  }

  lemma ConsTail<T>(x: T, s: seq<T>)
    ensures ([x] + s)[1..] == s
  {
  }

  lemma SplitAt<T>(s: seq<T>, t: seq<T>)
    requires |t| > 0
    ensures (s + t)[..|s|] == s && (s + t)[|s|] == t[0] && |s + t| > |s|
  {
  }

  lemma TakeTake<T>(s: seq<T>, n: nat, k: nat)
    requires k < n <= |s|
    ensures s[..n][..k] == s[..k] && s[..n][k] == s[k]
  {
  }

  lemma DropDrop<T>(s: seq<T>, k: nat, n: nat, m: nat)
    requires m == k + n <= |s|
    ensures s[k..][n..] == s[m..]
  {
  }

  lemma TakeAll<T>(s: seq<T>)
    ensures s[..|s|] == s
  {
  }

  /** Moving the next block of a concatenation from the part still to do onto the part done. */
  lemma Regroup<T>(done: seq<T>, next: seq<T>, rest: seq<T>, todo: seq<T>, all: seq<T>)
    requires done + todo == all && todo == next + rest
    ensures done + next + rest == all
  {
  }
}
