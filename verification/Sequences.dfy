/** Facts about cutting and joining sequences, kept apart from the functions they are used on. */
module Sequences {
  lemma Assoc<T>(a: seq<T>, b: seq<T>, c: seq<T>)
    ensures (a + b) + c == a + (b + c)
  {
  }

  lemma HeadTail<T>(s: seq<T>)
    requires s != []
    ensures s == [s[0]] + s[1..]
  {
  }

  /** Taking one element more from the front. */
  lemma TakeOneMore<T>(s: seq<T>, n: nat, tail: seq<T>)
    requires 1 <= n <= |s|
    ensures s[1..][n - 1..] == s[n..]
    ensures [s[0]] + (s[1..][..n - 1] + tail) == s[..n] + tail
  {
  }

  lemma CutBetween<T>(s: seq<T>, i: nat, k: nat, tail: seq<T>)
    requires i <= k <= |s|
    ensures s[i..][k - i..] == s[k..]
    ensures s[..i] + (s[i..][..k - i] + tail) == s[..k] + tail
  {
  }

  lemma ConsEqual<T>(x: T, a: seq<T>, s: seq<T>)
    requires s != [] && x == s[0]
    ensures [x] + a == s <==> a == s[1..]
  {
    assert ([x] + a)[1..] == a;
    HeadTail(s);
  }

  lemma JoinedPrefix<T>(a: seq<T>, rest: seq<T>)
    requires rest != []
    ensures a + [rest[0]] <= a + rest
  {
  }

  lemma HeadTwo<T>(s: seq<T>)
    requires s != [] && s[1..] != []
    ensures s == [s[0], s[1..][0]] + s[1..][1..]
  {
  }

  lemma CutInFront<T>(a: seq<T>, b: seq<T>, n: nat)
    requires n <= |a|
    ensures (a + b)[n..] == a[n..] + b
  {
  }
}
