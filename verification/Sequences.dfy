/** Facts about slices and concatenation, apart from what the slices hold. */
module Sequences {

  lemma Associates<T>(a: seq<T>, b: seq<T>, c: seq<T>)
    ensures (a + b) + c == a + (b + c)
  {
  }

  /** The text after the first 'a' elements, taken and dropped at a later place. */
  lemma SlicesMeet<T>(s: seq<T>, a: nat, b: nat)
    requires a <= b <= |s|
    ensures s[..a] + s[a..][..b - a] == s[..b]
    ensures s[a..][b - a..] == s[b..]
    ensures s[..b] + s[b..] == s
  {
  }

  lemma FrontAndBack<T>(a: seq<T>, b: seq<T>)
    ensures (a + b)[..|a|] == a && (a + b)[|a|..] == b
  {
  }
}
