/**
  * Values shared by every part of the state-machine model.
  */
module Common {

  datatype Option<T> = None | Some(value: T)

  /** A C# `string` reference: `None` stands for `null`. */
  type Name = Option<string>

  /**
    * What a machine's StateChangedEvent and ResetEvent handlers are handed.
    * The delegates themselves are not modelled; each machine keeps a ghost
    * log of the events it raised, oldest first.
    */
  datatype Event<S> = StateChanged(oldState: S, newState: S) | Reset(oldState: S, newState: S)

  /** True when no entry of `s` is `null`. */
  predicate AllSome(s: seq<Name>)
  {
    forall i :: 0 <= i < |s| ==> s[i].Some?
  }

  /** The strings behind a sequence of non-null names, in order. */
  function Strings(s: seq<Name>): (r: seq<string>)
    requires AllSome(s)
    ensures |r| == |s|
    ensures forall i :: 0 <= i < |s| ==> s[i] == Some(r[i])
  {
    seq(|s|, i requires 0 <= i < |s| => s[i].value)
  }

  /**
    * The index of the first element of `s` equal to `x`, or -1 when there
    * is none: the contract of every first-match name lookup in the engines.
    */
  function IndexOf<T(==)>(s: seq<T>, x: T): (r: int)
    ensures -1 <= r < |s|
    ensures r == -1 <==> x !in s
    ensures 0 <= r ==> s[r] == x && x !in s[..r]
  {
    if |s| == 0 then -1
    else if s[0] == x then 0
    else
      var k := IndexOf(s[1..], x);
      if k == -1 then -1
      else
        assert s[..k + 1] == [s[0]] + s[1..][..k];
        k + 1
  }

  /** In a sequence without repeats, the lookup of the element at `i` finds `i`. */
  lemma IndexOfDistinct<T>(s: seq<T>, i: int)
    requires Distinct(s)
    requires 0 <= i < |s|
    ensures IndexOf(s, s[i]) == i
  {
  }

  /** Taking one element more appends that element. */
  lemma TakeOneMore<T>(s: seq<T>, n: int)
    requires 0 < n <= |s|
    ensures s[..n] == s[..n - 1] + [s[n - 1]]
  {
  }

  /** Appending a non-empty sequence appends its head, then its tail. */
  lemma AppendHead<T>(a: seq<T>, s: seq<T>)
    requires |s| > 0
    ensures a + s == (a + [s[0]]) + s[1..]
  {
    assert s == [s[0]] + s[1..];
  }

  /** Removing the keys of `s` and then `k` removes the keys of `s + [k]`. */
  lemma RemoveOneMore<V>(m: map<string, V>, s: seq<string>, k: string)
    ensures m - (set x | x in s) - {k} == m - (set x | x in s + [k])
  {
    assert (set x | x in s + [k]) == (set x | x in s) + {k};
  }

  /** An element other than the head is in the tail. */
  lemma InTail<T>(s: seq<T>, x: T)
    requires x in s && x != s[0]
    ensures x in s[1..]
  {
    assert s == [s[0]] + s[1..];
  }

  /** A second update of the same key replaces the first. */
  lemma UpdateTwice<K, V>(m: map<K, V>, k: K, a: V, b: V)
    ensures m[k := a][k := b] == m[k := b]
  {
  }

  /** Every element of `s` is different from every other one. */
  ghost predicate Distinct<T>(s: seq<T>)
  {
    forall a, b :: 0 <= a < b < |s| ==> s[a] != s[b]
  }

  /** C#'s `ToLower` restricted to ASCII letters. */
  function Lower(s: string): (r: string)
    ensures |r| == |s|
    ensures forall i :: 0 <= i < |s| ==> (r[i] == s[i] <==> !('A' <= s[i] <= 'Z'))
    ensures forall i :: 0 <= i < |s| ==> !('A' <= r[i] <= 'Z')
  {
    seq(|s|, i requires 0 <= i < |s| => if 'A' <= s[i] <= 'Z' then (s[i] as int + 32) as char else s[i])
  }
}
