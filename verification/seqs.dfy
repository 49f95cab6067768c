/** Sequence facts used throughout the model: duplicate-freedom, orders of a key set,
    counting and filtering. */
module Seqs {

  /** No element occurs twice. */
  predicate NoDup<T(==)>(s: seq<T>) {
    forall i, j :: 0 <= i < j < |s| ==> s[i] != s[j]
  }

  /** `s` lists every element of `keys` exactly once: an iteration order of a hash map's
      key set, or the result of shuffling it. */
  predicate IsOrderOf(s: seq<int>, keys: set<int>) {
    NoDup(s) && (forall x :: x in s ==> x in keys) && (forall x :: x in keys ==> x in s)
  }

  /** Number of occurrences of `x` in `s`. */
  function Count<T(==)>(s: seq<T>, x: T): (n: nat)
    ensures n <= |s|
    ensures n > 0 <==> x in s
  {
    if |s| == 0 then 0
    else Count(s[..|s| - 1], x) + (if s[|s| - 1] == x then 1 else 0)
  }

  function Sum(s: seq<int>): int {
    if |s| == 0 then 0 else Sum(s[..|s| - 1]) + s[|s| - 1]
  }

  /** The elements of `s` that satisfy `keep`, in their original order. */
  function Select(s: seq<int>, keep: int -> bool): (r: seq<int>)
    ensures |r| <= |s|
    ensures forall x :: x in r <==> x in s && keep(x)
  {
    if |s| == 0 then []
    else Select(s[..|s| - 1], keep) + (if keep(s[|s| - 1]) then [s[|s| - 1]] else [])
  }

  lemma {:induction false} SelectNoDup(s: seq<int>, keep: int -> bool)
    requires NoDup(s)
    ensures NoDup(Select(s, keep))
  {
    if |s| > 0 {
      var init := s[..|s| - 1];
      assert NoDup(init) by {
        forall i, j | 0 <= i < j < |init| ensures init[i] != init[j] {
          assert init[i] == s[i] && init[j] == s[j];
        }
      }
      SelectNoDup(init, keep);
      var last := s[|s| - 1];
      assert last !in init by {
        forall i | 0 <= i < |init| ensures init[i] != last {
          assert init[i] == s[i];
        }
      }
      assert last !in Select(init, keep);
    }
  }

  /** Selecting from an order of `keys` gives an order of the selected keys. */
  lemma SelectOrder(s: seq<int>, keys: set<int>, keep: int -> bool)
    requires IsOrderOf(s, keys)
    ensures IsOrderOf(Select(s, keep), set x | x in keys && keep(x))
  {
    SelectNoDup(s, keep);
  }

  /** The sum of a sequence after adding `d` at one position and subtracting it at another. */
  lemma SumUpdate(s: seq<int>, i: nat, d: int)
    requires i < |s|
    ensures Sum(s[i := s[i] + d]) == Sum(s) + d
  {
    if i < |s| - 1 {
      assert s[i := s[i] + d][..|s| - 1] == s[..|s| - 1][i := s[i] + d];
      SumUpdate(s[..|s| - 1], i, d);
    } else {
      assert s[i := s[i] + d][..|s| - 1] == s[..|s| - 1];
    }
  }

  /** Two duplicate-free sequences with no common element concatenate without duplicates. */
  lemma NoDupAppend(a: seq<int>, b: seq<int>)
    requires NoDup(a) && NoDup(b)
    requires forall x :: x in a ==> x !in b
    ensures NoDup(a + b)
  {
    forall i, j | 0 <= i < j < |a + b|
      ensures (a + b)[i] != (a + b)[j]
    {
      if i < |a| && j >= |a| {
        assert (a + b)[i] in a && (a + b)[j] == b[j - |a|];
      }
    }
  }

  /** An order of `keys` seen by position: every entry is a key and every key has a
      position. */
  lemma OrderIndex(s: seq<int>, keys: set<int>)
    requires IsOrderOf(s, keys)
    ensures forall i :: 0 <= i < |s| ==> s[i] in keys
    ensures forall x :: x in keys ==> exists i :: 0 <= i < |s| && s[i] == x
  {
    forall i | 0 <= i < |s| ensures s[i] in keys {
      var x := s[i];
      assert x in s;
    }
  }

  /** Dropping the last element keeps a duplicate-free sequence duplicate-free, and the
      dropped element is not among the rest. */
  lemma NoDupInit<T>(s: seq<T>)
    requires NoDup(s) && |s| > 0
    ensures NoDup(s[..|s| - 1]) && s[|s| - 1] !in s[..|s| - 1]
  {
    var init := s[..|s| - 1];
    forall i, j | 0 <= i < j < |init| ensures init[i] != init[j] {
      assert init[i] == s[i] && init[j] == s[j];
    }
    forall i | 0 <= i < |init| ensures init[i] != s[|s| - 1] {
      assert init[i] == s[i];
    }
  }

  /** A prefix of the sequence without its last element is a prefix of the sequence. */
  lemma PrefixOfInit<T>(s: seq<T>, i: nat)
    requires i < |s|
    ensures s[..|s| - 1][..i] == s[..i]
  {
  }

  /** A prefix of a duplicate-free sequence is duplicate-free. */
  lemma NoDupPrefix<T>(s: seq<T>, n: nat)
    requires NoDup(s) && n <= |s|
    ensures NoDup(s[..n])
  {
    var pre := s[..n];
    forall i, j | 0 <= i < j < |pre| ensures pre[i] != pre[j] {
      assert pre[i] == s[i] && pre[j] == s[j];
    }
  }
}
