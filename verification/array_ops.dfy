/**
 Ruby's `Array#delete_at` on a non-negative index, which both delete routes
 use.
 */
module ArrayOps {

  /** `s.delete_at(i)`: removes the element at `i`, shifting later elements
      down by one; an index past the end leaves `s` as it was. */
  function DeleteAt<T>(s: seq<T>, i: nat): (r: seq<T>)
    ensures i >= |s| ==> r == s
    ensures i < |s| ==> |r| == |s| - 1
    ensures i < |s| ==> forall j :: 0 <= j < i ==> r[j] == s[j]
    ensures i < |s| ==> forall j :: i <= j < |r| ==> r[j] == s[j + 1]
  {
    if i < |s| then s[..i] + s[i + 1..] else s
  }

  /** `s.insert(i, x)`, the inverse of `delete_at`. */
  function InsertAt<T>(s: seq<T>, i: nat, x: T): seq<T>
    requires i <= |s|
  {
    s[..i] + [x] + s[i..]
  }

  /** Putting the removed element back where it was restores the sequence. */
  lemma DeleteAtInverse<T>(s: seq<T>, i: nat)
    requires i < |s|
    ensures InsertAt(DeleteAt(s, i), i, s[i]) == s
  {
    var r := DeleteAt(s, i);
    assert r[..i] == s[..i];
    assert r[i..] == s[i + 1..];
  }

  /** `delete_at` removes exactly one occurrence of the element at `i`. */
  lemma DeleteAtMultiset<T>(s: seq<T>, i: nat)
    requires i < |s|
    ensures multiset(DeleteAt(s, i)) == multiset(s) - multiset{s[i]}
  {
    DeleteAtInverse(s, i);
    var r := DeleteAt(s, i);
    assert s == r[..i] + [s[i]] + r[i..];
    assert r == r[..i] + r[i..];
  }
}
