/** Index paths and the list operations the accordion controller performs on
    its list of expanded index paths: first-occurrence lookup, removal of the
    first occurrence, and what duplicate-freedom means for that list. */
module IndexPaths {

  /** A row position in a table view: a section and a row inside it. */
  datatype IndexPath = IndexPath(section: int, row: int)

  datatype Option<T> = None | Some(value: T)

  /** The position of the first entry of `s` equal to `p`, or None when `p`
      does not occur (the array `indexOf` lookup). */
  function FirstIndex(s: seq<IndexPath>, p: IndexPath): (r: Option<nat>)
    ensures r.None? <==> p !in s
    ensures r.Some? ==> r.value < |s| && s[r.value] == p && p !in s[..r.value]
  {
    if s == [] then None
    else if s[0] == p then Some(0)
    else
      match FirstIndex(s[1..], p)
      case None => None
      case Some(i) =>
        assert s[..i + 1] == [s[0]] + s[1..][..i];
        Some(i + 1)
  }

  /** `s` without its first occurrence of `p`, and `s` itself when `p` does
      not occur: every other entry stays, in its relative order. */
  function RemoveFirst(s: seq<IndexPath>, p: IndexPath): (r: seq<IndexPath>)
    ensures p !in s ==> r == s
    ensures p in s ==> |r| == |s| - 1
  {
    if s == [] then []
    else if s[0] == p then s[1..]
    else
      assert s == [s[0]] + s[1..];
      [s[0]] + RemoveFirst(s[1..], p)
  }

  /** `RemoveFirst` takes away one copy of `p` when there is one, and keeps
      every other entry as many times as it occurred. */
  lemma {:induction false} RemoveFirstMultiset(s: seq<IndexPath>, p: IndexPath)
    ensures multiset(RemoveFirst(s, p)) == multiset(s) - multiset{p}
  {
    if s != [] {
      assert s == [s[0]] + s[1..];
      if s[0] != p {
        RemoveFirstMultiset(s[1..], p);
      }
    }
  }

  /** No index path occurs twice. */
  predicate NoDuplicates(s: seq<IndexPath>)
  {
    forall i, j :: 0 <= i < j < |s| ==> s[i] != s[j]
  }

  /** Deleting the entry at the first occurrence of `p` (the index `FirstIndex`
      finds, which the controller passes to `removeAtIndex`) is `RemoveFirst`:
      the entries before and after it keep their order. */
  lemma {:induction false} RemoveAtFirstIndex(s: seq<IndexPath>, p: IndexPath, i: nat)
    requires i < |s| && s[i] == p && p !in s[..i]
    ensures s[..i] + s[i + 1..] == RemoveFirst(s, p)
  {
    if i == 0 {
      assert s[0] == p;
    } else {
      var rest := s[1..];
      assert s[0] != p by { assert s[0] == s[..i][0]; }
      assert rest[..i - 1] == s[1..i];
      assert p !in rest[..i - 1] by {
        forall k | 0 <= k < i - 1 ensures rest[k] != p {
          assert rest[k] == s[..i][k + 1];
        }
      }
      RemoveAtFirstIndex(rest, p, i - 1);
      calc {
        s[..i] + s[i + 1..];
        { assert s[..i] == [s[0]] + rest[..i - 1]; assert s[i + 1..] == rest[i..]; }
        ([s[0]] + rest[..i - 1]) + rest[i..];
        [s[0]] + (rest[..i - 1] + rest[i..]);
        [s[0]] + RemoveFirst(rest, p);
        { assert s == [s[0]] + rest; }
        RemoveFirst(s, p);
      }
    }
  }

  /** Appending keeps the list duplicate-free exactly when it was duplicate-free
      and the appended path was absent. */
  lemma AppendNoDuplicates(s: seq<IndexPath>, p: IndexPath)
    ensures NoDuplicates(s + [p]) <==> NoDuplicates(s) && p !in s
  {
    var t := s + [p];
    if p in s {
      var k :| 0 <= k < |s| && s[k] == p;
      assert t[k] == t[|s|];
    }
    if NoDuplicates(t) {
      forall i, j | 0 <= i < j < |s| ensures s[i] != s[j] {
        assert t[i] == s[i] && t[j] == s[j];
      }
    }
  }

  /** Removing the first occurrence from a duplicate-free list keeps it
      duplicate-free and leaves no occurrence of the removed path. */
  lemma {:induction false} RemoveFirstNoDuplicates(s: seq<IndexPath>, p: IndexPath)
    requires NoDuplicates(s)
    ensures NoDuplicates(RemoveFirst(s, p)) && p !in RemoveFirst(s, p)
  {
    if s != [] {
      var rest := s[1..];
      assert NoDuplicates(rest) by {
        forall i, j | 0 <= i < j < |rest| ensures rest[i] != rest[j] {
          assert rest[i] == s[i + 1] && rest[j] == s[j + 1];
        }
      }
      assert s[0] !in rest by {
        forall k | 0 <= k < |rest| ensures rest[k] != s[0] {
          assert rest[k] == s[k + 1];
        }
      }
      if s[0] != p {
        RemoveFirstNoDuplicates(rest, p);
        RemoveFirstMultiset(rest, p);
        var r := RemoveFirst(rest, p);
        assert multiset(r)[s[0]] == 0 by { assert multiset(rest)[s[0]] == 0; }
        assert RemoveFirst(s, p) == [s[0]] + r;
        PrependNoDuplicates(s[0], r);
      }
    }
  }

  /** Putting an absent path in front of a duplicate-free list keeps it
      duplicate-free. */
  lemma PrependNoDuplicates(x: IndexPath, r: seq<IndexPath>)
    requires NoDuplicates(r) && x !in r
    ensures NoDuplicates([x] + r)
  {
  }

  /** Appending a path that was absent and then removing its first occurrence
      gives back the original list exactly. */
  lemma {:induction false} RemoveFirstAppended(s: seq<IndexPath>, p: IndexPath)
    requires p !in s
    ensures RemoveFirst(s + [p], p) == s
  {
    if s != [] {
      assert (s + [p])[1..] == s[1..] + [p];
      assert p !in s[1..];
      RemoveFirstAppended(s[1..], p);
      assert s == [s[0]] + s[1..];
    }
  }
}
