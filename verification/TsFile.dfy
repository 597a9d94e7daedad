/** The ordered entry list of codegen/src/util/TsFile.ts, with its movable insertion point. */
module TsFile {
  import opened Options

  /** Position of the first occurrence, or -1. */
  function IndexOf<E(==)>(s: seq<E>, e: E): (i: int)
    ensures -1 <= i < |s|
    ensures i == -1 <==> e !in s
    ensures i != -1 ==> s[i] == e
    ensures forall j :: 0 <= j < |s| && s[j] == e ==> i <= j
  {
    if s == [] then -1
    else if s[0] == e then 0
    else
      var i := IndexOf(s[1..], e);
      assert s == [s[0]] + s[1..];
      if i == -1 then -1 else i + 1
  }

  lemma {:induction false} IndexOfFirst<E>(s: seq<E>, e: E, k: nat)
    requires k < |s| && s[k] == e && e !in s[..k]
    ensures IndexOf(s, e) == k
  {
    if k == 0 {
    } else {
      assert s[0] in s[..k];
      forall x | x in s[1..][..k - 1] ensures x in s[..k] {
        var j :| 0 <= j < k - 1 && s[1..][j] == x;
        assert s[..k][j + 1] == x;
      }
      IndexOfFirst(s[1..], e, k - 1);
    }
  }

  /** The entry list after adding `e` while `before` is the insertion point. */
  function Inserted<E(==)>(s: seq<E>, before: Option<E>, e: E): (r: seq<E>)
    ensures |r| == |s| + 1
  {
    if before.Some? && before.value in s then
      var i := IndexOf(s, before.value);
      assert s == s[..i] + s[i..];
      s[..i] + [e] + s[i..]
    else
      s + [e]
  }

  /** An insertion point that occurs once splits the list around the new entry. */
  lemma InsertedBetween<E>(a: seq<E>, x: E, b: seq<E>, e: E)
    requires x !in a
    ensures Inserted(a + ([x] + b), Some(x), e) == a + [e] + ([x] + b)
  {
    var s := a + ([x] + b);
    assert s[|a|] == x && s[..|a|] == a;
    IndexOfFirst(s, x, |a|);
    var i := IndexOf(s, x);
    assert s[..i] == a && s[i..] == [x] + b;
  }

  class Block<E(==)> {
    var entries: seq<E>
    var addBefore: Option<E>

    constructor ()
      ensures entries == [] && addBefore == None
    {
      entries := [];
      addBefore := None;
    }

    /** Adds one entry at the insertion point, or at the end when there is none in this block. */
    method Add(e: E)
      modifies this`entries
      ensures entries == Inserted(old(entries), addBefore, e)
    {
      if addBefore.Some? {
        var index := IndexOf(entries, addBefore.value);
        if index != -1 {
          entries := entries[..index] + [e] + entries[index..];
          return;
        }
      }
      entries := entries + [e];
    }

    /** Removes the first occurrence of an entry, if there is one. */
    method Remove(e: E)
      modifies this`entries
      ensures e !in old(entries) ==> entries == old(entries)
      ensures e in old(entries) ==>
                var i := IndexOf(old(entries), e);
                entries == old(entries)[..i] + old(entries)[i + 1..]
    {
      var index := IndexOf(entries, e);
      if index != -1 {
        entries := entries[..index] + entries[index + 1..];
      }
    }
  }
}
