/**
 * Reconciliation of the local list with the remote document's list when the
 * remote read in `loadComments` resolves: the local list, followed by the
 * remote entries whose (timestamp, user) pair matches no entry of the local
 * list as it stood before the merge.
 */
module Sync {
  import opened Comments

  /** The pair compared by the merge filter. */
  datatype Key = Key(timestamp: string, user: string)

  function KeyOf(c: Comment): Key {
    Key(c.timestamp, c.user)
  }

  /** `cs.some(lc => lc.timestamp === k.timestamp && lc.user === k.user)` */
  predicate HasKey(cs: seq<Comment>, k: Key) {
    exists i :: 0 <= i < |cs| && KeyOf(cs[i]) == k
  }

  /** `shared.filter(sc => !local.some(...))`: the remote entries the local list lacks. */
  function Unseen(local: seq<Comment>, shared: seq<Comment>): (r: seq<Comment>)
    ensures |r| <= |shared|
    ensures forall c :: c in r <==> c in shared && !HasKey(local, KeyOf(c))
  {
    if shared == [] then []
    else (if HasKey(local, KeyOf(shared[0])) then [] else [shared[0]]) + Unseen(local, shared[1..])
  }

  /** `[...local, ...shared.filter(...)]` */
  function Merge(local: seq<Comment>, shared: seq<Comment>): (r: seq<Comment>)
    ensures |local| <= |r| <= |local| + |shared|
    ensures r[..|local|] == local
    ensures forall c :: c in r[|local|..] <==> c in shared && !HasKey(local, KeyOf(c))
  {
    var r := local + Unseen(local, shared);
    assert r[|local|..] == Unseen(local, shared);
    r
  }

  /** The filter keeps remote order: it distributes over concatenation. */
  lemma {:induction false} UnseenAppend(local: seq<Comment>, a: seq<Comment>, b: seq<Comment>)
    ensures Unseen(local, a + b) == Unseen(local, a) + Unseen(local, b)
  {
    if a == [] {
      assert a + b == b;
    } else {
      assert (a + b)[0] == a[0];
      assert (a + b)[1..] == a[1..] + b;
      UnseenAppend(local, a[1..], b);
    }
  }

  /** On a single remote entry the filter keeps it exactly when its key is new. */
  lemma UnseenSingle(local: seq<Comment>, c: Comment)
    ensures Unseen(local, [c]) == if HasKey(local, KeyOf(c)) then [] else [c]
  {
    assert [c][1..] == [];
  }

  /** Merging into an empty list takes the remote list as it is, duplicates included. */
  lemma {:induction false} MergeIntoEmpty(shared: seq<Comment>)
    ensures Merge([], shared) == shared
  {
    if shared != [] {
      MergeIntoEmpty(shared[1..]);
      assert Unseen([], shared) == [shared[0]] + Unseen([], shared[1..]);
    }
  }

  /** On a key conflict the local entry wins: no appended entry carries a local key. */
  lemma MergeLocalWins(local: seq<Comment>, shared: seq<Comment>, i: nat)
    requires i < |local|
    ensures Merge(local, shared)[i] == local[i]
    ensures forall c :: c in Merge(local, shared)[|local|..] ==> KeyOf(c) != KeyOf(local[i])
  {
    var m := Merge(local, shared);
    assert m[i] == m[..|local|][i];
  }

  lemma HasKeyExtends(cs: seq<Comment>, more: seq<Comment>, k: Key)
    requires HasKey(cs, k)
    ensures HasKey(cs + more, k)
  {
    var i :| 0 <= i < |cs| && KeyOf(cs[i]) == k;
    assert (cs + more)[i] == cs[i];
  }

  lemma {:induction false} UnseenAllKnown(known: seq<Comment>, shared: seq<Comment>)
    requires forall c :: c in shared ==> HasKey(known, KeyOf(c))
    ensures Unseen(known, shared) == []
  {
    if shared != [] {
      assert shared[0] in shared;
      UnseenAllKnown(known, shared[1..]);
    }
  }

  /** Merging the same remote list a second time appends nothing. */
  lemma MergeIdempotent(local: seq<Comment>, shared: seq<Comment>)
    ensures Merge(Merge(local, shared), shared) == Merge(local, shared)
  {
    var m := Merge(local, shared);
    var added := Unseen(local, shared);
    assert m == local + added;
    forall c | c in shared
      ensures HasKey(m, KeyOf(c))
    {
      if HasKey(local, KeyOf(c)) {
        HasKeyExtends(local, added, KeyOf(c));
      } else {
        assert c in added;
        var j :| 0 <= j < |added| && added[j] == c;
        assert m[|local| + j] == c;
      }
    }
    UnseenAllKnown(m, shared);
    assert m + [] == m;
  }

  /** No two entries share a key. */
  predicate UniqueKeys(cs: seq<Comment>) {
    forall i, j :: 0 <= i < j < |cs| ==> KeyOf(cs[i]) != KeyOf(cs[j])
  }

  lemma {:induction false} UnseenUnique(local: seq<Comment>, shared: seq<Comment>)
    requires UniqueKeys(shared)
    ensures UniqueKeys(Unseen(local, shared))
  {
    if shared != [] {
      var tail := shared[1..];
      assert UniqueKeys(tail) by {
        forall i, j | 0 <= i < j < |tail| ensures KeyOf(tail[i]) != KeyOf(tail[j]) {
          assert tail[i] == shared[i + 1] && tail[j] == shared[j + 1];
        }
      }
      UnseenUnique(local, tail);
      var rest := Unseen(local, tail);
      if !HasKey(local, KeyOf(shared[0])) {
        var r := [shared[0]] + rest;
        forall i, j | 0 <= i < j < |r| ensures KeyOf(r[i]) != KeyOf(r[j]) {
          if i == 0 {
            assert r[j] == rest[j - 1] && rest[j - 1] in rest;
            assert r[j] in tail;
            var k :| 0 <= k < |tail| && tail[k] == r[j];
            assert shared[k + 1] == r[j];
          } else {
            assert r[i] == rest[i - 1] && r[j] == rest[j - 1];
          }
        }
      } else {
        assert Unseen(local, shared) == rest;
      }
    }
  }

  /**
   * When both lists are free of duplicate keys, so is the merge: the key
   * uniqueness of a merged list holds only under this condition.
   */
  lemma MergePreservesUniqueKeys(local: seq<Comment>, shared: seq<Comment>)
    requires UniqueKeys(local) && UniqueKeys(shared)
    ensures UniqueKeys(Merge(local, shared))
  {
    var added := Unseen(local, shared);
    UnseenUnique(local, shared);
    var m := local + added;
    forall i, j | 0 <= i < j < |m| ensures KeyOf(m[i]) != KeyOf(m[j]) {
      if j < |local| {
        assert m[i] == local[i] && m[j] == local[j];
      } else if i < |local| {
        assert m[j] == added[j - |local|] && added[j - |local|] in added;
        assert m[i] == local[i];
      } else {
        assert m[i] == added[i - |local|] && m[j] == added[j - |local|];
      }
    }
  }

  /** Duplicates inside the remote list survive the merge: the filter looks only at the local list. */
  lemma RemoteDuplicatesKept(c: Comment)
    ensures Merge([], [c, c]) == [c, c]
    ensures !UniqueKeys(Merge([], [c, c]))
  {
    MergeIntoEmpty([c, c]);
  }
}
