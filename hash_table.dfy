/**
 * The hash-table collision visualizer: a fixed table of 8 buckets ("pods"), each holding a
 * chain of key/value entries, with insert-or-update, delete, and the collision notice that an
 * insert into an occupied bucket raises.
 */
module HashTable {
  import opened Wrappers

  /** Number of buckets; fixed for the widget's lifetime. */
  const TableSize: nat := 8

  // ---------------------------------------------------------------------------------------
  // The hash function

  /** Sum of the character codes of `key`. */
  function CharSum(key: string): nat
  {
    if key == [] then 0 else CharSum(key[..|key| - 1]) + key[|key| - 1] as nat
  }

  /** The bucket a key belongs to. */
  function Bucket(key: string): (i: nat)
    ensures i < TableSize
  {
    CharSum(key) % TableSize
  }

  /** The hash: accumulates the character codes in a loop and reduces the total modulo the table size. */
  method Hash(key: string) returns (index: nat)
    ensures index == CharSum(key) % TableSize
    ensures index < TableSize
  {
    var total := 0;
    for i := 0 to |key|
      invariant total == CharSum(key[..i])
    {
      assert key[..i + 1][..i] == key[..i];
      total := total + key[i] as nat;
    }
    assert key[..|key|] == key;
    index := total % TableSize;
  }

  /** The character-code sum of a concatenation is the sum of the parts' sums. */
  lemma {:induction false} CharSumConcat(a: string, b: string)
    ensures CharSum(a + b) == CharSum(a) + CharSum(b)
    decreases |b|
  {
    if b != [] {
      assert (a + b)[..|a + b| - 1] == a + b[..|b| - 1];
      CharSumConcat(a, b[..|b| - 1]);
    } else {
      assert a + b == a;
    }
  }

  /** Taking the character at `j` out of a key lowers its sum by that character's code. */
  lemma CharSumRemoveAt(b: string, j: nat)
    requires j < |b|
    ensures CharSum(b) == CharSum(b[..j] + b[j + 1..]) + b[j] as nat
  {
    var c := b[j];
    assert b == b[..j] + ([c] + b[j + 1..]);
    CharSumConcat(b[..j], b[j + 1..]);
    CharSumConcat(b[..j], [c] + b[j + 1..]);
    CharSumConcat([c], b[j + 1..]);
    assert CharSum([c]) == c as nat by {
      assert [c][..0] == [];
    }
  }

  /** The sum, and so the bucket, depends only on the multiset of characters of the key. */
  lemma {:induction false} CharSumPermutation(a: string, b: string)
    requires multiset(a) == multiset(b)
    ensures CharSum(a) == CharSum(b)
    ensures Bucket(a) == Bucket(b)
    decreases |a|
  {
    if a == [] {
      assert |b| == |multiset(b)| == 0;
    } else {
      var n := |a| - 1;
      var c := a[n];
      assert c in multiset(b) by {
        assert a == a[..n] + [c];
      }
      var j :| 0 <= j < |b| && b[j] == c;
      var b' := b[..j] + b[j + 1..];
      assert multiset(a[..n]) == multiset(b') by {
        assert a == a[..n] + [c];
        assert b == b[..j] + [c] + b[j + 1..];
        assert multiset(a[..n]) == multiset(a) - multiset{c};
        assert multiset(b') == multiset(b) - multiset{c};
      }
      CharSumPermutation(a[..n], b');
      CharSumRemoveAt(b, j);
    }
  }

  /** The worked example: "cat" sums to 312 and lands in bucket 0, and so does its anagram "act". */
  lemma BucketOfCatAndAct()
    ensures CharSum("cat") == 312
    ensures Bucket("cat") == 0 && Bucket("act") == 0
  {
    assert "cat"[..2] == "ca" && "ca"[..1] == "c" && "c"[..0] == "";
    CharSumPermutation("cat", "act");
  }

  // ---------------------------------------------------------------------------------------
  // Chains

  datatype Entry = Entry(key: string, value: string)

  /** The chain stored for bucket `i`; an absent bucket reads as the empty chain. */
  function ChainAt(items: map<nat, seq<Entry>>, i: nat): seq<Entry>
  {
    if i in items then items[i] else []
  }

  predicate UniqueKeys(chain: seq<Entry>)
  {
    forall a, b :: 0 <= a < b < |chain| ==> chain[a].key != chain[b].key
  }

  predicate KeyAbsent(chain: seq<Entry>, key: string)
  {
    forall j :: 0 <= j < |chain| ==> chain[j].key != key
  }

  /**
   * The invariant of the bucket map: no bucket is stored as an empty chain, keys are unique
   * within a chain, every entry has a non-empty key and value, and every key sits in the
   * bucket it hashes to.
   */
  ghost predicate WellFormed(items: map<nat, seq<Entry>>)
  {
    forall i | i in items ::
      && items[i] != []
      && UniqueKeys(items[i])
      && forall e | e in items[i] :: e.key != "" && e.value != "" && Bucket(e.key) == i
  }

  /** The position of the first entry with `key`, or -1 (the chain's `findIndex`). */
  method FindIndex(chain: seq<Entry>, key: string) returns (k: int)
    ensures -1 <= k < |chain|
    ensures k == -1 <==> KeyAbsent(chain, key)
    ensures k != -1 ==> chain[k].key == key && KeyAbsent(chain[..k], key)
  {
    k := 0;
    while k < |chain|
      invariant 0 <= k <= |chain|
      invariant KeyAbsent(chain[..k], key)
    {
      if chain[k].key == key {
        return;
      }
      k := k + 1;
    }
    assert chain[..k] == chain;
    k := -1;
  }

  /**
   * Insert-or-update on one chain, as a reference definition: the first entry carrying `key`
   * takes the new value; when there is none, a new entry goes at the end.
   */
  function Upsert(chain: seq<Entry>, key: string, value: string): (r: seq<Entry>)
    ensures r != [] && |chain| <= |r| <= |chain| + 1
  {
    if chain == [] then [Entry(key, value)]
    else if chain[0].key == key then [Entry(key, value)] + chain[1..]
    else [chain[0]] + Upsert(chain[1..], key, value)
  }

  /** A key not yet in the chain is appended: the chain grows by exactly one, at its end. */
  lemma {:induction false} UpsertAbsent(chain: seq<Entry>, key: string, value: string)
    requires KeyAbsent(chain, key)
    ensures Upsert(chain, key, value) == chain + [Entry(key, value)]
  {
    if chain != [] {
      UpsertAbsent(chain[1..], key, value);
      assert chain == [chain[0]] + chain[1..];
    }
  }

  /** A key already in the chain keeps its place: only that entry's value changes. */
  lemma {:induction false} UpsertPresent(chain: seq<Entry>, key: string, value: string, k: nat)
    requires k < |chain| && chain[k].key == key && KeyAbsent(chain[..k], key)
    ensures Upsert(chain, key, value) == chain[k := Entry(key, value)]
  {
    if k > 0 {
      assert chain[1..][..k - 1] == chain[1..k];
      UpsertPresent(chain[1..], key, value, k - 1);
    }
  }

  /** Insert-or-update keeps keys unique and only ever adds the new entry. */
  lemma UpsertKeepsUnique(chain: seq<Entry>, key: string, value: string)
    requires UniqueKeys(chain)
    ensures UniqueKeys(Upsert(chain, key, value))
    ensures Upsert(chain, key, value) != []
    ensures forall e | e in Upsert(chain, key, value) :: e in chain || e == Entry(key, value)
  {
    var r := Upsert(chain, key, value);
    if KeyAbsent(chain, key) {
      UpsertAbsent(chain, key, value);
      assert r == chain + [Entry(key, value)];
    } else {
      var k0 :| 0 <= k0 < |chain| && chain[k0].key == key;
      assert KeyAbsent(chain[..k0], key) by {
        forall j | 0 <= j < k0 ensures chain[j].key != key {
          assert chain[j].key != chain[k0].key;
        }
      }
      UpsertPresent(chain, key, value, k0);
      assert r == chain[k0 := Entry(key, value)];
      forall e | e in r ensures e in chain || e == Entry(key, value) {
        var i :| 0 <= i < |r| && r[i] == e;
        if i != k0 {
          assert e == chain[i];
        }
      }
    }
  }

  /** The chain with every entry for `key` filtered out; the survivors keep their order. */
  function Without(chain: seq<Entry>, key: string): (r: seq<Entry>)
    ensures |r| <= |chain|
  {
    if chain == [] then []
    else (if chain[0].key == key then [] else [chain[0]]) + Without(chain[1..], key)
  }

  /** The filter keeps exactly the entries whose key differs from `key`. */
  lemma {:induction false} WithoutMembers(chain: seq<Entry>, key: string)
    ensures forall e :: e in Without(chain, key) <==> e in chain && e.key != key
  {
    if chain != [] {
      WithoutMembers(chain[1..], key);
      assert chain == [chain[0]] + chain[1..];
    }
  }

  /** Filtering out a key the chain does not hold leaves the chain as it was. */
  lemma {:induction false} WithoutAbsent(chain: seq<Entry>, key: string)
    requires KeyAbsent(chain, key)
    ensures Without(chain, key) == chain
  {
    if chain != [] {
      WithoutAbsent(chain[1..], key);
      assert chain == [chain[0]] + chain[1..];
    }
  }

  /** In a chain with unique keys, deleting the key at position `k` removes exactly that entry. */
  lemma {:induction false} WithoutUnique(chain: seq<Entry>, key: string, k: nat)
    requires UniqueKeys(chain) && k < |chain| && chain[k].key == key
    ensures Without(chain, key) == chain[..k] + chain[k + 1..]
    ensures |Without(chain, key)| == |chain| - 1
  {
    var tail := chain[1..];
    if k == 0 {
      assert KeyAbsent(tail, key) by {
        forall j | 0 <= j < |tail| ensures tail[j].key != key {
          assert chain[0].key != chain[j + 1].key;
        }
      }
      WithoutAbsent(tail, key);
      assert chain[..0] + chain[1..] == tail;
    } else {
      assert UniqueKeys(tail) by {
        forall a, b | 0 <= a < b < |tail| ensures tail[a].key != tail[b].key {
          assert chain[a + 1].key != chain[b + 1].key;
        }
      }
      assert chain[0].key != chain[k].key;
      WithoutUnique(tail, key, k - 1);
      assert Without(chain, key) == [chain[0]] + (tail[..k - 1] + tail[k..]);
      assert chain[..k] == [chain[0]] + tail[..k - 1];
      assert chain[k + 1..] == tail[k..];
    }
  }

  /** Filtering keeps the keys of a chain unique. */
  lemma {:induction false} WithoutKeepsUnique(chain: seq<Entry>, key: string)
    requires UniqueKeys(chain)
    ensures UniqueKeys(Without(chain, key))
  {
    if chain != [] {
      var tail := chain[1..];
      assert UniqueKeys(tail) by {
        forall a, b | 0 <= a < b < |tail| ensures tail[a].key != tail[b].key {
          assert chain[a + 1].key != chain[b + 1].key;
        }
      }
      var rest := Without(tail, key);
      WithoutKeepsUnique(tail, key);
      if chain[0].key != key {
        WithoutMembers(tail, key);
        var r := [chain[0]] + rest;
        assert Without(chain, key) == r;
        forall a, b | 0 <= a < b < |r| ensures r[a].key != r[b].key {
          if a == 0 {
            assert r[b] in tail;
            var j :| 0 <= j < |tail| && tail[j] == r[b];
            assert chain[j + 1] == r[b];
          } else {
            assert r[a] == rest[a - 1] && r[b] == rest[b - 1];
          }
        }
      } else {
        assert Without(chain, key) == rest;
      }
    }
  }

  // ---------------------------------------------------------------------------------------
  // The bucket map

  /** The bucket map after an insert of `key` with `value` (an empty key or value changes nothing). */
  function InsertItem(items: map<nat, seq<Entry>>, key: string, value: string): (r: map<nat, seq<Entry>>)
    ensures key == "" || value == "" ==> r == items
    ensures key != "" && value != "" ==>
      && Bucket(key) in r
      && Entry(key, value) in r[Bucket(key)]
      && forall j :: j != Bucket(key) ==> ChainAt(r, j) == ChainAt(items, j)
  {
    if key == "" || value == "" then items
    else
      var i := Bucket(key);
      var chain := Upsert(ChainAt(items, i), key, value);
      assert Entry(key, value) in chain by {
        var old_chain := ChainAt(items, i);
        if KeyAbsent(old_chain, key) {
          UpsertAbsent(old_chain, key, value);
          assert chain[|old_chain|] == Entry(key, value);
        } else {
          UpsertEntryPresent(old_chain, key, value);
        }
      }
      items[i := chain]
  }

  lemma {:induction false} UpsertEntryPresent(chain: seq<Entry>, key: string, value: string)
    ensures Entry(key, value) in Upsert(chain, key, value)
  {
    if chain != [] && chain[0].key != key {
      UpsertEntryPresent(chain[1..], key, value);
    }
  }

  /** The bucket map after deleting `key` from bucket `index`; a chain left empty drops its bucket. */
  function DeleteItem(items: map<nat, seq<Entry>>, index: nat, key: string): (r: map<nat, seq<Entry>>)
    requires index in items
    ensures ChainAt(r, index) == Without(items[index], key)
    ensures index in r <==> Without(items[index], key) != []
    ensures forall j :: j != index ==> ChainAt(r, j) == ChainAt(items, j)
  {
    var rest := Without(items[index], key);
    if rest == [] then items - {index} else items[index := rest]
  }

  /** An insert preserves the invariant of the bucket map. */
  lemma InsertPreservesWellFormed(items: map<nat, seq<Entry>>, key: string, value: string)
    requires WellFormed(items)
    ensures WellFormed(InsertItem(items, key, value))
  {
    if key != "" && value != "" {
      var i := Bucket(key);
      var chain := ChainAt(items, i);
      UpsertKeepsUnique(chain, key, value);
    }
  }

  /** A delete preserves the invariant of the bucket map. */
  lemma DeletePreservesWellFormed(items: map<nat, seq<Entry>>, index: nat, key: string)
    requires WellFormed(items) && index in items
    ensures WellFormed(DeleteItem(items, index, key))
  {
    WithoutKeepsUnique(items[index], key);
    WithoutMembers(items[index], key);
  }

  // ---------------------------------------------------------------------------------------
  // The widget's state

  datatype Operation =
    | Inserted(index: nat, key: string, value: string)
    | Deleted(index: nat, key: string)

  /** The collision notice: the bucket hit and the key that caused it. */
  datatype CollisionAlert = CollisionAlert(index: nat, newKey: string)

  class HashTableVisualizer {
    var items: map<nat, seq<Entry>>
    var lastOperation: Option<Operation>
    var collisionAlert: Option<CollisionAlert>
    var highlightedIndex: Option<nat>

    ghost predicate Valid()
      reads this
    {
      WellFormed(items)
    }

    constructor ()
      ensures Valid()
      ensures items == map[] && lastOperation == None
      ensures collisionAlert == None && highlightedIndex == None
    {
      items := map[];
      lastOperation := None;
      collisionAlert := None;
      highlightedIndex := None;
    }

    /**
     * The insert handler. With a non-empty key and value it upserts into the key's bucket,
     * highlights that bucket, and raises the collision notice exactly when the bucket was
     * already occupied (an update of an existing key included); otherwise it records an
     * insert as the last operation.
     */
    method Add(key: string, value: string)
      requires Valid()
      modifies this
      ensures Valid()
      ensures key == "" || value == "" ==> unchanged(this)
      ensures key != "" && value != "" ==>
        var i := Bucket(key);
        && items == InsertItem(old(items), key, value)
        && items[i] == Upsert(ChainAt(old(items), i), key, value)
        && highlightedIndex == Some(i)
        && if ChainAt(old(items), i) != [] then
             collisionAlert == Some(CollisionAlert(i, key)) && lastOperation == old(lastOperation)
           else
             collisionAlert == old(collisionAlert) && lastOperation == Some(Inserted(i, key, value))
    {
      if key != "" && value != "" {
        var index := Hash(key);
        var isCollision := index in items && |items[index]| > 0;
        var chain := if index in items then items[index] else [];
        var existing := FindIndex(chain, key);
        if existing != -1 {
          UpsertPresent(chain, key, value, existing);
          chain := chain[existing := Entry(key, value)];
        } else {
          UpsertAbsent(chain, key, value);
          chain := chain + [Entry(key, value)];
        }
        InsertPreservesWellFormed(items, key, value);
        items := items[index := chain];
        highlightedIndex := Some(index);
        if isCollision {
          collisionAlert := Some(CollisionAlert(index, key));
        } else {
          lastOperation := Some(Inserted(index, key, value));
        }
      }
    }

    /**
     * The delete handler. On a bucket that is not in the map the handler's `filter` call fails
     * before any state is set (`thrown`); otherwise the key is filtered out of the chain, an
     * emptied bucket is dropped, the delete is recorded and the collision notice is cleared.
     */
    method Delete(index: nat, key: string) returns (thrown: bool)
      requires Valid()
      modifies this
      ensures Valid()
      ensures thrown <==> index !in old(items)
      ensures thrown ==> unchanged(this)
      ensures !thrown ==>
        && items == DeleteItem(old(items), index, key)
        && lastOperation == Some(Deleted(index, key))
        && collisionAlert == None
        && highlightedIndex == old(highlightedIndex)
    {
      if index !in items {
        return true;
      }
      thrown := false;
      DeletePreservesWellFormed(items, index, key);
      var rest := Without(items[index], key);
      var newItems := items[index := rest];
      if |rest| == 0 {
        newItems := newItems - {index};
      }
      assert newItems == DeleteItem(items, index, key);
      items := newItems;
      lastOperation := Some(Deleted(index, key));
      collisionAlert := None;
    }
  }

  /**
   * The worked example: "cat" then its anagram "act" share bucket 0; the second insert appends
   * in insertion order and raises the collision notice, the first does not. Re-inserting "cat"
   * overwrites in place and, as the handler is written, raises the notice again.
   */
  method CatThenAct() returns (first: Option<CollisionAlert>, second: Option<CollisionAlert>,
                               chain: seq<Entry>, third: Option<CollisionAlert>, updated: seq<Entry>)
    ensures first == None
    ensures chain == [Entry("cat", "x"), Entry("act", "y")]
    ensures second == Some(CollisionAlert(0, "act"))
    ensures updated == [Entry("cat", "z"), Entry("act", "y")]
    ensures third == Some(CollisionAlert(0, "cat"))
  {
    BucketOfCatAndAct();
    var t := new HashTableVisualizer();
    t.Add("cat", "x");
    first := t.collisionAlert;
    t.Add("act", "y");
    second := t.collisionAlert;
    chain := t.items[0];
    t.Add("cat", "z");
    third := t.collisionAlert;
    updated := t.items[0];
  }
}
