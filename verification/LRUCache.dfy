/** LRUCache.cpp: a doubly linked list of heap nodes with a map from key to node, proved to be
    a list of distinct keys, least recently used first. */
module LRUCaches {
  import opened Bytes
  import opened Config

  ghost predicate Distinct(keys: seq<uint64>) {
    forall i, j :: 0 <= i < j < |keys| ==> keys[i] != keys[j]
  }

  /** The list without a key. */
  function Dropped(keys: seq<uint64>, x: uint64): (r: seq<uint64>)
    ensures x !in keys ==> r == keys
    ensures forall k :: k in r <==> k in keys && k != x
  {
    if keys == [] then []
    else if keys[0] == x then Dropped(keys[1..], x)
    else [keys[0]] + Dropped(keys[1..], x)
  }

  /** A key used again moves to the end. */
  function Refreshed(keys: seq<uint64>, x: uint64): seq<uint64> {
    Dropped(keys, x) + [x]
  }

  lemma {:induction false} DroppedAt(keys: seq<uint64>, i: nat)
    requires Distinct(keys) && i < |keys|
    ensures Dropped(keys, keys[i]) == keys[..i] + keys[i + 1..]
  {
    var rest := keys[1..];
    if i == 0 {
      assert keys[0] !in rest;
      assert Dropped(keys, keys[0]) == Dropped(rest, keys[0]);
    } else {
      DroppedAt(rest, i - 1);
      assert rest[i - 1] == keys[i] && rest[..i - 1] == keys[1..i] && rest[i..] == keys[i + 1..];
      assert Dropped(keys, keys[i]) == [keys[0]] + Dropped(rest, keys[i]);
    }
  }

  lemma {:induction false} DroppedDistinct(keys: seq<uint64>, x: uint64)
    requires Distinct(keys)
    ensures Distinct(Dropped(keys, x))
  {
    if keys != [] {
      DroppedDistinct(keys[1..], x);
      assert keys[0] !in keys[1..];
    }
  }

  /** Using a key keeps the keys distinct and makes it the last to be evicted. */
  lemma RefreshedDistinct(keys: seq<uint64>, x: uint64)
    requires Distinct(keys)
    ensures Distinct(Refreshed(keys, x)) && Refreshed(keys, x)[|Refreshed(keys, x)| - 1] == x
    ensures forall k :: k in Refreshed(keys, x) <==> k in keys || k == x
  {
    DroppedDistinct(keys, x);
    assert x !in Dropped(keys, x);
  }

  /** The head of the list stays the head until it is used or removed itself. */
  lemma HeadStays(keys: seq<uint64>, x: uint64)
    requires keys != [] && keys[0] != x
    ensures Refreshed(keys, x)[0] == keys[0]
    ensures Dropped(keys, x) != [] && Dropped(keys, x)[0] == keys[0]
  {
  }

  /** The map leads from each listed key to the node at its place. */
  ghost predicate Tabled(table: map<uint64, CRec>, keys: seq<uint64>, chain: seq<CRec>) {
    |keys| == |chain| && forall i :: 0 <= i < |keys| ==> keys[i] in table && table[keys[i]] == chain[i]
  }

  lemma TabledDrop(table: map<uint64, CRec>, keys: seq<uint64>, chain: seq<CRec>, i: nat)
    requires Tabled(table, keys, chain) && i < |keys|
    ensures Tabled(table, keys[..i] + keys[i + 1..], chain[..i] + chain[i + 1..])
  {
    var ks, cs := keys[..i] + keys[i + 1..], chain[..i] + chain[i + 1..];
    forall j | 0 <= j < |ks| ensures ks[j] in table && table[ks[j]] == cs[j] {
      var j' := if j < i then j else j + 1;
      assert ks[j] == keys[j'] && cs[j] == chain[j'];
    }
  }

  lemma TabledAdd(table: map<uint64, CRec>, keys: seq<uint64>, chain: seq<CRec>, x: uint64, p: CRec)
    requires Tabled(table, keys, chain) && x !in keys
    ensures Tabled(table[x := p], keys + [x], chain + [p])
  {
  }

  lemma TabledRemove(table: map<uint64, CRec>, keys: seq<uint64>, chain: seq<CRec>, x: uint64)
    requires Tabled(table, keys, chain) && x !in keys
    ensures Tabled(table - {x}, keys, chain)
  {
  }

  class CRec {
    var key: uint64
    var prev: CRec?
    var next: CRec?

    constructor (key: uint64)
      ensures this.key == key && prev == null && next == null
    {
      this.key, prev, next := key, null, null;
    }
  }

  class LRUCache {
    var first: CRec?
    var last: CRec?
    var table: map<uint64, CRec>
    ghost var chain: seq<CRec>     // the nodes in list order
    ghost var keys: seq<uint64>    // their keys: the value that the cache stands for

    ghost predicate Links()
      reads this`first, this`last, this`chain, this`keys, chain
    {
      && (forall i, j :: 0 <= i < j < |chain| ==> chain[i] != chain[j])
      && first == (if chain == [] then null else chain[0])
      && last == (if chain == [] then null else chain[|chain| - 1])
      && (forall i {:trigger chain[i].prev} :: 0 <= i < |chain| ==>
           chain[i].prev == if i == 0 then null else chain[i - 1])
      && (forall i {:trigger chain[i].next} :: 0 <= i < |chain| ==>
           chain[i].next == if i == |chain| - 1 then null else chain[i + 1])
      && |keys| == |chain|
      && forall i {:trigger chain[i].key} {:trigger keys[i]} :: 0 <= i < |chain| ==> chain[i].key == keys[i]
    }

    ghost predicate Ok()
      reads this, chain
    {
      && Links()
      && Distinct(keys)
      && Tabled(table, keys, chain)
      && (forall k :: k in table ==> k in keys)
    }

    lemma InTable()
      requires Ok()
      ensures forall k :: k in keys <==> k in table
    {
    }

    lemma LastInChain()
      requires Links()
      ensures last != null ==> last in chain
    {
    }

    constructor ()
      ensures Ok() && keys == [] && fresh(chain)
    {
      first, last, table, chain, keys := null, null, map[], [], [];
    }

    /** ChangeChain: takes a node out of the list. */
    method ChangeChain(p: CRec, ghost i: nat)
      requires Links() && i < |chain| && chain[i] == p
      modifies this`first, this`last, this`chain, this`keys, chain
      ensures Links()
      ensures chain == old(chain)[..i] + old(chain)[i + 1..] && keys == old(keys)[..i] + old(keys)[i + 1..]
    {
      ghost var c, n := chain, |chain|;
      assert p.prev == (if i == 0 then null else c[i - 1]) && p.next == (if i == n - 1 then null else c[i + 1]);
      assert p == first <==> i == 0;
      assert p == last <==> i == n - 1;
      if p == first {
        first := p.next;
        if first != null {
          assert first == c[1];
          first.prev := null;
        }
      }
      if p == last {
        last := p.prev;
      }
      if p.prev != null {
        assert p.prev == c[i - 1];
        p.prev.next := p.next;
        if p.next != null {
          assert p.next == c[i + 1];
          p.next.prev := p.prev;
        }
      }
      chain := chain[..i] + chain[i + 1..];
      keys := keys[..i] + keys[i + 1..];
    }

    /** Takes the node of a stored key out of the list; the map entry is left to the caller. */
    method Unlink(x: uint64)
      requires Ok() && x in table
      modifies this`first, this`last, this`chain, this`keys, chain
      ensures Links() && keys == Dropped(old(keys), x) && Tabled(table, keys, chain)
      ensures forall c :: c in chain ==> c in old(chain)
    {
      hide Dropped;
      var p := table[x];
      ghost var i :| 0 <= i < |keys| && keys[i] == x;
      DroppedAt(keys, i);
      TabledDrop(table, keys, chain, i);
      assert chain[i] == p;
      ChangeChain(p, i);
    }

    /** put: the key becomes the most recently used one. */
    method Put(x: uint64)
      requires Ok()
      modifies this, chain
      ensures Ok() && (forall c :: c in chain ==> c in old(chain) || fresh(c))
      ensures keys == Refreshed(old(keys), x)
      ensures forall k :: k in keys <==> k in old(keys) || k == x
    {
      hide Dropped, Tabled, Distinct, Links;
      RefreshedDistinct(keys, x);
      InTable();
      if x in table {
        Unlink(x);
      }
      assert keys == Dropped(old(keys), x);
      var p := new CRec(x);
      LastInChain();
      TabledAdd(table, keys, chain, x, p);
      AddLast(p);
      table := table[x := p];
    }

    /** The second half of put: links a new node at the end. */
    method AddLast(p: CRec)
      requires Links() && p !in chain && p.next == null
      modifies this`first, this`last, this`chain, this`keys, p, if last == null then {} else {last}
      ensures Links() && chain == old(chain) + [p] && keys == old(keys) + [p.key] && p.key == old(p.key)
    {
      if first == null {
        first := p;
      }
      p.prev := last;
      if last != null {
        assert last == chain[|chain| - 1];
        last.next := p;
      }
      last := p;
      chain := chain + [p];
      keys := keys + [p.key];
    }

    /** remove: false when the key is not there. */
    method Remove(x: uint64) returns (found: bool)
      requires Ok()
      modifies this, chain
      ensures Ok() && (forall c :: c in chain ==> c in old(chain))
      ensures found == (x in old(keys)) && keys == Dropped(old(keys), x)
      ensures forall k :: k in keys <==> k in old(keys) && k != x
    {
      hide Dropped, Tabled, Distinct, Links;
      DroppedDistinct(keys, x);
      InTable();
      if x in table {
        Unlink(x);
        TabledRemove(table, keys, chain, x);
        table := table - {x};
        return true;
      }
      return false;
    }

    /** get: the least recently used key. */
    method Get() returns (key: Option<uint64>)
      requires Ok()
      ensures key == if keys == [] then None else Some(keys[0])
    {
      if first != null {
        return Some(first.key);
      }
      return None;
    }
  }

  lemma HeadDropped(lru: LRUCache)
    requires lru.Ok() && lru.keys != []
    ensures Dropped(lru.keys, lru.keys[0]) == lru.keys[1..]
  {
    DroppedAt(lru.keys, 0);
  }
}
