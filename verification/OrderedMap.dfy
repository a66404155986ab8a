/** A list with a table that finds its nodes by key. Models the OrderedMapAnyEntry template. */
module OrderedMaps {
  import opened Bytes

  /** A node of the list; the table holds references to nodes, as the program holds list iterators. */
  class Node<K, V> {
    const key: K
    const value: V

    constructor (key: K, value: V)
      ensures this.key == key && this.value == value
    {
      this.key := key;
      this.value := value;
    }
  }

  // ---------------------------------------------------------------------------------------------
  // What a map looks like from outside: a sequence of entries with distinct keys

  ghost predicate Distinct<K, V>(entries: seq<(K, V)>) {
    forall i, j :: 0 <= i < j < |entries| ==> entries[i].0 != entries[j].0
  }

  lemma DistinctPrefix<K, V>(entries: seq<(K, V)>, n: nat)
    requires n < |entries| && Distinct(entries[..n + 1])
    ensures Distinct(entries[..n])
    ensures forall i :: 0 <= i < n ==> entries[i].0 != entries[n].0
  {
    var front := entries[..n + 1];
    forall i | 0 <= i < n ensures entries[i].0 != entries[n].0 {
      assert front[i].0 != front[n].0;
    }
    forall i, j | 0 <= i < j < n ensures entries[i].0 != entries[j].0 {
      assert front[i].0 != front[j].0;
    }
  }

  predicate Has<K(==), V>(entries: seq<(K, V)>, key: K) { exists i :: 0 <= i < |entries| && entries[i].0 == key }

  function Erased<K(==), V>(entries: seq<(K, V)>, key: K): seq<(K, V)> {
    if entries == [] then [] else if entries[0].0 == key then entries[1..] else [entries[0]] + Erased(entries[1..], key)
  }

  /** The entry goes, and everything before it and after it stays in place. */
  lemma {:induction false} ErasedAt<K, V>(entries: seq<(K, V)>, i: nat)
    requires Distinct(entries) && i < |entries|
    ensures Erased(entries, entries[i].0) == entries[..i] + entries[i + 1..]
  {
    if i > 0 {
      ErasedAt(entries[1..], i - 1);
      assert entries[..i] == [entries[0]] + entries[1..][..i - 1] && entries[i + 1..] == entries[1..][i..];
    }
  }

  lemma {:induction false} ErasedAbsent<K, V>(entries: seq<(K, V)>, key: K)
    requires !Has(entries, key)
    ensures Erased(entries, key) == entries
  {
    if entries != [] {
      assert entries[0].0 != key;
      forall i | 0 <= i < |entries[1..]| ensures entries[1..][i].0 != key {
        assert entries[i + 1].0 != key;
      }
      ErasedAbsent(entries[1..], key);
    }
  }

  /** Cutting one entry out keeps the keys distinct, takes away its key and no other entry. */
  lemma CutKeeps<K, V>(entries: seq<(K, V)>, i: nat)
    requires Distinct(entries) && i < |entries|
    ensures var rest := entries[..i] + entries[i + 1..];
      Distinct(rest) && !Has(rest, entries[i].0) && forall e :: e in rest <==> e in entries && e.0 != entries[i].0
  {
    var rest := entries[..i] + entries[i + 1..];
    forall j | 0 <= j < |rest| ensures rest[j] == entries[if j < i then j else j + 1] && rest[j].0 != entries[i].0 {}
    forall e | e in entries && e.0 != entries[i].0 ensures e in rest {
      var j :| 0 <= j < |entries| && entries[j] == e;
      assert rest[if j < i then j else j - 1] == e;
    }
    forall e | e in rest ensures e in entries && e.0 != entries[i].0 {
      var j :| 0 <= j < |rest| && rest[j] == e;
    }
  }

  /** Erasing keeps the keys distinct, takes away the one key and no other entry. */
  lemma ErasedKeeps<K, V>(entries: seq<(K, V)>, key: K)
    requires Distinct(entries)
    ensures Distinct(Erased(entries, key)) && !Has(Erased(entries, key), key)
    ensures forall e :: e in Erased(entries, key) <==> e in entries && e.0 != key
  {
    if Has(entries, key) {
      var i :| 0 <= i < |entries| && entries[i].0 == key;
      ErasedAt(entries, i);
      CutKeeps(entries, i);
    } else {
      ErasedAbsent(entries, key);
      forall e | e in entries ensures e.0 != key {
        var j :| 0 <= j < |entries| && entries[j] == e;
      }
    }
  }

  /** Taking a new entry back out again, from either end, restores the map. */
  lemma EraseUndoesEnqueue<K, V>(entries: seq<(K, V)>, key: K, value: V)
    requires Distinct(entries) && !Has(entries, key)
    ensures Erased([(key, value)] + entries, key) == entries
    ensures Erased(entries + [(key, value)], key) == entries
  {
    var back := entries + [(key, value)];
    assert Distinct(back);
    ErasedAt(back, |entries|);
  }

  class OrderedMap<K(==), V(==)> {
    var queue: seq<Node<K, V>>
    var lookup: map<K, Node<K, V>>

    ghost function Entries(): seq<(K, V)>
      reads this
    {
      EntriesOf(queue)
    }

    static ghost function EntriesOf(nodes: seq<Node<K, V>>): (entries: seq<(K, V)>)
      ensures |entries| == |nodes| && forall i :: 0 <= i < |nodes| ==> entries[i] == (nodes[i].key, nodes[i].value)
    {
      seq(|nodes|, i requires 0 <= i < |nodes| => (nodes[i].key, nodes[i].value))
    }

    static lemma EntriesCut(nodes: seq<Node<K, V>>, i: nat)
      requires i < |nodes|
      ensures EntriesOf(nodes[..i] + nodes[i + 1..]) == EntriesOf(nodes)[..i] + EntriesOf(nodes)[i + 1..]
    {
    }

    /** The table maps exactly the listed keys to the nodes that hold them. */
    static ghost predicate Wired(queue: seq<Node<K, V>>, lookup: map<K, Node<K, V>>) {
      && (forall i, j :: 0 <= i < j < |queue| ==> queue[i].key != queue[j].key)
      && (forall i :: 0 <= i < |queue| ==> queue[i].key in lookup && lookup[queue[i].key] == queue[i])
      && (forall k :: k in lookup ==> lookup[k] in queue && lookup[k].key == k)
    }

    ghost predicate Valid()
      reads this
    {
      Wired(queue, lookup)
    }

    static lemma AppendWired(nodes: seq<Node<K, V>>, lookup: map<K, Node<K, V>>, node: Node<K, V>)
      requires Wired(nodes, lookup) && node.key !in lookup
      ensures Wired(nodes + [node], lookup[node.key := node])
    {
      assert (nodes + [node])[|nodes|] == node;
    }

    constructor ()
      ensures Valid() && Entries() == []
    {
      queue, lookup := [], map[];
    }

    /** From a list of entries. The list is kept as it is, so the map is in order exactly if no key is repeated. */
    constructor FromList(entries: seq<(K, V)>)
      ensures Entries() == entries
      ensures Valid() <==> Distinct(entries)
    {
      queue, lookup := [], map[];
      new;
      for n := 0 to |entries|
        invariant |queue| == n
        invariant forall i :: 0 <= i < n ==> queue[i].key == entries[i].0 && queue[i].value == entries[i].1
        invariant forall i :: 0 <= i < n ==> allocated(queue[i])
        invariant forall k :: k in lookup ==> lookup[k] in queue && lookup[k].key == k
        invariant Distinct(entries[..n]) ==> Valid()
      {
        var node := new Node(entries[n].0, entries[n].1);
        if Distinct(entries[..n + 1]) {
          DistinctPrefix(entries, n);
          assert node.key !in lookup;
          AppendWired(queue, lookup, node);
        }
        queue := queue + [node];
        lookup := lookup[node.key := node];
      }
      assert entries[..|entries|] == entries;
      if Valid() {
        forall i, j | 0 <= i < j < |entries| ensures entries[i].0 != entries[j].0 {
          assert queue[i].key != queue[j].key;
        }
      }
    }

    predicate Exists(key: K)
      requires Valid()
      reads this
      ensures Exists(key) <==> Has(Entries(), key)
    {
      ListedExactly(key);
      key in lookup
    }

    lemma ListedExactly(key: K)
      requires Valid()
      ensures key in lookup <==> Has(Entries(), key)
    {
      if key in lookup {
        var i :| 0 <= i < |queue| && queue[i] == lookup[key];
        assert Entries()[i].0 == key;
      }
      if Has(Entries(), key) {
        var i :| 0 <= i < |Entries()| && Entries()[i].0 == key;
        assert queue[i].key == key;
      }
    }

    /** Where a listed key is. */
    ghost function Position(key: K): (i: nat)
      requires Valid() && key in lookup
      reads this
      ensures i < |queue| && queue[i] == lookup[key] && Entries()[i] == (key, lookup[key].value)
      ensures Distinct(Entries()) && Erased(Entries(), key) == Entries()[..i] + Entries()[i + 1..]
    {
      var i :| 0 <= i < |queue| && queue[i] == lookup[key];
      ErasedAt(Entries(), i);
      i
    }

    /** The entry with the key. */
    function Find(key: K): (value: Option<V>)
      requires Valid()
      reads this
      ensures value.Some? ==> (key, value.value) in Entries()
      ensures value.None? ==> !Has(Entries(), key)
    {
      ListedExactly(key);
      if key in lookup then
        assert Entries()[Position(key)] == (key, lookup[key].value);
        Some(lookup[key].value)
      else None
    }

    /** Takes a node off the list, and its key off the table. */
    method Unlink(node: Node<K, V>)
      requires Valid() && node in queue
      modifies this
      ensures Valid() && Entries() == Erased(old(Entries()), node.key)
    {
      hide Wired, Erased, Distinct;
      WiredNode(queue, lookup, node);
      ghost var p := Position(node.key);
      var i :| 0 <= i < |queue| && queue[i] == node;
      assert i == p;
      lookup := lookup - {node.key};
      queue := queue[..i] + queue[i + 1..];
      EntriesCut(old(queue), i);
      CutWired(old(queue), old(lookup), i);
    }

    static lemma WiredNode(queue: seq<Node<K, V>>, lookup: map<K, Node<K, V>>, node: Node<K, V>)
      requires Wired(queue, lookup) && node in queue
      ensures node.key in lookup && lookup[node.key] == node
      ensures forall i, j :: 0 <= i < j < |queue| ==> queue[i] != queue[j]
    {
    }

    static lemma WiredDistinct(queue: seq<Node<K, V>>, lookup: map<K, Node<K, V>>)
      requires Wired(queue, lookup)
      ensures Distinct(EntriesOf(queue))
    {
    }

    static lemma CutWired(nodes: seq<Node<K, V>>, lookup: map<K, Node<K, V>>, i: nat)
      requires Wired(nodes, lookup) && i < |nodes|
      ensures Wired(nodes[..i] + nodes[i + 1..], lookup - {nodes[i].key})
    {
      CutNodes(nodes, i);
    }

    static lemma CutNodes(nodes: seq<Node<K, V>>, i: nat)
      requires i < |nodes|
      requires forall j, k :: 0 <= j < k < |nodes| ==> nodes[j].key != nodes[k].key
      ensures var rest := nodes[..i] + nodes[i + 1..];
        && (forall j, k :: 0 <= j < k < |rest| ==> rest[j].key != rest[k].key)
        && (forall j :: 0 <= j < |rest| ==> rest[j] in nodes && rest[j] != nodes[i] && rest[j].key != nodes[i].key)
        && (forall n :: n in nodes && n != nodes[i] ==> n in rest)
    {
      var rest := nodes[..i] + nodes[i + 1..];
      forall j | 0 <= j < |rest| ensures rest[j] == nodes[if j < i then j else j + 1] {}
      forall n | n in nodes && n != nodes[i] ensures n in rest {
        var j :| 0 <= j < |nodes| && nodes[j] == n;
        assert rest[if j < i then j else j - 1] == n;
      }
    }

    method Erase(key: K) returns (found: bool)
      requires Valid()
      modifies this
      ensures Valid() && found == Has(old(Entries()), key)
      ensures Entries() == Erased(old(Entries()), key)
    {
      found := Exists(key);
      if !found {
        ErasedAbsent(Entries(), key);
        return;
      }
      Unlink(lookup[key]);
    }

    method Pop(key: K) returns (value: Option<V>)
      requires Valid()
      modifies this
      ensures Valid() && Entries() == Erased(old(Entries()), key)
      ensures value.Some? ==> (key, value.value) in old(Entries())
      ensures value.None? ==> !Has(old(Entries()), key)
    {
      value := Find(key);
      if value.None? {
        ErasedAbsent(Entries(), key);
        return;
      }
      Unlink(lookup[key]);
    }

    method PopFront() returns (entry: (K, V))
      requires Valid() && Entries() != []
      modifies this
      ensures Valid() && old(Entries()) == [entry] + Entries()
    {
      hide Wired, Erased, Distinct;
      var node := queue[0];
      WiredDistinct(queue, lookup);
      ErasedAt(Entries(), 0);
      Unlink(node);
      entry := (node.key, node.value);
    }

    method PopBack() returns (entry: (K, V))
      requires Valid() && Entries() != []
      modifies this
      ensures Valid() && old(Entries()) == Entries() + [entry]
    {
      hide Wired, Erased, Distinct;
      var node := queue[|queue| - 1];
      WiredDistinct(queue, lookup);
      ErasedAt(Entries(), |queue| - 1);
      Unlink(node);
      entry := (node.key, node.value);
    }

    /** The key must be new, as the program demands. */
    method EnqueueFront(key: K, value: V)
      requires Valid() && !Has(Entries(), key)
      modifies this
      ensures Valid() && Entries() == [(key, value)] + old(Entries())
    {
      assert !Exists(key);
      var node := new Node(key, value);
      queue := [node] + queue;
      lookup := lookup[key := node];
      assert forall i :: 0 < i < |queue| ==> queue[i] == old(queue)[i - 1];
    }

    method EnqueueBack(key: K, value: V)
      requires Valid() && !Has(Entries(), key)
      modifies this
      ensures Valid() && Entries() == old(Entries()) + [(key, value)]
    {
      assert !Exists(key);
      var node := new Node(key, value);
      AppendWired(queue, lookup, node);
      queue := queue + [node];
      lookup := lookup[key := node];
    }

    method Clear()
      modifies this
      ensures Valid() && Entries() == []
    {
      queue, lookup := [], map[];
    }

    /** Two maps are equal if they list the same entries in the same order. */
    method Equals(other: OrderedMap<K, V>) returns (same: bool)
      ensures same <==> Entries() == other.Entries()
    {
      if |queue| != |other.queue| {
        return false;
      }
      for n := 0 to |queue|
        invariant forall i :: 0 <= i < n ==> Entries()[i] == other.Entries()[i]
      {
        if queue[n].key != other.queue[n].key || queue[n].value != other.queue[n].value {
          assert Entries()[n] != other.Entries()[n];
          return false;
        }
      }
      return true;
    }
  }
}
