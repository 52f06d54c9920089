/** The longest-prefix trie of ulpf/enrich/_cidr.py: linked nodes on the heap, refined to a plain
    list of the prefixes inserted so far. */
module CidrTrie {
  import opened Core

  const V4_BITS := 32
  const V6_BITS := 128

  type Bit = b: int | b == 0 || b == 1

  type Path = seq<Bit>

  // ----- specification: a list of prefixes -----

  datatype Entry<+T> = Entry(key: nat, prefixLen: nat, value: Option<T>)

  /** The first `len` of `bits` bits agree: `a >> (bits - len) == b >> (bits - len)`. */
  predicate SamePrefix(bits: nat, a: nat, b: nat, len: nat)
    requires len <= bits
  {
    a / Pow2(bits - len) == b / Pow2(bits - len)
  }

  /** The value inserted last at the len-bit prefix of `key`; inserting None erases. */
  function Stored<T>(bits: nat, entries: seq<Entry<T>>, key: nat, len: nat): Option<T>
    requires len <= bits
  {
    if entries == [] then None
    else
      var last := entries[|entries| - 1];
      if last.prefixLen == len && SamePrefix(bits, last.key, key, len) then last.value
      else Stored(bits, entries[..|entries| - 1], key, len)
  }

  /** The value at the longest stored prefix of `key` that has at most `len` bits. */
  function LongestMatch<T>(bits: nat, entries: seq<Entry<T>>, key: nat, len: nat): Option<T>
    requires len <= bits
  {
    if Stored(bits, entries, key, len).Some? then Stored(bits, entries, key, len)
    else if len == 0 then None
    else LongestMatch(bits, entries, key, len - 1)
  }

  // ----- bits and paths -----

  /** `(key >> (bits - 1 - i)) & 1`. */
  function BitAt(bits: nat, key: nat, i: nat): Bit
    requires i < bits
  {
    (key / Pow2(bits - 1 - i)) % 2
  }

  function Child(p: Path, b: Bit): (c: Path)
    ensures c != [] && c[..|c| - 1] == p && c[|c| - 1] == b
  {
    p + [b]
  }

  lemma ChildInjective(p: Path, b: Bit, q: Path, c: Bit)
    requires Child(p, b) == Child(q, c)
    ensures p == q && b == c
  {
    assert Child(p, b)[..|Child(p, b)| - 1] == Child(q, c)[..|Child(q, c)| - 1];
  }

  function PathOf(bits: nat, key: nat, len: nat): (p: Path)
    requires len <= bits
    ensures |p| == len
  {
    if len == 0 then [] else Child(PathOf(bits, key, len - 1), BitAt(bits, key, len - 1))
  }

  lemma PathStart(bits: nat, key: nat)
    ensures PathOf(bits, key, 0) == []
  {}

  lemma PathStep(bits: nat, key: nat, i: nat)
    requires i < bits
    ensures PathOf(bits, key, i + 1) == Child(PathOf(bits, key, i), BitAt(bits, key, i))
  {}

  lemma ShiftOne(key: nat, p: nat)
    requires p >= 1
    ensures key / p == 2 * (key / (2 * p)) + (key / p) % 2
  {
    var q, r := key / (2 * p), key % (2 * p);
    assert key == (2 * p) * q + r;
    assert (2 * p) * q == p * (2 * q);
    if r < p {
      DivUnique(key, p, 2 * q, r);
    } else {
      assert p * (2 * q + 1) == p * (2 * q) + p;
      DivUnique(key, p, 2 * q + 1, r - p);
    }
  }

  lemma SmallQuotient(key: nat, p: nat)
    requires key < p
    ensures key / p == 0
  {
    DivUnique(key, p, 0, key);
  }

  lemma PrefixStep(bits: nat, a: nat, b: nat, len: nat)
    requires 0 < len <= bits
    ensures SamePrefix(bits, a, b, len)
      <==> SamePrefix(bits, a, b, len - 1) && BitAt(bits, a, len - 1) == BitAt(bits, b, len - 1)
  {
    var p := Pow2(bits - len);
    assert Pow2(bits - (len - 1)) == 2 * p;
    ShiftOne(a, p);
    ShiftOne(b, p);
  }

  /** Equal bit paths are exactly equal shifted keys. */
  lemma {:induction false} PathIsPrefix(bits: nat, a: nat, b: nat, len: nat)
    requires len <= bits && a < Pow2(bits) && b < Pow2(bits)
    ensures PathOf(bits, a, len) == PathOf(bits, b, len) <==> SamePrefix(bits, a, b, len)
  {
    hide PathOf, Child, SamePrefix, BitAt;
    if len == 0 {
      AllShare(bits, a, b);
    } else {
      PathIsPrefix(bits, a, b, len - 1);
      PrefixStep(bits, a, b, len);
      PathStep(bits, a, len - 1);
      PathStep(bits, b, len - 1);
      if PathOf(bits, a, len) == PathOf(bits, b, len) {
        ChildInjective(PathOf(bits, a, len - 1), BitAt(bits, a, len - 1),
                       PathOf(bits, b, len - 1), BitAt(bits, b, len - 1));
      }
    }
  }

  lemma AllShare(bits: nat, a: nat, b: nat)
    requires a < Pow2(bits) && b < Pow2(bits)
    ensures PathOf(bits, a, 0) == PathOf(bits, b, 0) && SamePrefix(bits, a, b, 0)
  {
    SmallQuotient(a, Pow2(bits));
    SmallQuotient(b, Pow2(bits));
  }

  /** The value inserted last at a path. */
  function Latest<T>(bits: nat, entries: seq<Entry<T>>, path: Path): Option<T> {
    if entries == [] then None
    else
      var last := entries[|entries| - 1];
      if last.prefixLen <= bits && PathOf(bits, last.key, last.prefixLen) == path then last.value
      else Latest(bits, entries[..|entries| - 1], path)
  }

  ghost predicate KeysFit<T>(bits: nat, entries: seq<Entry<T>>) {
    forall e :: e in entries ==> e.prefixLen <= bits && e.key < Pow2(bits)
  }

  lemma {:induction false} LatestIsStored<T>(bits: nat, entries: seq<Entry<T>>, key: nat, len: nat)
    requires KeysFit(bits, entries) && len <= bits && key < Pow2(bits)
    ensures Latest(bits, entries, PathOf(bits, key, len)) == Stored(bits, entries, key, len)
  {
    if entries != [] {
      var last := entries[|entries| - 1];
      assert last in entries;
      if last.prefixLen == len {
        PathIsPrefix(bits, last.key, key, len);
      }
      LatestIsStored(bits, entries[..|entries| - 1], key, len);
    }
  }

  // ----- the trie -----

  class Node<T> {
    var children: seq<Node?<T>>
    var value: Option<T>

    constructor ()
      ensures children == [null, null] && value == None
    {
      children := [null, null];
      value := None;
    }
  }

  class Trie<T> {
    const bits: nat
    const root: Node<T>
    /** Every reachable node, by the path that leads to it. */
    ghost var nodes: map<Path, Node<T>>
    /** And the path of every node: no two paths lead to the same one. */
    ghost var paths: map<Node<T>, Path>
    ghost var repr: set<Node<T>>
    /** Every insertion so far. */
    ghost var entries: seq<Entry<T>>

    /** The links spell out `nodes`: a prefix-closed tree without sharing. */
    ghost predicate Linked()
      reads this, repr
    {
      && [] in nodes && nodes[[]] == root
      && (forall p :: p in nodes ==> nodes[p] in repr && |nodes[p].children| == 2)
      && (forall p, b: Bit {:trigger Child(p, b)} :: p in nodes ==>
            nodes[p].children[b] == if Child(p, b) in nodes then nodes[Child(p, b)] else null)
      && (forall p :: p in nodes ==> nodes[p] in paths && paths[nodes[p]] == p)
      && (forall p, b: Bit {:trigger Child(p, b)} :: Child(p, b) in nodes ==> p in nodes)
    }

    ghost function ValueAt(p: Path): Option<T>
      requires p in nodes ==> nodes[p] in repr
      reads this, repr
    {
      if p in nodes then nodes[p].value else None
    }

    ghost predicate Valid()
      reads this, repr
    {
      Linked() && KeysFit(bits, entries) && forall p :: ValueAt(p) == Latest(bits, entries, p)
    }

    constructor (bits: nat)
      ensures Valid() && entries == [] && this.bits == bits && fresh(repr)
    {
      this.bits := bits;
      var top := new Node<T>();
      root := top;
      nodes := map[[] := top];
      paths := map[top := []];
      repr := {top};
      entries := [];
    }

    /** Stores `value` at the prefix and nothing else. */
    method Insert(key: nat, prefixLen: nat, value: Option<T>)
      requires Valid() && prefixLen <= bits && key < Pow2(bits)
      modifies this, repr
      ensures Valid() && entries == old(entries) + [Entry(key, prefixLen, value)]
      ensures fresh(repr - old(repr))
    {
      hide *;
      var node := root;
      RootIsNode();
      PathStart(bits, key);
      for i := 0 to prefixLen
        invariant PathOf(bits, key, i) in nodes && node == nodes[PathOf(bits, key, i)] && node in repr
        invariant Valid() && entries == old(entries)
        invariant fresh(repr - old(repr))
      {
        PathStep(bits, key, i);
        node := ChildOf(node, PathOf(bits, key, i), BitAt(bits, key, i));
      }
      SetValue(node, Entry(key, prefixLen, value));
    }

    lemma RootIsNode()
      requires Valid()
      ensures [] in nodes && nodes[[]] == root && root in repr
    {}

    /** The child of `node`, made if missing. */
    method ChildOf(node: Node<T>, ghost path: Path, bit: Bit) returns (child: Node<T>)
      requires Valid() && path in nodes && nodes[path] == node
      modifies this`nodes, this`paths, this`repr, node`children
      ensures Valid() && Child(path, bit) in nodes && child == nodes[Child(path, bit)] && child in repr
      ensures fresh(repr - old(repr))
    {
      hide Latest, KeysFit;
      var existing := node.children[bit];
      assert existing == if Child(path, bit) in nodes then nodes[Child(path, bit)] else null;
      if existing != null {
        return existing;
      }
      child := new Node<T>();
      Attach(node, path, bit, child);
    }

    method SetValue(node: Node<T>, e: Entry<T>)
      requires Valid() && e.prefixLen <= bits && e.key < Pow2(bits)
      requires PathOf(bits, e.key, e.prefixLen) in nodes && nodes[PathOf(bits, e.key, e.prefixLen)] == node
      modifies node`value, this`entries
      ensures Valid() && entries == old(entries) + [e]
    {
      hide Latest, PathOf, Pow2;
      node.value := e.value;
      LatestSnoc(bits, entries, e);
      entries := entries + [e];
    }

    /** Hangs a new node below `node`. */
    method Attach(node: Node<T>, ghost path: Path, bit: Bit, made: Node<T>)
      requires Linked() && path in nodes && nodes[path] == node && Child(path, bit) !in nodes
      requires made !in repr && made.children == [null, null]
      modifies this`nodes, this`paths, this`repr, node`children
      ensures Linked() && nodes == old(nodes)[Child(path, bit) := made] && repr == old(repr) + {made}
      ensures made.value == None ==> forall p :: ValueAt(p) == old(ValueAt(p))
    {
      hide Child;
      ghost var below := Child(path, bit);
      assert below != [];
      node.children := node.children[bit := made];
      nodes := nodes[below := made];
      paths := paths[made := below];
      repr := repr + {made};
      forall p, b: Bit | p in nodes
        ensures nodes[p].children[b] == if Child(p, b) in nodes then nodes[Child(p, b)] else null
      {
        if Child(p, b) == below {
          ChildInjective(p, b, path, bit);
        }
      }
      forall p, b: Bit | Child(p, b) in nodes
        ensures p in nodes
      {
        if Child(p, b) == below {
          ChildInjective(p, b, path, bit);
        }
      }
    }

    lemma {:induction false} NothingBelow(key: nat, i: nat, j: nat)
      requires Linked() && i <= j <= bits && PathOf(bits, key, i) !in nodes
      ensures PathOf(bits, key, j) !in nodes
      decreases j
    {
      if i < j {
        NothingBelow(key, i, j - 1);
        assert PathOf(bits, key, j) == Child(PathOf(bits, key, j - 1), BitAt(bits, key, j - 1));
      }
    }

    lemma ValueIsStored(key: nat, len: nat)
      requires Valid() && key < Pow2(bits) && len <= bits
      ensures ValueAt(PathOf(bits, key, len)) == Stored(bits, entries, key, len)
    {
      LatestIsStored(bits, entries, key, len);
    }

    lemma OneLonger(key: nat, i: nat)
      requires Valid() && key < Pow2(bits) && i < bits
      ensures LongestMatch(bits, entries, key, i + 1)
           == (var value := ValueAt(PathOf(bits, key, i + 1));
               if value.Some? then value else LongestMatch(bits, entries, key, i))
    {
      hide Latest;
      ValueIsStored(key, i + 1);
    }

    lemma DeadEnd(key: nat, i: nat)
      requires Valid() && key < Pow2(bits) && i < bits && PathOf(bits, key, i + 1) !in nodes
      ensures LongestMatch(bits, entries, key, bits) == LongestMatch(bits, entries, key, i)
    {
      hide Latest;
      forall l | i < l <= bits
        ensures Stored(bits, entries, key, l) == None
      {
        NothingBelow(key, i + 1, l);
        ValueIsStored(key, l);
      }
      NoLonger(bits, entries, key, i, bits);
    }

    lemma RootMatch(key: nat)
      requires Valid() && key < Pow2(bits)
      ensures LongestMatch(bits, entries, key, 0) == root.value
    {
      ValueIsStored(key, 0);
    }

    /** The value at the longest stored prefix of `key`. */
    method Search(key: nat) returns (best: Option<T>)
      requires Valid() && key < Pow2(bits)
      ensures best == LongestMatch(bits, entries, key, bits)
    {
      hide Latest, LongestMatch, KeysFit, Pow2, PathOf, BitAt;
      var node: Node?<T> := root;
      best := root.value;
      RootMatch(key);
      PathStart(bits, key);
      for i := 0 to bits
        invariant PathOf(bits, key, i) in nodes && node == nodes[PathOf(bits, key, i)]
        invariant best == LongestMatch(bits, entries, key, i)
      {
        PathStep(bits, key, i);
        node := node.children[BitAt(bits, key, i)];
        if node == null {
          DeadEnd(key, i);
          return;
        }
        OneLonger(key, i);
        if node.value != None {
          best := node.value;
        }
      }
    }
  }

  lemma {:induction false} NoLonger<T>(bits: nat, entries: seq<Entry<T>>, key: nat, i: nat, j: nat)
    requires i <= j <= bits
    requires forall l :: i < l <= j ==> Stored(bits, entries, key, l) == None
    ensures LongestMatch(bits, entries, key, j) == LongestMatch(bits, entries, key, i)
    decreases j
  {
    if i < j {
      NoLonger(bits, entries, key, i, j - 1);
    }
  }

  lemma LatestSnoc<T>(bits: nat, entries: seq<Entry<T>>, e: Entry<T>)
    requires e.prefixLen <= bits
    ensures forall p ::
      Latest(bits, entries + [e], p) == if p == PathOf(bits, e.key, e.prefixLen) then e.value else Latest(bits, entries, p)
  {
    assert (entries + [e])[..|entries|] == entries;
  }

  // ----- both address families -----

  datatype Family = V4 | V6

  datatype Network<+T> = Network(family: Family, address: nat, prefixLen: nat, value: Option<T>)

  function Width(f: Family): nat {
    if f == V4 then V4_BITS else V6_BITS
  }

  predicate WellFormed<T>(n: Network<T>) {
    n.prefixLen <= Width(n.family) && n.address < Pow2(Width(n.family))
  }

  /** The insertions of one family, in order. */
  function OfFamily<T>(networks: seq<Network<T>>, f: Family): seq<Entry<T>> {
    if networks == [] then []
    else
      var front := OfFamily(networks[..|networks| - 1], f);
      var last := networks[|networks| - 1];
      if last.family == f then front + [Entry(last.address, last.prefixLen, last.value)] else front
  }

  lemma OfFamilySnoc<T>(networks: seq<Network<T>>, n: Network<T>)
    ensures forall f ::
      OfFamily(networks + [n], f) == OfFamily(networks, f) + (if n.family == f then [Entry(n.address, n.prefixLen, n.value)] else [])
  {
    assert (networks + [n])[..|networks|] == networks;
  }

  class CidrTrie<T> {
    const v4: Trie<T>
    const v6: Trie<T>
    var count: nat
    ghost var networks: seq<Network<T>>

    function Of(f: Family): Trie<T> {
      if f == V4 then v4 else v6
    }

    ghost predicate Valid()
      reads this, v4, v6, v4.repr, v6.repr
    {
      && v4 != v6 && v4.repr !! v6.repr
      && (forall f :: Of(f).Valid())
      && (forall f :: Of(f).bits == Width(f))
      && (forall f :: Of(f).entries == OfFamily(networks, f))
      && count == |networks|
    }

    constructor (initial: seq<Network<T>>)
      requires forall n :: n in initial ==> WellFormed(n)
      ensures Valid() && networks == initial && count == |initial|
      ensures v4.bits == 32 && v6.bits == 128
    {
      v4 := new Trie<T>(V4_BITS);
      v6 := new Trie<T>(V6_BITS);
      count := 0;
      networks := [];
      new;
      InsertAll(initial);
    }

    method InsertAll(initial: seq<Network<T>>)
      requires Valid() && networks == []
      requires forall n :: n in initial ==> WellFormed(n)
      modifies this, v4, v6, v4.repr, v6.repr
      ensures Valid() && networks == initial
    {
      for i := 0 to |initial|
        invariant Valid() && networks == initial[..i]
        invariant fresh(v4.repr - old(v4.repr)) && fresh(v6.repr - old(v6.repr))
      {
        Insert(initial[i]);
      }
    }

    method Insert(n: Network<T>)
      requires Valid() && WellFormed(n)
      modifies this, v4, v6, v4.repr, v6.repr
      ensures Valid() && networks == old(networks) + [n] && count == old(count) + 1
      ensures fresh(v4.repr - old(v4.repr)) && fresh(v6.repr - old(v6.repr))
    {
      hide Latest, KeysFit, OfFamily, Pow2, Trie.Linked;
      var trie := Of(n.family);
      trie.Insert(n.address, n.prefixLen, n.value);
      OfFamilySnoc(networks, n);
      count := count + 1;
      networks := networks + [n];
    }

    method Lookup(family: Family, address: nat) returns (value: Option<T>)
      requires Valid() && address < Pow2(Width(family))
      ensures value == LongestMatch(Width(family), OfFamily(networks, family), address, Width(family))
    {
      var trie := Of(family);
      value := trie.Search(address);
    }
  }

  // ----- what longest match means -----

  /** Prefix length l is stored for `key`, and no longer one up to `len` is. */
  ghost predicate LongestAt<T>(bits: nat, entries: seq<Entry<T>>, key: nat, len: nat, l: nat)
    requires len <= bits
  {
    l <= len && Stored(bits, entries, key, l).Some?
    && forall m :: l < m <= len ==> Stored(bits, entries, key, m) == None
  }

  /** A match is the value of the longest stored prefix; no match means no stored prefix at all. */
  lemma {:induction false} LongestMatchMeaning<T>(bits: nat, entries: seq<Entry<T>>, key: nat, len: nat)
    requires len <= bits
    ensures LongestMatch(bits, entries, key, len) == None ==>
      forall l :: 0 <= l <= len ==> Stored(bits, entries, key, l) == None
    ensures LongestMatch(bits, entries, key, len).Some? ==>
      exists l :: LongestAt(bits, entries, key, len, l)
        && Stored(bits, entries, key, l) == LongestMatch(bits, entries, key, len)
  {
    if Stored(bits, entries, key, len).Some? {
      assert LongestAt(bits, entries, key, len, len);
    } else if len > 0 {
      LongestMatchMeaning(bits, entries, key, len - 1);
      if LongestMatch(bits, entries, key, len).Some? {
        var l :| LongestAt(bits, entries, key, len - 1, l)
          && Stored(bits, entries, key, l) == LongestMatch(bits, entries, key, len - 1);
        assert LongestAt(bits, entries, key, len, l);
      }
    }
  }

  /** An insertion leaves every key outside its prefix alone. */
  lemma {:induction false} InsertElsewhere<T>(bits: nat, entries: seq<Entry<T>>, e: Entry<T>, key: nat, len: nat)
    requires len <= bits && e.prefixLen <= bits && !SamePrefix(bits, e.key, key, e.prefixLen)
    ensures LongestMatch(bits, entries + [e], key, len) == LongestMatch(bits, entries, key, len)
  {
    assert (entries + [e])[..|entries|] == entries;
    if len > 0 {
      InsertElsewhere(bits, entries, e, key, len - 1);
    }
  }

  /** At its own prefix an insertion replaces what was stored, by nothing when the value is None. */
  lemma InsertReplaces<T>(bits: nat, entries: seq<Entry<T>>, e: Entry<T>, key: nat, len: nat)
    requires e.prefixLen <= bits && len <= bits
    ensures Stored(bits, entries + [e], key, len) ==
      if len == e.prefixLen && e.key / Pow2(bits - len) == key / Pow2(bits - len) then e.value
      else Stored(bits, entries, key, len)
    ensures Stored<T>(bits, [], key, len) == None
  {
    assert (entries + [e])[..|entries|] == entries;
  }

  /** An insertion is found by every key under its prefix for which nothing longer is stored. */
  lemma {:induction false} InsertFound<T>(bits: nat, entries: seq<Entry<T>>, e: Entry<T>, key: nat, len: nat)
    requires e.prefixLen <= len <= bits && SamePrefix(bits, e.key, key, e.prefixLen) && e.value.Some?
    requires forall l :: e.prefixLen < l <= len ==> Stored(bits, entries, key, l) == None
    ensures LongestMatch(bits, entries + [e], key, len) == e.value
  {
    assert (entries + [e])[..|entries|] == entries;
    assert Stored(bits, entries + [e], key, len) == if e.prefixLen == len then e.value else Stored(bits, entries, key, len);
    if e.prefixLen < len {
      InsertFound(bits, entries, e, key, len - 1);
    }
  }
}
