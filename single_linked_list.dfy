/** A singly linked sequence container with a sentinel head node, a cached
    element count and forward iterators that designate nodes. */
module SingleLinkedLists {

  import Comparisons

  /** A node of the chain: one element and the link to the following node. */
  class Node<T(0)> {
    var value: T
    var next: Node?<T>

    /** The sentinel: a default-initialised value that is never an element. */
    constructor Sentinel()
      ensures next == null
    {
      next := null;
    }

    constructor (value: T, next: Node?<T>)
      ensures this.value == value && this.next == next
    {
      this.value := value;
      this.next := next;
    }
  }

  /** A position: a non-owning reference to a node, or `null` for the
      past-the-end position. Two iterators are equal iff they designate the
      same node, which is datatype equality here. */
  datatype Iterator<T(0)> = Iterator(node: Node?<T>)
  {
    /** `operator*`: the element of the designated node; the precondition
        is the source's check that the iterator is not `end()`. */
    function Deref(): (v: T)
      requires node != null
      reads node
      ensures v == node.value
    {
      node.value
    }

    /** `operator++`: the position of the node the designated one links to. */
    function Next(): (r: Iterator<T>)
      requires node != null
      reads node
      ensures r.node == node.next
    {
      Iterator(node.next)
    }
  }

  /** The index of the first occurrence of `x` in `s`. */
  ghost function IndexOf<X>(s: seq<X>, x: X): (k: nat)
    requires x in s
    ensures k < |s| && s[k] == x && x !in s[..k]
  {
    if s[0] == x then 0
    else
      var j := IndexOf(s[1..], x);
      assert s[..j + 1] == [s[0]] + s[1..][..j];
      1 + j
  }

  /** No element occurs twice. */
  ghost predicate Distinct<X>(s: seq<X>)
  {
    forall i, j | 0 <= i < j < |s| :: s[i] != s[j]
  }

  lemma DistinctInsert<X>(s: seq<X>, k: nat, x: X)
    requires Distinct(s) && x !in s && 0 < k <= |s|
    ensures Distinct(s[..k] + [x] + s[k..])
  {
    var t := s[..k] + [x] + s[k..];
    forall i, j | 0 <= i < j < |t|
      ensures t[i] != t[j]
    {
      if i != k && j != k {
        assert t[i] == s[if i < k then i else i - 1];
        assert t[j] == s[if j < k then j else j - 1];
      } else if i == k {
        assert t[j] == s[j - 1];
      } else {
        assert t[i] == s[i];
      }
    }
  }

  lemma DistinctRemove<X>(s: seq<X>, k: nat)
    requires Distinct(s) && k < |s|
    ensures Distinct(s[..k] + s[k + 1..]) && s[k] !in s[..k] + s[k + 1..]
  {
    var t := s[..k] + s[k + 1..];
    forall i, j | 0 <= i < j < |t|
      ensures t[i] != t[j]
    {
      assert t[i] == s[if i < k then i else i + 1];
      assert t[j] == s[if j < k then j else j + 1];
    }
    forall i | 0 <= i < |t|
      ensures t[i] != s[k]
    {
      assert t[i] == s[if i < k then i else i + 1];
    }
  }

  lemma DistinctReplaceFirst<X>(s: seq<X>, x: X)
    requires Distinct(s) && |s| > 0 && x !in s[1..]
    ensures Distinct([x] + s[1..])
  {
    var t := [x] + s[1..];
    forall i, j | 0 <= i < j < |t|
      ensures t[i] != t[j]
    {
      if i > 0 {
        assert t[i] == s[i] && t[j] == s[j];
      } else {
        assert t[j] == s[1..][j - 1];
      }
    }
  }

  /** Extending a prefix by one element. */
  lemma PrefixStep<X>(s: seq<X>, i: nat)
    requires i < |s|
    ensures s[..i + 1] == s[..i] + [s[i]] + s[i..i]
  {
  }

  /** Inserting `x` adds it to the elements. */
  lemma ElemsInsert<X>(s: seq<X>, k: nat, x: X)
    requires k <= |s|
    ensures (set n | n in s[..k] + [x] + s[k..]) == (set n | n in s) + {x}
  {
    assert s == s[..k] + s[k..];
  }

  /** Removing the only occurrence of `s[k]` removes it from the elements. */
  lemma ElemsRemove<X>(s: seq<X>, k: nat, t: seq<X>)
    requires Distinct(s) && k < |s| && t == s[..k] + s[k + 1..]
    ensures (set n | n in t) == (set n | n in s) - {s[k]}
  {
    assert s == s[..k] + [s[k]] + s[k + 1..];
    DistinctRemove(s, k);
  }

  /** The elements of a non-empty sequence are its first one and those of its
      tail, and replacing the first one by `y` replaces it in the set too. */
  lemma ElemsAfterFirst<X>(s: seq<X>, y: X)
    requires |s| > 0
    ensures (set n | n in s) == {s[0]} + (set n | n in s[1..])
    ensures (set n | n in [y] + s[1..]) == {y} + (set n | n in s[1..])
  {
    assert s == [s[0]] + s[1..];
  }

  /** Two lists whose objects are apart stay apart when they exchange their
      real nodes and keep their sentinels. */
  lemma ExchangeApart<T(0)>(l: SingleLinkedList<T>, m: SingleLinkedList<T>, s: seq<Node<T>>, t: seq<Node<T>>)
    requires |s| > 0 && |t| > 0 && s[0] !in s[1..] && t[0] !in t[1..]
    requires s[0] == l.head && t[0] == m.head
    requires ({l, l.head} + set n | n in s) !! ({m, m.head} + set n | n in t)
    ensures l.head !in t[1..] && m.head !in s[1..]
    ensures ({l, l.head} + set n | n in [l.head] + t[1..]) !! ({m, m.head} + set n | n in [m.head] + s[1..])
  {
    ElemsAfterFirst(s, m.head);
    ElemsAfterFirst(t, l.head);
    var S: set<object>, U: set<object> := set n | n in s[1..], set n | n in t[1..];
    assert S <= {l, l.head} + (set n | n in s) && U <= {m, m.head} + (set n | n in t);
    assert l !in S && m !in U;
    assert ({l, l.head} + U) !! ({m, m.head} + S);
    assert ({l, l.head} + set n | n in [l.head] + t[1..]) == {l, l.head} + U;
    assert ({m, m.head} + set n | n in [m.head] + s[1..]) == {m, m.head} + S;
  }

  class SingleLinkedList<T(0)> {
    /** The sentinel head node; its address is the before-begin position. */
    const head: Node<T>
    /** The cached element count. */
    var size: nat
    /** The sentinel followed by the real nodes, in link order: the anchors
        an insertion or an erasure may be given. */
    ghost var chain: seq<Node<T>>
    /** The elements, in iteration order. */
    ghost var Contents: seq<T>

    /** The objects the list owns: itself, the sentinel and the real nodes. */
    ghost function Repr(): set<object>
      reads this
    {
      {this, head} + set n | n in chain
    }

    /** The chain starts at the sentinel, each node links to the next one,
        the last links to null, no node occurs twice (so the chain is
        acyclic) and the real nodes carry `Contents`; everything except the
        cached count. */
    ghost predicate Linked()
      reads this, Repr()
    {
      && |chain| == |Contents| + 1
      && chain[0] == head
      && (forall i | 0 <= i < |chain| - 1 :: chain[i].next == chain[i + 1])
      && chain[|chain| - 1].next == null
      && (forall i | 0 <= i < |Contents| :: chain[i + 1].value == Contents[i])
      && Distinct(chain)
    }

    /** The representation invariant. */
    ghost predicate Valid()
      reads this, Repr()
    {
      Linked() && size == |Contents|
    }

    /** The position of element `i`; position `|Contents|` is `end()`. */
    ghost function IterAt(i: nat): Iterator<T>
      requires |chain| == |Contents| + 1 && i <= |Contents|
      reads this
    {
      Iterator(if i < |Contents| then chain[i + 1] else null)
    }

    /** The index in `chain` of an anchor: 0 for the sentinel, `i + 1` for
        element `i`. An insertion after it lands at element index `k`. */
    ghost function PositionOf(it: Iterator<T>): (k: nat)
      requires it.node != null && it.node in chain
      reads this
      ensures k < |chain| && chain[k] == it.node
    {
      IndexOf(chain, it.node)
    }

    /** Nodes of a valid list are distinct, so the anchor at `chain[k]` has
        position `k`. */
    lemma PositionAt(k: nat)
      requires Valid() && k < |chain|
      ensures PositionOf(Iterator(chain[k])) == k
    {
    }

    /** The sentinel links to the first real node, or to null when there is none. */
    lemma FirstLink()
      requires Linked()
      ensures head.next == if Contents == [] then null else chain[1]
    {
      assert |chain| > 1 ==> chain[0].next == chain[1];
    }

    /** Once this sentinel has taken over the link, the count, the real nodes
        and the elements `src` had, and those nodes are untouched, this list
        is valid. */
    twostate lemma Reanchored(src: SingleLinkedList<T>)
      requires old(src.Valid())
      requires head !in old(src.chain[1..])
      requires forall n | n in old(src.chain[1..]) :: unchanged(n)
      requires size == old(src.size) && head.next == old(src.head.next)
      requires chain == [head] + old(src.chain[1..]) && Contents == old(src.Contents)
      ensures Valid()
    {
      ghost var c := old(src.chain);
      DistinctReplaceFirst(c, head);
      forall i | 0 <= i < |chain| - 1
        ensures chain[i].next == chain[i + 1]
      {
        if 0 < i {
          assert chain[i] == c[1..][i - 1] == c[i] && chain[i + 1] == c[i + 1];
          assert c[i] in old(src.chain[1..]) && old(c[i].next) == c[i + 1];
        }
      }
      forall i | 0 <= i < |Contents|
        ensures chain[i + 1].value == Contents[i]
      {
        assert chain[i + 1] == c[1..][i] == c[i + 1];
        assert c[i + 1] in old(src.chain[1..]) && old(c[i + 1].value) == Contents[i];
      }
      assert chain[|chain| - 1].next == null by {
        if 1 < |c| {
          assert chain[|chain| - 1] == c[1..][|c| - 2] == c[|c| - 1];
          assert c[|c| - 1] in old(src.chain[1..]) && old(c[|c| - 1].next) == null;
        }
      }
    }

    constructor ()
      ensures Valid() && fresh(Repr()) && Contents == []
    {
      head := new Node.Sentinel();
      size := 0;
      new;
      chain := [head];
      Contents := [];
    }

    /** The initializer-list constructor. */
    constructor FromValues(values: seq<T>)
      ensures Valid() && fresh(Repr()) && Contents == values
    {
      head := new Node.Sentinel();
      size := 0;
      new;
      chain := [head];
      Contents := [];
      CreateFromValues(values);
    }

    /** The copy constructor. */
    constructor Copy(other: SingleLinkedList<T>)
      requires other.Valid()
      ensures Valid() && fresh(Repr()) && Contents == other.Contents
    {
      head := new Node.Sentinel();
      size := 0;
      new;
      chain := [head];
      Contents := [];
      CreateFromList(other);
    }

    function GetSize(): (r: nat)
      requires Valid()
      reads this, Repr()
      ensures r == |Contents|
    {
      size
    }

    function IsEmpty(): (r: bool)
      requires Valid()
      reads this, Repr()
      ensures r <==> Contents == []
      ensures r <==> head.next == null
    {
      FirstLink();
      size == 0
    }

    function Begin(): (r: Iterator<T>)
      requires Valid()
      reads this, Repr()
      ensures r.node == null <==> Contents == []
      ensures r.node != null ==> r.node in chain && r.Deref() == Contents[0]
      ensures r == IterAt(0)
    {
      FirstLink();
      Iterator(head.next)
    }

    function End(): (r: Iterator<T>)
      reads this
      ensures r.node !in chain
    {
      Iterator(null)
    }

    function BeforeBegin(): (r: Iterator<T>)
      requires Valid()
      reads this, Repr()
      ensures r.node != null && r.node in chain && PositionOf(r) == 0
      ensures r.Next() == Begin()
    {
      Iterator(head)
    }

    /** Writing through the reference `operator*` returns: `*it = value`
        replaces the element the iterator designates and nothing else. On
        `before_begin()` it overwrites the sentinel's unused value. */
    method SetValue(it: Iterator<T>, value: T)
      requires Valid() && it.node != null && it.node in chain
      modifies this, it.node
      ensures Valid()
      ensures var k := old(PositionOf(it));
        Contents == if k == 0 then old(Contents) else old(Contents)[k - 1 := value]
      ensures chain == old(chain) && size == old(size)
      ensures it.Deref() == value
    {
      ghost var k, xs := PositionOf(it), Contents;
      it.node.value := value;
      if k != 0 {
        Contents := xs[k - 1 := value];
      }
      forall i | 0 <= i < |Contents|
        ensures chain[i + 1].value == Contents[i]
      {
        if i + 1 != k {
          assert chain[i + 1] != chain[k];
        }
      }
    }

    /** Walking the list with `operator++` from `begin()`: element `i` is
        dereferenceable, carries `Contents[i]` and is followed by element
        `i + 1`, the last one by `end()`. */
    lemma IterStep(i: nat)
      requires Valid() && i < |Contents|
      ensures IterAt(i).node != null && IterAt(i).node in chain
      ensures IterAt(i).Deref() == Contents[i]
      ensures IterAt(i).Next() == IterAt(i + 1)
    {
      assert chain[i + 1].next == if i + 2 < |chain| then chain[i + 2] else null;
    }

    /** Iterators compare by node identity, and distinct positions hold
        distinct nodes, so two positions are equal iff their indices are. */
    lemma IterAtInjective(i: nat, j: nat)
      requires Valid() && i <= |Contents| && j <= |Contents|
      ensures IterAt(i) == IterAt(j) <==> i == j
    {
      if i < j < |Contents| {
        assert chain[i + 1] != chain[j + 1];
      } else if j < i < |Contents| {
        assert chain[j + 1] != chain[i + 1];
      }
    }

    /** Following `next_node` exactly `k` times from `n` stays on this list's
        nodes and reaches null only at the last step. */
    ghost predicate NullAfter(n: Node?<T>, k: nat)
      reads this, Repr()
      decreases k
    {
      if k == 0 then n == null else n != null && n in Repr() && NullAfter(n.next, k - 1)
    }

    lemma {:induction false} NullAfterSuffix(i: nat)
      requires Linked() && i <= |Contents|
      ensures NullAfter(IterAt(i).node, |Contents| - i)
      decreases |Contents| - i
    {
      if i < |Contents| {
        NullAfterSuffix(i + 1);
        assert chain[i + 1] in Repr();
        assert chain[i + 1].next == if i + 2 < |chain| then chain[i + 2] else null;
      }
    }

    lemma {:induction false} NullAfterUnique(n: Node?<T>, j: nat, k: nat)
      requires NullAfter(n, j) && NullAfter(n, k)
      ensures j == k
      decreases j
    {
      if j != 0 && k != 0 {
        NullAfterUnique(n.next, j - 1, k - 1);
      }
    }

    /** The chain from the sentinel is acyclic and holds exactly `size_`
        nodes: from `head_.next_node`, null is reached after `size_` steps
        and after no other number of steps. */
    lemma SizeCountsNodes()
      requires Valid()
      ensures NullAfter(head.next, size)
      ensures forall k :: NullAfter(head.next, k) ==> k == size
    {
      FirstLink();
      NullAfterSuffix(0);
      forall k | NullAfter(head.next, k)
        ensures k == size
      {
        NullAfterUnique(head.next, k, size);
      }
    }

    /** The elements met by following `next_node` `k` times from `n`: what
        a walk with `operator*` and `operator++` from that node sees. */
    function ValuesFrom(n: Node?<T>, k: nat): (r: seq<T>)
      requires NullAfter(n, k)
      reads this, Repr()
      ensures |r| == k
      decreases k
    {
      if k == 0 then [] else [n.value] + ValuesFrom(n.next, k - 1)
    }

    lemma {:induction false} ValuesFromSuffix(i: nat)
      requires Linked() && i <= |Contents|
      ensures NullAfter(IterAt(i).node, |Contents| - i)
      ensures ValuesFrom(IterAt(i).node, |Contents| - i) == Contents[i..]
      decreases |Contents| - i
    {
      NullAfterSuffix(i);
      if i < |Contents| {
        ValuesFromSuffix(i + 1);
        assert chain[i + 1].next == if i + 2 < |chain| then chain[i + 2] else null;
        assert Contents[i..] == [Contents[i]] + Contents[i + 1..];
      }
    }

    /** The range from `begin()` to `end()` that the relational operators
        walk: `size_` steps from the first real node visit the elements in
        order. */
    function Values(): (r: seq<T>)
      requires Valid()
      reads this, Repr()
      ensures r == Contents
    {
      FirstLink();
      ValuesFromSuffix(0);
      ValuesFrom(head.next, size)
    }

    method PushFront(value: T)
      requires Valid()
      modifies this, head
      ensures Valid()
      ensures Contents == [value] + old(Contents)
      ensures size == old(size) + 1
      ensures fresh(chain[1]) && chain[2..] == old(chain[1..])
      ensures Repr() == old(Repr()) + {chain[1]}
    {
      ghost var c, xs := chain, Contents;
      var n := new Node(value, head.next);
      head.next := n;
      size := size + 1;
      DistinctInsert(c, 1, n);
      chain := c[..1] + [n] + c[1..];
      Contents := [value] + xs;
      ElemsInsert(c, 1, n);
      forall i | 0 <= i < |chain| - 1
        ensures chain[i].next == chain[i + 1]
      {
        if 1 < i {
          assert chain[i] == c[i - 1] != c[0] && chain[i + 1] == c[i];
        }
      }
      forall i | 0 <= i < |Contents|
        ensures chain[i + 1].value == Contents[i]
      {
        if 0 < i {
          assert chain[i + 1] == c[i] && Contents[i] == xs[i - 1];
        }
      }
      assert chain[|chain| - 1].next == null by {
        if 1 < |c| {
          assert chain[|chain| - 1] == c[|c| - 1] != c[0];
        }
      }
    }

    method PopFront()
      requires Valid() && size != 0
      modifies this, head
      ensures Valid()
      ensures Contents == old(Contents)[1..]
      ensures size == old(size) - 1
      ensures chain == old(chain[..1] + chain[2..])
      ensures Repr() == old(Repr()) - {old(chain[1])}
    {
      FirstLink();
      ghost var c, xs := chain, Contents;
      var newFirst := head.next.next;
      head.next := newFirst;
      size := size - 1;
      DistinctRemove(c, 1);
      chain := c[..1] + c[2..];
      Contents := xs[1..];
      ElemsRemove(c, 1, chain);
      forall i | 0 <= i < |chain| - 1
        ensures chain[i].next == chain[i + 1]
      {
        if 0 < i {
          assert chain[i] == c[i + 1] != c[0] && chain[i + 1] == c[i + 2];
        }
      }
      forall i | 0 <= i < |Contents|
        ensures chain[i + 1].value == Contents[i]
      {
        assert chain[i + 1] == c[i + 2] && Contents[i] == xs[i + 1];
      }
      assert chain[|chain| - 1].next == null by {
        if 2 < |c| {
          assert chain[|chain| - 1] == c[|c| - 1] != c[0];
        }
      }
    }

    method InsertAfter(pos: Iterator<T>, value: T) returns (r: Iterator<T>)
      requires Valid() && pos.node != null && pos.node in chain
      modifies this, pos.node
      ensures Valid()
      ensures var k := old(PositionOf(pos));
        && Contents == old(Contents[..k]) + [value] + old(Contents[k..])
        && chain == old(chain[..k + 1]) + [r.node] + old(chain[k + 1..])
        && r == IterAt(k)
      ensures size == old(size) + 1
      ensures r.node != null && fresh(r.node) && r.Deref() == value
      ensures Repr() == old(Repr()) + {r.node}
    {
      ghost var k, c, xs := PositionOf(pos), chain, Contents;
      var n := new Node(value, pos.node.next);
      pos.node.next := n;
      size := size + 1;
      DistinctInsert(c, k + 1, n);
      chain := c[..k + 1] + [n] + c[k + 1..];
      Contents := xs[..k] + [value] + xs[k..];
      r := Iterator(n);
      ElemsInsert(c, k + 1, n);
      forall i | 0 <= i < |chain| - 1
        ensures chain[i].next == chain[i + 1]
      {
        if i < k {
          assert chain[i] == c[i] != c[k] && chain[i + 1] == c[i + 1];
        } else if k + 1 < i {
          assert chain[i] == c[i - 1] != c[k] && chain[i + 1] == c[i];
        }
      }
      forall i | 0 <= i < |Contents|
        ensures chain[i + 1].value == Contents[i]
      {
        if i < k {
          assert chain[i + 1] == c[i + 1] && Contents[i] == xs[i];
        } else if k < i {
          assert chain[i + 1] == c[i] && Contents[i] == xs[i - 1];
        }
      }
      assert chain[|chain| - 1].next == null by {
        if k + 1 < |c| {
          assert chain[|chain| - 1] == c[|c| - 1] != c[k];
        }
      }
    }

    method EraseAfter(pos: Iterator<T>) returns (r: Iterator<T>)
      requires Valid() && size != 0 && pos.node != null && pos.node in chain
      requires pos.node.next != null
      modifies this, pos.node
      ensures Valid()
      ensures var k := old(PositionOf(pos));
        && k < |old(Contents)|
        && Contents == old(Contents[..k]) + old(Contents[k + 1..])
        && chain == old(chain[..k + 1]) + old(chain[k + 2..])
        && r == IterAt(k)
        && (r == End() <==> k == |old(Contents)| - 1)
        && Repr() == old(Repr()) - {old(chain[k + 1])}
      ensures size == old(size) - 1
    {
      ghost var k, c, xs := PositionOf(pos), chain, Contents;
      var following := pos.node.next.next;
      pos.node.next := following;
      size := size - 1;
      DistinctRemove(c, k + 1);
      chain := c[..k + 1] + c[k + 2..];
      Contents := xs[..k] + xs[k + 1..];
      r := Iterator(following);
      ElemsRemove(c, k + 1, chain);
      forall i | 0 <= i < |chain| - 1
        ensures chain[i].next == chain[i + 1]
      {
        if i < k {
          assert chain[i] == c[i] != c[k] && chain[i + 1] == c[i + 1];
        } else if k < i {
          assert chain[i] == c[i + 1] != c[k] && chain[i + 1] == c[i + 2];
        }
      }
      forall i | 0 <= i < |Contents|
        ensures chain[i + 1].value == Contents[i]
      {
        if i < k {
          assert chain[i + 1] == c[i + 1] && Contents[i] == xs[i];
        } else {
          assert chain[i + 1] == c[i + 2] && Contents[i] == xs[i + 1];
        }
      }
      assert chain[|chain| - 1].next == null by {
        if k + 2 < |c| {
          assert chain[|chain| - 1] == c[|c| - 1] != c[k];
        }
      }
    }

    method Clear()
      requires Valid()
      modifies this, head
      ensures Valid() && Contents == [] && chain == [head] && Repr() == {this, head}
      ensures Begin() == End()
      ensures old(Contents) == [] ==> unchanged(this, head)
    {
      while head.next != null
        invariant Linked()
        invariant old(Contents) == [] ==> unchanged(this, head)
        decreases |Contents|
      {
        FirstLink();
        ghost var c, xs := chain, Contents;
        head.next := head.next.next;
        DistinctRemove(c, 1);
        chain := c[..1] + c[2..];
        Contents := xs[1..];
        forall i | 0 <= i < |chain| - 1
          ensures chain[i].next == chain[i + 1]
        {
          if 0 < i {
            assert chain[i] == c[i + 1] != c[0] && chain[i + 1] == c[i + 2];
          }
        }
        forall i | 0 <= i < |Contents|
          ensures chain[i + 1].value == Contents[i]
        {
          assert chain[i + 1] == c[i + 2] && Contents[i] == xs[i + 1];
        }
        assert chain[|chain| - 1].next == null by {
          if 2 < |c| {
            assert chain[|chain| - 1] == c[|c| - 1] != c[0];
          }
        }
      }
      FirstLink();
      size := 0;
    }

    /** `swap`: exchanges the counts and the sentinels' links, so the two
        lists exchange their elements and their real nodes. */
    method Swap(other: SingleLinkedList<T>)
      requires Valid() && other.Valid()
      requires other == this || Repr() !! other.Repr()
      modifies this, head, other, other.head
      ensures Valid() && other.Valid()
      ensures Contents == old(other.Contents) && other.Contents == old(Contents)
      ensures chain[1..] == old(other.chain[1..]) && other.chain[1..] == old(chain[1..])
      ensures other == this || Repr() !! other.Repr()
      ensures Repr() - {this, head} == old(other.Repr() - {other, other.head})
      ensures other.Repr() - {other, other.head} == old(Repr() - {this, head})
    {
      ghost var mine, theirs := chain, other.chain;
      assert head !in mine[1..] && other.head !in theirs[1..];
      if other != this {
        ExchangeApart(this, other, mine, theirs);
      }
      var count := size;
      size := other.size;
      other.size := count;
      var first := head.next;
      head.next := other.head.next;
      other.head.next := first;
      chain, Contents := [head] + theirs[1..], old(other.Contents);
      other.chain, other.Contents := [other.head] + mine[1..], old(Contents);
      Reanchored(other);
      other.Reanchored(this);
      ElemsAfterFirst(chain, head);
      ElemsAfterFirst(other.chain, other.head);
      ElemsAfterFirst(mine, head);
      ElemsAfterFirst(theirs, other.head);
    }

    /** The first half of `CreateSingleLinkedList` over a sequence of values:
        builds a separate list by inserting after a cursor that follows the
        last inserted node. */
    static method BuildFromValues(values: seq<T>) returns (copy: SingleLinkedList<T>)
      ensures copy.Valid() && fresh(copy.Repr()) && copy.Contents == values
    {
      copy := new SingleLinkedList<T>();
      var pos := copy.BeforeBegin();
      for i := 0 to |values|
        invariant copy.Valid() && fresh(copy.Repr())
        invariant copy.Contents == values[..i]
        invariant pos.node == copy.chain[i]
      {
        copy.PositionAt(i);
        assert pos.node in copy.Repr();
        pos := copy.InsertAfter(pos, values[i]);
        PrefixStep(values, i);
      }
      assert values[..|values|] == values;
    }

    /** The first half of `CreateSingleLinkedList` over another list: walks
        it from `begin()` to `end()`, inserting each element after the
        cursor. */
    static method BuildFromList(other: SingleLinkedList<T>) returns (copy: SingleLinkedList<T>)
      requires other.Valid()
      ensures copy.Valid() && fresh(copy.Repr()) && copy.Contents == other.Contents
    {
      ghost var xs := other.Contents;
      copy := new SingleLinkedList<T>();
      var pos := copy.BeforeBegin();
      var it := other.Begin();
      ghost var i := 0;
      while it != other.End()
        invariant copy.Valid() && fresh(copy.Repr())
        invariant i <= |xs| && it == other.IterAt(i)
        invariant copy.Contents == xs[..i]
        invariant pos.node == copy.chain[i]
        decreases |xs| - i
      {
        other.IterAtInjective(i, |xs|);
        other.IterStep(i);
        var v := it.Deref();
        copy.PositionAt(i);
        assert pos.node in copy.Repr();
        pos := copy.InsertAfter(pos, v);
        it := it.Next();
        PrefixStep(xs, i);
        i := i + 1;
      }
      other.IterAtInjective(i, |xs|);
      assert xs[..i] == xs;
    }

    /** `CreateSingleLinkedList` over a sequence of values: builds the copy,
        then swaps it in. */
    method CreateFromValues(values: seq<T>)
      requires Valid()
      modifies this, head
      ensures Valid() && Contents == values
      ensures fresh(Repr() - {this, head})
    {
      var copy := BuildFromValues(values);
      ghost var built := copy.Repr() - {copy, copy.head};
      Swap(copy);
      assert Repr() - {this, head} == built;
      assert forall o | o in Repr() && o != this && o != head :: o in built;
    }

    /** `CreateSingleLinkedList` over another list: builds the copy, then
        swaps it in. */
    method CreateFromList(other: SingleLinkedList<T>)
      requires Valid() && other.Valid()
      modifies this, head
      ensures Valid() && Contents == old(other.Contents)
      ensures fresh(Repr() - {this, head})
    {
      var copy := BuildFromList(other);
      ghost var built := copy.Repr() - {copy, copy.head};
      Swap(copy);
      assert Repr() - {this, head} == built;
      assert forall o | o in Repr() && o != this && o != head :: o in built;
    }

    /** `operator=`: copies `rhs` and swaps the copy in; assigning a list to
        itself changes nothing. */
    method Assign(rhs: SingleLinkedList<T>)
      requires Valid() && rhs.Valid()
      requires rhs == this || Repr() !! rhs.Repr()
      modifies this, head
      ensures Valid() && Contents == old(rhs.Contents)
      ensures rhs.Valid() && rhs.Contents == old(rhs.Contents)
      ensures rhs == this ==> unchanged(this, head)
      ensures rhs != this ==> fresh(Repr() - {this, head}) && Repr() !! rhs.Repr()
    {
      if rhs != this {
        var rhsCopy := new SingleLinkedList.Copy(rhs);
        ghost var built := rhsCopy.Repr() - {rhsCopy, rhsCopy.head};
        Swap(rhsCopy);
        assert Repr() - {this, head} == built;
        assert Repr() == {this, head} + built;
      }
    }
  }

  /** The free `swap`. */
  method Swap<T(0)>(lhs: SingleLinkedList<T>, rhs: SingleLinkedList<T>)
    requires lhs.Valid() && rhs.Valid()
    requires lhs == rhs || lhs.Repr() !! rhs.Repr()
    modifies lhs, lhs.head, rhs, rhs.head
    ensures lhs.Valid() && rhs.Valid()
    ensures lhs.Contents == old(rhs.Contents) && rhs.Contents == old(lhs.Contents)
    ensures lhs.chain[1..] == old(rhs.chain[1..]) && rhs.chain[1..] == old(lhs.chain[1..])
    ensures lhs == rhs || lhs.Repr() !! rhs.Repr()
  {
    lhs.Swap(rhs);
  }

  /** `operator==`: the sizes agree and `std::equal` holds over the two
      ranges. */
  function Equal<T(0,==)>(lhs: SingleLinkedList<T>, rhs: SingleLinkedList<T>): (r: bool)
    requires lhs.Valid() && rhs.Valid()
    reads lhs, lhs.Repr(), rhs, rhs.Repr()
    ensures r <==> lhs.Contents == rhs.Contents
  {
    lhs.GetSize() == rhs.GetSize() && Comparisons.Equal(lhs.Values(), rhs.Values())
  }

  /** `operator!=`. */
  function NotEqual<T(0,==)>(lhs: SingleLinkedList<T>, rhs: SingleLinkedList<T>): (r: bool)
    requires lhs.Valid() && rhs.Valid()
    reads lhs, lhs.Repr(), rhs, rhs.Repr()
    ensures r <==> lhs.Contents != rhs.Contents
  {
    !Equal(lhs, rhs)
  }

  /** `operator<`: `std::lexicographical_compare` over the two ranges, with
      `less` as the element type's `operator<`. */
  function Less<T(0)>(lhs: SingleLinkedList<T>, rhs: SingleLinkedList<T>, less: (T, T) -> bool): (r: bool)
    requires lhs.Valid() && rhs.Valid()
    reads lhs, lhs.Repr(), rhs, rhs.Repr()
    ensures r <==> Comparisons.LexLess(lhs.Contents, rhs.Contents, less)
  {
    Comparisons.LexicographicalCompareIsLexLess(lhs.Values(), rhs.Values(), less);
    Comparisons.LexicographicalCompare(lhs.Values(), rhs.Values(), less)
  }

  /** `operator<=`: `rhs` is not less than `lhs`. */
  function LessOrEqual<T(0)>(lhs: SingleLinkedList<T>, rhs: SingleLinkedList<T>, less: (T, T) -> bool): (r: bool)
    requires lhs.Valid() && rhs.Valid()
    reads lhs, lhs.Repr(), rhs, rhs.Repr()
    ensures r <==> !Comparisons.LexLess(rhs.Contents, lhs.Contents, less)
  {
    !Less(rhs, lhs, less)
  }

  /** `operator>`: `rhs` is less than `lhs`. */
  function Greater<T(0)>(lhs: SingleLinkedList<T>, rhs: SingleLinkedList<T>, less: (T, T) -> bool): (r: bool)
    requires lhs.Valid() && rhs.Valid()
    reads lhs, lhs.Repr(), rhs, rhs.Repr()
    ensures r <==> Comparisons.LexLess(rhs.Contents, lhs.Contents, less)
  {
    Less(rhs, lhs, less)
  }

  /** `operator>=`: `lhs` is not less than `rhs`. */
  function GreaterOrEqual<T(0)>(lhs: SingleLinkedList<T>, rhs: SingleLinkedList<T>, less: (T, T) -> bool): (r: bool)
    requires lhs.Valid() && rhs.Valid()
    reads lhs, lhs.Repr(), rhs, rhs.Repr()
    ensures r <==> !Comparisons.LexLess(lhs.Contents, rhs.Contents, less)
  {
    !Less(lhs, rhs, less)
  }

  /** With a strict weak ordering of the elements, `<` on lists is a strict
      order: irreflexive, asymmetric and transitive. */
  lemma LessIsStrictOrder<T(0,!new)>(a: SingleLinkedList<T>, b: SingleLinkedList<T>, c: SingleLinkedList<T>, less: (T, T) -> bool)
    requires a.Valid() && b.Valid() && c.Valid()
    requires Comparisons.StrictWeakOrder(less)
    ensures !Less(a, a, less)
    ensures Less(a, b, less) ==> !Less(b, a, less)
    ensures Less(a, b, less) && Less(b, c, less) ==> Less(a, c, less)
  {
    Comparisons.LexLessIrreflexive(a.Contents, less);
    Comparisons.LexLessAsymmetric(a.Contents, b.Contents, less);
    if Less(a, b, less) && Less(b, c, less) {
      Comparisons.LexLessTransitive(a.Contents, b.Contents, c.Contents, less);
    }
  }

  /** With a total ordering of the elements, exactly one of `<`, `==` and
      `>` holds, `<=` is `<` or `==`, and `>=` is `>` or `==`. */
  lemma OperatorsAgree<T(0,!new)>(lhs: SingleLinkedList<T>, rhs: SingleLinkedList<T>, less: (T, T) -> bool)
    requires lhs.Valid() && rhs.Valid()
    requires Comparisons.StrictTotalOrder(less)
    ensures Less(lhs, rhs, less) || Equal(lhs, rhs) || Greater(lhs, rhs, less)
    ensures !(Less(lhs, rhs, less) && Equal(lhs, rhs))
    ensures !(Less(lhs, rhs, less) && Greater(lhs, rhs, less))
    ensures !(Equal(lhs, rhs) && Greater(lhs, rhs, less))
    ensures LessOrEqual(lhs, rhs, less) <==> Less(lhs, rhs, less) || Equal(lhs, rhs)
    ensures GreaterOrEqual(lhs, rhs, less) <==> Greater(lhs, rhs, less) || Equal(lhs, rhs)
  {
    Comparisons.LexLessTrichotomous(lhs.Contents, rhs.Contents, less);
    Comparisons.LexLessAsymmetric(lhs.Contents, rhs.Contents, less);
    Comparisons.LexLessIrreflexive(lhs.Contents, less);
  }
}
