/** A map kept as the sequence of its entries in ascending order of their keys, which is what
    iterating over a `std::map` goes through. */
module OrderedMap {
  import opened Options

  datatype Node<T> = Node(key: nat, value: T)

  predicate Sorted<T>(m: seq<Node<T>>) {
    forall i, j :: 0 <= i < j < |m| ==> m[i].key < m[j].key
  }

  /** Where the first entry is that does not come before `k`. */
  function Position<T>(m: seq<Node<T>>, k: nat): (p: nat)
    ensures p <= |m|
    ensures forall i :: 0 <= i < p ==> m[i].key < k
    ensures p < |m| ==> m[p].key >= k
    decreases |m|
  {
    if m == [] || m[0].key >= k then 0 else 1 + Position(m[1..], k)
  }

  predicate Has<T>(m: seq<Node<T>>, k: nat) {
    Position(m, k) < |m| && m[Position(m, k)].key == k
  }

  function Find<T>(m: seq<Node<T>>, k: nat): Option<T> {
    if Has(m, k) then Some(m[Position(m, k)].value) else None
  }

  /** Puts a new entry in its place (`emplace` of a key that is not there). */
  function Insert<T>(m: seq<Node<T>>, k: nat, v: T): seq<Node<T>> {
    m[..Position(m, k)] + [Node(k, v)] + m[Position(m, k)..]
  }

  function Update<T>(m: seq<Node<T>>, k: nat, v: T): seq<Node<T>>
    requires Has(m, k)
  {
    m[Position(m, k) := Node(k, v)]
  }

  function Erase<T>(m: seq<Node<T>>, k: nat): seq<Node<T>>
    requires Has(m, k)
  {
    m[..Position(m, k)] + m[Position(m, k) + 1..]
  }

  /** In an ordered sequence a key is found wherever it is. */
  lemma FindsAt<T>(m: seq<Node<T>>, i: nat)
    requires Sorted(m) && i < |m|
    ensures Position(m, m[i].key) == i
  {
    var p := Position(m, m[i].key);
    assert p >= i ==> p == i;
  }

  lemma FindsMember<T>(m: seq<Node<T>>, n: Node<T>)
    requires Sorted(m) && n in m
    ensures Find(m, n.key) == Some(n.value)
  {
    var i :| 0 <= i < |m| && m[i] == n;
    FindsAt(m, i);
  }

  lemma FoundIsMember<T>(m: seq<Node<T>>, k: nat)
    ensures Find(m, k).Some? ==> Node(k, Find(m, k).value) in m
  {
    var p := Position(m, k);
    if Has(m, k) {
      assert m[p] == Node(k, m[p].value);
    }
  }

  /** Ordered sequences with the same entries for a key find the same for it. */
  lemma SameFind<T>(m: seq<Node<T>>, r: seq<Node<T>>, k: nat)
    requires Sorted(m) && Sorted(r)
    requires forall v :: Node(k, v) in m <==> Node(k, v) in r
    ensures Find(m, k) == Find(r, k)
  {
    hide Find, Sorted;
    FoundIsMember(m, k);
    FoundIsMember(r, k);
    if Find(m, k).Some? {
      FindsMember(r, Node(k, Find(m, k).value));
    } else if Find(r, k).Some? {
      FindsMember(m, Node(k, Find(r, k).value));
    }
  }

  /** What comes before the place of `k`, and what comes behind it. */
  lemma AroundPosition<T>(m: seq<Node<T>>, k: nat)
    requires Sorted(m)
    ensures var p := Position(m, k);
            && (forall i :: p < i < |m| ==> m[i].key > k)
            && (!Has(m, k) ==> forall i :: p <= i < |m| ==> m[i].key > k)
  {
    var p := Position(m, k);
    if p < |m| {
      assert forall i :: p < i < |m| ==> m[p].key < m[i].key;
    }
  }

  lemma SplicedIsSorted<T>(a: seq<Node<T>>, mid: seq<Node<T>>, b: seq<Node<T>>, k: nat)
    requires Sorted(a) && Sorted(b) && |mid| <= 1 && (mid != [] ==> mid[0].key == k)
    requires forall i :: 0 <= i < |a| ==> a[i].key < k
    requires forall i :: 0 <= i < |b| ==> b[i].key > k
    ensures Sorted(a + mid + b)
  {
  }

  /** What is found when the entry for `k` is exchanged between entries in front of it and
      behind it. */
  lemma SplicedFinds<T>(a: seq<Node<T>>, mid: seq<Node<T>>, mid': seq<Node<T>>, b: seq<Node<T>>, k: nat, other: nat)
    requires Sorted(a) && Sorted(b) && |mid| <= 1 && |mid'| <= 1
    requires forall n :: n in mid || n in mid' ==> n.key == k
    requires forall i :: 0 <= i < |a| ==> a[i].key < k
    requires forall i :: 0 <= i < |b| ==> b[i].key > k
    ensures Sorted(a + mid' + b)
    ensures other != k ==> Find(a + mid' + b, other) == Find(a + mid + b, other)
    ensures Find(a + mid' + b, k) == if mid' == [] then None else Some(mid'[0].value)
  {
    hide Find;
    SplicedIsSorted(a, mid, b, k);
    SplicedIsSorted(a, mid', b, k);
    hide Sorted;
    var m, r := a + mid + b, a + mid' + b;
    if other != k {
      SameFind(m, r, other);
    }
    FoundIsMember(r, k);
    if mid' != [] {
      assert mid'[0] in r;
      FindsMember(r, mid'[0]);
    }
  }

  /** Inserting, updating and erasing keep the order and change what is found for the one key. */
  lemma InsertFinds<T>(m: seq<Node<T>>, k: nat, v: T, other: nat)
    requires Sorted(m) && !Has(m, k)
    ensures Sorted(Insert(m, k, v))
    ensures Find(Insert(m, k, v), other) == if other == k then Some(v) else Find(m, other)
  {
    hide Find, Position;
    var p := Position(m, k);
    AroundPosition(m, k);
    assert m == m[..p] + [] + m[p..];
    SplicedFinds(m[..p], [], [Node(k, v)], m[p..], k, other);
  }

  lemma UpdateFinds<T>(m: seq<Node<T>>, k: nat, v: T, other: nat)
    requires Sorted(m) && Has(m, k)
    ensures Sorted(Update(m, k, v))
    ensures Find(Update(m, k, v), other) == if other == k then Some(v) else Find(m, other)
  {
    hide Find, Position;
    var p := Position(m, k);
    AroundPosition(m, k);
    assert m == m[..p] + [m[p]] + m[p + 1..];
    assert Update(m, k, v) == m[..p] + [Node(k, v)] + m[p + 1..];
    SplicedFinds(m[..p], [m[p]], [Node(k, v)], m[p + 1..], k, other);
  }

  lemma EraseFinds<T>(m: seq<Node<T>>, k: nat, other: nat)
    requires Sorted(m) && Has(m, k)
    ensures Sorted(Erase(m, k))
    ensures Find(Erase(m, k), other) == if other == k then None else Find(m, other)
  {
    hide Find, Position;
    var p := Position(m, k);
    AroundPosition(m, k);
    assert m == m[..p] + [m[p]] + m[p + 1..];
    assert Erase(m, k) == m[..p] + [] + m[p + 1..];
    SplicedFinds(m[..p], [m[p]], [], m[p + 1..], k, other);
  }
}
