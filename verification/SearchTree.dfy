/**
 The binary search tree section: nodes numbered in preorder, two 28-bit records
 per seven-byte node, and the search algorithm of the MaxMind DB format.
 */
module SearchTree {
  import opened Bytes
  import opened ContentOrder
  import opened Trie

  type Offsets = map<Value, nat>

  const TWO28 := 0x1000_0000

  /** Only internal nodes are numbered. */
  function NodeCount(t: Tree): nat {
    match t
    case Fork(l, r) => 1 + NodeCount(l) + NodeCount(r)
    case _ => 0
  }

  /** The record for a child: node number, node count for "nothing", or data beyond it. */
  function RecordOf(t: Tree, id: nat, n: nat, offsets: Offsets): nat {
    match t
    case Absent => n
    case Leaf(d) => if d.Null? || d !in offsets then n else n + 16 + offsets[d]
    case Fork(_, _) => id
  }

  /** The record pairs of all nodes, in preorder, starting at number `id`. */
  function NodeRecords(t: Tree, id: nat, n: nat, offsets: Offsets): (rs: seq<(nat, nat)>)
    ensures |rs| == NodeCount(t)
  {
    match t
    case Fork(l, r) =>
      var right := id + 1 + NodeCount(l);
      [(RecordOf(l, id + 1, n, offsets), RecordOf(r, right, n, offsets))]
      + NodeRecords(l, id + 1, n, offsets) + NodeRecords(r, right, n, offsets)
    case _ => []
  }

  /** The seven bytes of a node; record bits above 28 are lost. */
  function PackNode(left: nat, right: nat): seq<byte> {
    [left / 65536 % 256, left / 256 % 256, left % 256,
     left / 16777216 % 16 * 16 + right / 16777216 % 16,
     right / 65536 % 256, right / 256 % 256, right % 256]
  }

  function PackNodes(rs: seq<(nat, nat)>): seq<byte> {
    if rs == [] then []
    else PackNodes(rs[..|rs| - 1]) + PackNode(rs[|rs| - 1].0, rs[|rs| - 1].1)
  }

  // ---- the search of the format -------------------------------------------

  function RecordAt(b: seq<byte>, node: nat, bit: bool): Option<nat> {
    var p := 7 * node;
    if p + 7 > |b| then None else Some(Unpack(b[p..p + 7], bit))
  }

  function Unpack(s: seq<byte>, bit: bool): nat
    requires |s| == 7
  {
    if bit then Octet(s, 3) % 16 * 16777216 + Octet(s, 4) * 65536 + Octet(s, 5) * 256 + Octet(s, 6)
    else Octet(s, 3) / 16 * 16777216 + Octet(s, 0) * 65536 + Octet(s, 1) * 256 + Octet(s, 2)
  }

  datatype Found = NotFound | DataAt(offset: nat) | Malformed

  /** Follows records bit by bit from a record value; the search starts with record 0. */
  function Search(b: seq<byte>, n: nat, record: nat, addr: Bits): Found
    decreases |addr|
  {
    if record == n then NotFound
    else if record > n then
      if record < n + 16 then Malformed else DataAt(record - n - 16)
    else if addr == [] then Malformed
    else
      match RecordAt(b, record, addr[0])
      case None => Malformed
      case Some(next) => Search(b, n, next, addr[1..])
  }

  // ---- packing ------------------------------------------------------------

  lemma {:induction false} PackNodesLength(rs: seq<(nat, nat)>)
    ensures |PackNodes(rs)| == 7 * |rs|
  {
    if rs != [] { PackNodesLength(rs[..|rs| - 1]); }
  }

  lemma {:induction false} PackNodesAt(rs: seq<(nat, nat)>, i: nat)
    requires i < |rs|
    ensures |PackNodes(rs)| == 7 * |rs| && PackNodes(rs)[7 * i..7 * i + 7] == PackNode(rs[i].0, rs[i].1)
  {
    PackNodesLength(rs);
    var init := rs[..|rs| - 1];
    PackNodesLength(init);
    if i < |rs| - 1 {
      PackNodesAt(init, i);
      assert PackNodes(rs)[7 * i..7 * i + 7] == PackNodes(init)[7 * i..7 * i + 7];
    }
  }

  lemma SplitRecord(r: nat)
    requires r < TWO28
    ensures r == r / 16777216 % 16 * 16777216 + r / 65536 % 256 * 65536 + r / 256 % 256 * 256 + r % 256
  {
    assert r / 65536 == r / 16777216 * 256 + r / 65536 % 256;
    assert r / 256 == r / 65536 * 256 + r / 256 % 256;
  }

  lemma PackUnpack(left: nat, right: nat, bit: bool)
    requires left < TWO28 && right < TWO28
    ensures Unpack(PackNode(left, right), bit) == if bit then right else left
  {
    SplitRecord(left);
    SplitRecord(right);
    Nibbles(left / 16777216 % 16, right / 16777216 % 16);
  }

  lemma Nibbles(hi: nat, lo: nat)
    requires hi < 16 && lo < 16
    ensures (hi * 16 + lo) / 16 == hi && (hi * 16 + lo) % 16 == lo
  {
  }

  /** Every record reads back from the packed nodes. */
  ghost predicate Unpacks(b: seq<byte>, rs: seq<(nat, nat)>) {
    forall i, bit | 0 <= i < |rs| :: RecordAt(b, i, bit) == Some(if bit then rs[i].1 else rs[i].0)
  }

  ghost predicate RecordsFit(rs: seq<(nat, nat)>) {
    forall i | 0 <= i < |rs| :: rs[i].0 < TWO28 && rs[i].1 < TWO28
  }

  /** Records below 2^28 survive packing. */
  lemma RecordsSurvive(rs: seq<(nat, nat)>, tail: seq<byte>)
    requires RecordsFit(rs)
    ensures Unpacks(PackNodes(rs) + tail, rs)
  {
    var b := PackNodes(rs) + tail;
    forall i, bit | 0 <= i < |rs| ensures RecordAt(b, i, bit) == Some(if bit then rs[i].1 else rs[i].0) {
      PackNodesAt(rs, i);
      assert b[7 * i..7 * i + 7] == PackNodes(rs)[7 * i..7 * i + 7];
      PackUnpack(rs[i].0, rs[i].1, bit);
    }
  }

  // ---- the flat tree answers like the trie --------------------------------

  /** `rs` holds the records `part` from position `id` on. */
  ghost predicate Placed(rs: seq<(nat, nat)>, part: seq<(nat, nat)>, id: nat) {
    id + |part| <= |rs| && forall k | 0 <= k < |part| :: rs[id + k] == part[k]
  }

  lemma PlacedParts(rs: seq<(nat, nat)>, a: (nat, nat), ls: seq<(nat, nat)>, rr: seq<(nat, nat)>, id: nat)
    requires Placed(rs, [a] + ls + rr, id)
    ensures rs[id] == a && Placed(rs, ls, id + 1) && Placed(rs, rr, id + 1 + |ls|)
  {
    var all := [a] + ls + rr;
    assert rs[id + 0] == all[0];
    forall k | 0 <= k < |ls| ensures rs[id + 1 + k] == ls[k] { assert rs[id + (1 + k)] == all[1 + k]; }
    forall k | 0 <= k < |rr| ensures rs[id + 1 + |ls| + k] == rr[k] {
      assert rs[id + (1 + |ls| + k)] == all[1 + |ls| + k];
    }
  }

  /** Every internal node of `t` finds its children's records at its own number. */
  ghost predicate Linked(rs: seq<(nat, nat)>, t: Tree, id: nat, offsets: Offsets) {
    t.Fork? ==>
      var right := id + 1 + NodeCount(t.left);
      && id < |rs|
      && rs[id] == (RecordOf(t.left, id + 1, |rs|, offsets), RecordOf(t.right, right, |rs|, offsets))
      && Linked(rs, t.left, id + 1, offsets)
      && Linked(rs, t.right, right, offsets)
  }

  lemma {:induction false} PlacedIsLinked(rs: seq<(nat, nat)>, t: Tree, id: nat, offsets: Offsets)
    requires Placed(rs, NodeRecords(t, id, |rs|, offsets), id)
    ensures Linked(rs, t, id, offsets)
    decreases t
  {
    if t.Fork? {
      var n, right := |rs|, id + 1 + NodeCount(t.left);
      PlacedParts(rs, (RecordOf(t.left, id + 1, n, offsets), RecordOf(t.right, right, n, offsets)),
                  NodeRecords(t.left, id + 1, n, offsets), NodeRecords(t.right, right, n, offsets), id);
      PlacedIsLinked(rs, t.left, id + 1, offsets);
      PlacedIsLinked(rs, t.right, right, offsets);
    }
  }

  lemma PlacedJoin(rs: seq<(nat, nat)>, a: (nat, nat), ls: seq<(nat, nat)>, rr: seq<(nat, nat)>, id: nat)
    requires id < |rs| && rs[id] == a && Placed(rs, ls, id + 1) && Placed(rs, rr, id + 1 + |ls|)
    ensures Placed(rs, [a] + ls + rr, id)
  {
    var all := [a] + ls + rr;
    forall k | 0 <= k < |all| ensures rs[id + k] == all[k] {
      if 1 <= k <= |ls| { assert rs[id + 1 + (k - 1)] == ls[k - 1]; }
      else if k > |ls| { assert rs[id + 1 + |ls| + (k - 1 - |ls|)] == rr[k - 1 - |ls|]; }
    }
  }

  lemma {:induction false} LinkedIsPlaced(rs: seq<(nat, nat)>, t: Tree, id: nat, offsets: Offsets)
    requires Linked(rs, t, id, offsets) && id + NodeCount(t) <= |rs|
    ensures Placed(rs, NodeRecords(t, id, |rs|, offsets), id)
    decreases t
  {
    if t.Fork? {
      var n, right := |rs|, id + 1 + NodeCount(t.left);
      LinkedIsPlaced(rs, t.left, id + 1, offsets);
      LinkedIsPlaced(rs, t.right, right, offsets);
      PlacedJoin(rs, rs[id], NodeRecords(t.left, id + 1, n, offsets), NodeRecords(t.right, right, n, offsets), id);
    }
  }

  /** Linked records are the records of the tree: numbering in preorder is forced. */
  lemma LinkedDetermines(rs: seq<(nat, nat)>, t: Tree, offsets: Offsets)
    requires |rs| == NodeCount(t) && Linked(rs, t, 0, offsets)
    ensures rs == NodeRecords(t, 0, NodeCount(t), offsets)
  {
    LinkedIsPlaced(rs, t, 0, offsets);
    var part := NodeRecords(t, 0, |rs|, offsets);
    forall k | 0 <= k < |rs| ensures rs[k] == part[k] { assert rs[0 + k] == part[k]; }
  }

  function Answer(v: Value, offsets: Offsets): Found {
    if v.Null? || v !in offsets then NotFound else DataAt(offsets[v])
  }

  lemma SearchStep(b: seq<byte>, n: nat, record: nat, addr: Bits, next: nat)
    requires record < n && addr != [] && RecordAt(b, record, addr[0]) == Some(next)
    ensures Search(b, n, record, addr) == Search(b, n, next, addr[1..])
  {
  }

  lemma {:induction false} SearchSubtree(b: seq<byte>, rs: seq<(nat, nat)>, t: Tree, id: nat, offsets: Offsets, addr: Bits)
    requires Unpacks(b, rs) && Linked(rs, t, id, offsets) && Height(t) <= |addr|
    ensures Search(b, |rs|, RecordOf(t, id, |rs|, offsets), addr) == Answer(Lookup(t, addr), offsets)
    decreases t
  {
    if t.Fork? {
      SearchStep(b, |rs|, id, addr, if addr[0] then rs[id].1 else rs[id].0);
      if addr[0] {
        SearchSubtree(b, rs, t.right, id + 1 + NodeCount(t.left), offsets, addr[1..]);
      } else {
        SearchSubtree(b, rs, t.left, id + 1, offsets, addr[1..]);
      }
    }
  }

  /** Walking the packed nodes from node 0 gives the answer of the trie. */
  lemma SearchIsLookup(t: Tree, offsets: Offsets, tail: seq<byte>, addr: Bits)
    requires t.Fork? && Height(t) <= |addr|
    requires RecordsFit(NodeRecords(t, 0, NodeCount(t), offsets))
    ensures Search(PackNodes(NodeRecords(t, 0, NodeCount(t), offsets)) + tail, NodeCount(t), 0, addr)
         == Answer(Lookup(t, addr), offsets)
  {
    var n := NodeCount(t);
    var rs := NodeRecords(t, 0, n, offsets);
    RecordsSurvive(rs, tail);
    PlacedIsLinked(rs, t, 0, offsets);
    SearchSubtree(PackNodes(rs) + tail, rs, t, 0, offsets, addr);
  }

  /** Records fit when the largest offset does. */
  lemma {:induction false} SmallOffsetsFit(t: Tree, id: nat, n: nat, offsets: Offsets, limit: nat)
    requires forall v | v in offsets :: offsets[v] < limit
    requires id + NodeCount(t) <= n && n + 16 + limit <= TWO28
    ensures RecordsFit(NodeRecords(t, id, n, offsets))
    ensures RecordOf(t, id, n, offsets) < TWO28
    decreases t
  {
    if t.Fork? {
      SmallOffsetsFit(t.left, id + 1, n, offsets, limit);
      SmallOffsetsFit(t.right, id + 1 + NodeCount(t.left), n, offsets, limit);
    }
  }

  /** A tree without internal nodes has no nodes to search: nothing is ever found. */
  lemma LeafRootFindsNothing(t: Tree, offsets: Offsets, tail: seq<byte>, addr: Bits)
    requires !t.Fork?
    ensures Search(PackNodes(NodeRecords(t, 0, NodeCount(t), offsets)) + tail, NodeCount(t), 0, addr) == NotFound
  {
  }
}
