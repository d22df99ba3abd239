/** `MD5ModelToMesh::buildBoneAssignments`: each vertex's weights are sorted
    by decreasing bias (a stable sort, so equal biases keep their file
    order), cut down to at most `maxWeights` of them when that is positive,
    and renormalised so that the written weights add up to 1. */
module SkinWeights {
  import opened Md5Model
  import opened OgreMesh

  /** Weight `i` is written before weight `j`: it has the larger bias, or
      the same bias and comes first in the file. */
  predicate Before(ws: seq<Weight>, i: nat, j: nat)
    requires i < |ws| && j < |ws|
  {
    ws[i].bias > ws[j].bias || (ws[i].bias == ws[j].bias && i < j)
  }

  predicate IndicesBelow(order: seq<nat>, n: nat) {
    forall k :: 0 <= k < |order| ==> order[k] < n
  }

  /** Every pair of positions of `order` is in `Before` order (which makes
      its entries distinct). */
  predicate SortedBy(ws: seq<Weight>, order: seq<nat>)
    requires IndicesBelow(order, |ws|)
  {
    forall a, b :: 0 <= a < b < |order| ==> Before(ws, order[a], order[b])
  }

  /** Inserts index `i` in front of the first entry it goes before. */
  function Insert(ws: seq<Weight>, order: seq<nat>, i: nat, bound: nat): (r: seq<nat>)
    requires i < bound <= |ws| && IndicesBelow(order, bound)
    ensures |r| == |order| + 1 && IndicesBelow(r, bound)
    ensures multiset(r) == multiset(order) + multiset{i}
  {
    if order == [] then [i]
    else if Before(ws, i, order[0]) then
      [i] + order
    else
      assert order == [order[0]] + order[1..];
      [order[0]] + Insert(ws, order[1..], i, bound)
  }

  /** Inserting into a sorted order keeps it sorted. */
  lemma {:induction false} InsertSorted(ws: seq<Weight>, order: seq<nat>, i: nat, bound: nat)
    requires i < bound <= |ws| && IndicesBelow(order, bound) && SortedBy(ws, order) && i !in order
    ensures SortedBy(ws, Insert(ws, order, i, bound))
  {
    if order != [] && !Before(ws, i, order[0]) {
      var tail := order[1..];
      InsertSorted(ws, tail, i, bound);
      HeadBeforeInserted(ws, order, i, bound);
      ConsSorted(ws, order[0], Insert(ws, tail, i, bound));
    } else if order != [] {
      forall k | 0 <= k < |order|
        ensures Before(ws, i, order[k])
      {
        if k > 0 {
          assert Before(ws, order[0], order[k]);
        }
      }
      ConsSorted(ws, i, order);
    }
  }

  /** When `i` goes after the head of a sorted order, the head still goes
      before every entry of the rest with `i` inserted. */
  lemma HeadBeforeInserted(ws: seq<Weight>, order: seq<nat>, i: nat, bound: nat)
    requires i < bound <= |ws| && IndicesBelow(order, bound) && SortedBy(ws, order) && i !in order
    requires order != [] && !Before(ws, i, order[0])
    ensures forall k :: 0 <= k < |order| ==> Before(ws, order[0], Insert(ws, order[1..], i, bound)[k])
  {
    var tail := order[1..];
    var rest := Insert(ws, tail, i, bound);
    forall k | 0 <= k < |rest|
      ensures Before(ws, order[0], rest[k])
    {
      assert rest[k] in multiset(rest);
      if rest[k] != i {
        assert rest[k] in tail;
        var m :| 0 <= m < |tail| && tail[m] == rest[k];
        assert order[1 + m] == rest[k];
      }
    }
  }

  /** An entry that goes before every entry of a sorted order can head it. */
  lemma ConsSorted(ws: seq<Weight>, x: nat, rest: seq<nat>)
    requires x < |ws| && IndicesBelow(rest, |ws|) && SortedBy(ws, rest)
    requires forall k :: 0 <= k < |rest| ==> Before(ws, x, rest[k])
    ensures IndicesBelow([x] + rest, |ws|) && SortedBy(ws, [x] + rest)
  {
    var r := [x] + rest;
    forall a, b | 0 <= a < b < |r|
      ensures Before(ws, r[a], r[b])
    {
      if a > 0 {
        assert r[a] == rest[a - 1] && r[b] == rest[b - 1];
      }
    }
  }

  /** The order in which the first `n` weights are written. */
  function SortOrder(ws: seq<Weight>, n: nat): (order: seq<nat>)
    requires n <= |ws|
    ensures |order| == n && IndicesBelow(order, n)
    ensures multiset(order) == multiset(Indices(n))
  {
    if n == 0 then []
    else
      var prev := SortOrder(ws, n - 1);
      assert Indices(n) == Indices(n - 1) + [n - 1];
      Insert(ws, prev, n - 1, n)
  }

  /** The indices 0 to n - 1 in increasing order. */
  function Indices(n: nat): (r: seq<nat>)
    ensures |r| == n && forall k :: 0 <= k < n ==> r[k] == k
  {
    if n == 0 then [] else Indices(n - 1) + [n - 1]
  }

  /** `SortOrder` is a sorted arrangement of all the indices. */
  lemma {:induction false} SortOrderSorted(ws: seq<Weight>, n: nat)
    requires n <= |ws|
    ensures SortedBy(ws, SortOrder(ws, n))
  {
    if n > 0 {
      var prev := SortOrder(ws, n - 1);
      SortOrderSorted(ws, n - 1);
      assert (n - 1) as nat !in prev;
      InsertSorted(ws, prev, n - 1, n);
    }
  }

  /** The `std::stable_sort` over reverse iterators with `<` on the bias:
      the weights in order of decreasing bias, ties in file order. */
  function SortWeights(ws: seq<Weight>): (sorted: seq<Weight>)
    ensures |sorted| == |ws|
    ensures forall a, b :: 0 <= a < b < |sorted| ==> sorted[a].bias >= sorted[b].bias
    ensures multiset(sorted) == multiset(ws)
  {
    var order := SortOrder(ws, |ws|);
    SortOrderSorted(ws, |ws|);
    assert forall a, b :: 0 <= a < b < |ws| ==> Before(ws, order[a], order[b]);
    PermuteByOrder(ws, order);
    Pick(ws, order)
  }

  /** The weights at the positions `order` lists, in that order. */
  function Pick(ws: seq<Weight>, order: seq<nat>): (r: seq<Weight>)
    requires IndicesBelow(order, |ws|)
    ensures |r| == |order| && forall k :: 0 <= k < |order| ==> r[k] == ws[order[k]]
  {
    seq(|order|, k requires 0 <= k < |order| => ws[order[k]])
  }

  lemma PickAppend(ws: seq<Weight>, o1: seq<nat>, o2: seq<nat>)
    requires IndicesBelow(o1, |ws|) && IndicesBelow(o2, |ws|)
    ensures IndicesBelow(o1 + o2, |ws|) && Pick(ws, o1 + o2) == Pick(ws, o1) + Pick(ws, o2)
  {
  }

  lemma PickSplit(ws: seq<Weight>, o: seq<nat>, m: nat)
    requires IndicesBelow(o, |ws|) && m < |o|
    ensures Pick(ws, o) == Pick(ws, o[..m]) + [ws[o[m]]] + Pick(ws, o[m + 1..])
  {
    var left, right := Pick(ws, o[..m]), Pick(ws, o[m + 1..]);
    assert forall k :: 0 <= k < m ==> Pick(ws, o)[k] == left[k];
    assert forall k :: m < k < |o| ==> Pick(ws, o)[k] == right[k - m - 1];
  }

  /** Rearranging a sequence by a permutation of its indices keeps its
      multiset of elements. */
  lemma PermuteByOrder(ws: seq<Weight>, order: seq<nat>)
    requires IndicesBelow(order, |ws|)
    requires multiset(order) == multiset(Indices(|ws|))
    ensures multiset(Pick(ws, order)) == multiset(ws)
  {
    MapMultiset(ws, order, Indices(|ws|));
    assert Pick(ws, Indices(|ws|)) == ws;
  }

  /** Two index sequences with the same multiset pick out the same multiset
      of elements. */
  lemma {:induction false} MapMultiset(ws: seq<Weight>, o1: seq<nat>, o2: seq<nat>)
    requires IndicesBelow(o1, |ws|) && IndicesBelow(o2, |ws|)
    requires multiset(o1) == multiset(o2)
    ensures multiset(Pick(ws, o1)) == multiset(Pick(ws, o2))
    decreases |o1|
  {
    if o1 != [] {
      assert o1[0] in multiset(o2);
      var m :| 0 <= m < |o2| && o2[m] == o1[0];
      RemoveOne(o1, o2, m);
      PickRemove(ws, o1, 0);
      PickRemove(ws, o2, m);
      MapMultiset(ws, Without(o1, 0), Without(o2, m));
    }
  }

  /** `o` without its entry at position `m`. */
  function Without(o: seq<nat>, m: nat): (r: seq<nat>)
    requires m < |o|
    ensures |r| == |o| - 1
  {
    o[..m] + o[m + 1..]
  }

  /** Taking the first entry out of one side and the same value out of the
      other keeps the multisets equal. */
  lemma RemoveOne(o1: seq<nat>, o2: seq<nat>, m: nat)
    requires multiset(o1) == multiset(o2) && o1 != [] && m < |o2| && o2[m] == o1[0]
    ensures multiset(Without(o1, 0)) == multiset(Without(o2, m))
  {
    assert o1 == [o1[0]] + Without(o1, 0);
    assert o2 == o2[..m] + [o2[m]] + o2[m + 1..];
    assert multiset(Without(o1, 0)) == multiset(o1) - multiset{o1[0]};
  }

  /** The multiset picked by `o` is the one picked without position `m`,
      plus the element at `m`. */
  lemma PickRemove(ws: seq<Weight>, o: seq<nat>, m: nat)
    requires IndicesBelow(o, |ws|) && m < |o|
    ensures IndicesBelow(Without(o, m), |ws|)
    ensures multiset(Pick(ws, o)) == multiset{ws[o[m]]} + multiset(Pick(ws, Without(o, m)))
  {
    PickSplit(ws, o, m);
    PickAppend(ws, o[..m], o[m + 1..]);
  }

  /** `SortWeights` is stable: among weights of equal bias the written
      order is the file order. */
  lemma SortWeightsStable(ws: seq<Weight>)
    ensures var order := SortOrder(ws, |ws|);
      SortWeights(ws) == Pick(ws, order) &&
      forall a, b :: 0 <= a < b < |ws| && ws[order[a]].bias == ws[order[b]].bias ==>
        order[a] < order[b]
  {
    var order := SortOrder(ws, |ws|);
    SortOrderSorted(ws, |ws|);
    assert forall a, b :: 0 <= a < b < |ws| ==> Before(ws, order[a], order[b]);
  }

  /** Two orders that are both sorted by `Before` and list the same indices
      are equal: whatever stable sort the program uses, it yields this
      order. */
  lemma {:induction false} SortedOrderUnique(ws: seq<Weight>, o1: seq<nat>, o2: seq<nat>)
    requires IndicesBelow(o1, |ws|) && IndicesBelow(o2, |ws|)
    requires SortedBy(ws, o1) && SortedBy(ws, o2)
    requires multiset(o1) == multiset(o2)
    ensures o1 == o2
    decreases |o1|
  {
    if o1 != [] {
      assert |o2| == |multiset(o2)| == |o1|;
      HeadsAgree(ws, o1, o2);
      RemoveOne(o1, o2, 0);
      assert Without(o1, 0) == o1[1..] && Without(o2, 0) == o2[1..];
      TailSorted(ws, o1);
      TailSorted(ws, o2);
      SortedOrderUnique(ws, o1[1..], o2[1..]);
      assert o1 == [o1[0]] + o1[1..] && o2 == [o2[0]] + o2[1..];
    }
  }

  lemma TailSorted(ws: seq<Weight>, o: seq<nat>)
    requires IndicesBelow(o, |ws|) && SortedBy(ws, o) && o != []
    ensures IndicesBelow(o[1..], |ws|) && SortedBy(ws, o[1..])
  {
    forall a, b | 0 <= a < b < |o| - 1
      ensures Before(ws, o[1..][a], o[1..][b])
    {
      assert o[1..][a] == o[a + 1] && o[1..][b] == o[b + 1];
    }
  }

  /** The first entry of a sorted order is the entry that goes before all
      others, so two sorted orders of the same indices start alike. */
  lemma HeadsAgree(ws: seq<Weight>, o1: seq<nat>, o2: seq<nat>)
    requires IndicesBelow(o1, |ws|) && IndicesBelow(o2, |ws|)
    requires SortedBy(ws, o1) && SortedBy(ws, o2)
    requires multiset(o1) == multiset(o2) && o1 != []
    ensures o2 != [] && o1[0] == o2[0]
  {
    assert o1[0] in multiset(o2);
    var k1 :| 0 <= k1 < |o2| && o2[k1] == o1[0];
    assert o2[0] in multiset(o1);
    var k2 :| 0 <= k2 < |o1| && o1[k2] == o2[0];
    assert o1[0] == o2[0];
  }

  /** The weights kept: all of them unless `maxWeights` is positive and
      smaller than their number (the default -1 means no limit). */
  function Truncate(sorted: seq<Weight>, maxWeights: int): (kept: seq<Weight>)
    ensures kept <= sorted
    ensures maxWeights > 0 ==> |kept| <= maxWeights
    ensures maxWeights <= 0 || |sorted| <= maxWeights ==> kept == sorted
    ensures maxWeights > 0 && |sorted| > maxWeights ==> |kept| == maxWeights
  {
    if maxWeights > 0 && |sorted| > maxWeights then sorted[..maxWeights] else sorted
  }

  /** The total bias of the kept weights. */
  function TotalBias(ws: seq<Weight>): real {
    if ws == [] then 0.0 else TotalBias(ws[..|ws| - 1]) + ws[|ws| - 1].bias
  }

  /** The sum of the written weights. */
  function TotalWeight(out: seq<BoneAssignment>): real {
    if out == [] then 0.0 else TotalWeight(out[..|out| - 1]) + out[|out| - 1].weight
  }

  /** The assignments written for vertex `vertex` from its kept weights,
      each bias divided by the kept total. */
  function Renormalise(vertex: int, kept: seq<Weight>, total: real): (out: seq<BoneAssignment>)
    requires total != 0.0
    ensures |out| == |kept|
    ensures forall k :: 0 <= k < |out| ==>
      out[k].vertexIndex == vertex && out[k].boneIndex == kept[k].joint &&
      out[k].weight * total == kept[k].bias
  {
    seq(|kept|, k requires 0 <= k < |kept| =>
      BoneAssignment(vertex, kept[k].joint, kept[k].bias / total))
  }

  /** The written weights add up to the kept total over itself, that is 1. */
  lemma {:induction false} RenormaliseSum(vertex: int, kept: seq<Weight>, total: real)
    requires total != 0.0
    ensures TotalWeight(Renormalise(vertex, kept, total)) == TotalBias(kept) / total
  {
    var out := Renormalise(vertex, kept, total);
    if kept != [] {
      var n := |kept| - 1;
      RenormaliseSum(vertex, kept[..n], total);
      assert out[..n] == Renormalise(vertex, kept[..n], total);
      assert out[n].weight == kept[n].bias / total;
      assert TotalWeight(out) == TotalWeight(out[..n]) + out[n].weight;
      AddQuotients(TotalBias(kept[..n]), kept[n].bias, total);
    }
  }

  lemma AddQuotients(a: real, b: real, t: real)
    requires t != 0.0
    ensures a / t + b / t == (a + b) / t
  {
  }

  /** `buildBoneAssignments` for one vertex with weights `ws` (its run, in
      file order). A non-empty kept set with zero total bias would divide
      by zero, which the program does not guard against. */
  function VertexAssignments(vertex: int, ws: seq<Weight>, maxWeights: int): (out: seq<BoneAssignment>)
    requires var kept := Truncate(SortWeights(ws), maxWeights); kept == [] || TotalBias(kept) != 0.0
    ensures maxWeights > 0 ==> |out| <= maxWeights
    ensures maxWeights <= 0 || |ws| <= maxWeights ==> |out| == |ws|
    ensures forall k :: 0 <= k < |out| ==> out[k].vertexIndex == vertex
    ensures forall k :: 0 <= k < |out| ==> exists j :: 0 <= j < |ws| && out[k].boneIndex == ws[j].joint
  {
    var sorted := SortWeights(ws);
    var kept := Truncate(sorted, maxWeights);
    if kept == [] then []
    else
      var out := Renormalise(vertex, kept, TotalBias(kept));
      assert forall k :: 0 <= k < |out| ==> kept[k] in ws;
      out
  }

  /** The written weights of a vertex sum to 1. */
  lemma VertexAssignmentsSumToOne(vertex: int, ws: seq<Weight>, maxWeights: int)
    requires var kept := Truncate(SortWeights(ws), maxWeights); kept != [] && TotalBias(kept) != 0.0
    ensures TotalWeight(VertexAssignments(vertex, ws, maxWeights)) == 1.0
  {
    VertexAssignmentsRenormalise(vertex, ws, maxWeights);
    RenormalisedSumToOne(vertex, Truncate(SortWeights(ws), maxWeights));
  }

  lemma RenormalisedSumToOne(vertex: int, kept: seq<Weight>)
    requires TotalBias(kept) != 0.0
    ensures TotalWeight(Renormalise(vertex, kept, TotalBias(kept))) == 1.0
  {
    RenormaliseSum(vertex, kept, TotalBias(kept));
    SelfQuotient(TotalBias(kept));
  }

  /** A vertex with weights kept writes them renormalised by their total. */
  lemma VertexAssignmentsRenormalise(vertex: int, ws: seq<Weight>, maxWeights: int)
    requires var kept := Truncate(SortWeights(ws), maxWeights); kept != [] && TotalBias(kept) != 0.0
    ensures var kept := Truncate(SortWeights(ws), maxWeights);
      VertexAssignments(vertex, ws, maxWeights) == Renormalise(vertex, kept, TotalBias(kept))
  {
  }

  /** With a positive kept total the written weights decrease, like the
      biases they come from. */
  lemma VertexAssignmentsDecrease(vertex: int, ws: seq<Weight>, maxWeights: int)
    requires var kept := Truncate(SortWeights(ws), maxWeights); kept != [] && TotalBias(kept) > 0.0
    ensures var out := VertexAssignments(vertex, ws, maxWeights);
      forall a, b :: 0 <= a < b < |out| ==> out[a].weight >= out[b].weight
  {
    var kept := Truncate(SortWeights(ws), maxWeights);
    var total := TotalBias(kept);
    var out := Renormalise(vertex, kept, total);
    VertexAssignmentsRenormalise(vertex, ws, maxWeights);
    forall a, b | 0 <= a < b < |out|
      ensures out[a].weight >= out[b].weight
    {
      assert kept[a].bias >= kept[b].bias;
      DivideMonotone(kept[a].bias, kept[b].bias, total);
    }
  }

  lemma SelfQuotient(t: real)
    requires t != 0.0
    ensures t / t == 1.0
  {
  }

  lemma DivideMonotone(x: real, y: real, t: real)
    requires t > 0.0 && x >= y
    ensures x / t >= y / t
  {
  }

  /** Vertex `i` keeps no weights, or kept weights with a non-zero total,
      so that renormalising them does not divide by zero. */
  predicate Renormalisable(mesh: Mesh, maxWeights: int, i: int)
    requires 0 <= i < |mesh.vertices| && RunInRange(mesh.vertices[i], mesh.weights)
  {
    var kept := Truncate(SortWeights(Run(mesh.vertices[i], mesh.weights)), maxWeights);
    kept == [] || TotalBias(kept) != 0.0
  }

  /** `buildBoneAssignments` over a whole mesh: the vertices' assignments
      one after another, in vertex order. */
  function BuildBoneAssignments(mesh: Mesh, maxWeights: int, n: nat): (out: seq<BoneAssignment>)
    requires n <= |mesh.vertices|
    requires forall i :: 0 <= i < |mesh.vertices| ==> RunInRange(mesh.vertices[i], mesh.weights)
    requires forall i :: 0 <= i < |mesh.vertices| ==> Renormalisable(mesh, maxWeights, i)
    ensures forall k :: 0 <= k < |out| ==> 0 <= out[k].vertexIndex < n
    ensures maxWeights > 0 ==> |out| <= n * maxWeights && AtMostPerVertex(out, maxWeights)
  {
    if n == 0 then []
    else
      var prev := BuildBoneAssignments(mesh, maxWeights, n - 1);
      var v := mesh.vertices[n - 1];
      assert Renormalisable(mesh, maxWeights, n - 1);
      var last := VertexAssignments(n - 1, Run(v, mesh.weights), maxWeights);
      AppendBlock(prev, last, n - 1, maxWeights);
      prev + last
  }

  /** The assignments of vertex `v`, in the order they are written. */
  function OfVertex(out: seq<BoneAssignment>, v: int): (r: seq<BoneAssignment>)
    ensures |r| <= |out|
    ensures forall k :: 0 <= k < |r| ==> r[k].vertexIndex == v
  {
    if out == [] then []
    else
      var last := out[|out| - 1];
      OfVertex(out[..|out| - 1], v) + (if last.vertexIndex == v then [last] else [])
  }

  lemma {:induction false} OfVertexAppend(a: seq<BoneAssignment>, b: seq<BoneAssignment>, v: int)
    ensures OfVertex(a + b, v) == OfVertex(a, v) + OfVertex(b, v)
  {
    if b == [] {
      assert a + b == a;
    } else {
      var b' := b[..|b| - 1];
      assert (a + b)[..|a + b| - 1] == a + b';
      assert (a + b)[|a + b| - 1] == b[|b| - 1];
      OfVertexAppend(a, b', v);
    }
  }

  lemma {:induction false} OfVertexAll(s: seq<BoneAssignment>, v: int)
    requires forall k :: 0 <= k < |s| ==> s[k].vertexIndex == v
    ensures OfVertex(s, v) == s
  {
    if s != [] {
      OfVertexAll(s[..|s| - 1], v);
      assert s == s[..|s| - 1] + [s[|s| - 1]];
    }
  }

  lemma {:induction false} OfVertexNone(s: seq<BoneAssignment>, v: int)
    requires forall k :: 0 <= k < |s| ==> s[k].vertexIndex != v
    ensures OfVertex(s, v) == []
  {
    if s != [] {
      OfVertexNone(s[..|s| - 1], v);
    }
  }

  /** Appending a block of assignments that all belong to vertex `m`
      extends the assignments of `m` by that block and leaves every other
      vertex's alone. */
  lemma OfVertexBlock(prev: seq<BoneAssignment>, last: seq<BoneAssignment>, v: int, m: int)
    requires forall k :: 0 <= k < |last| ==> last[k].vertexIndex == m
    ensures v != m ==> OfVertex(prev + last, v) == OfVertex(prev, v)
    ensures v == m && OfVertex(prev, v) == [] ==> OfVertex(prev + last, v) == last
  {
    OfVertexAppend(prev, last, v);
    if v == m {
      OfVertexAll(last, v);
      assert [] + last == last;
    } else {
      OfVertexNone(last, v);
      assert OfVertex(prev, v) + [] == OfVertex(prev, v);
    }
  }

  /** When every earlier assignment names a vertex before `m`, the
      assignments of `m` are exactly the block appended for it. */
  lemma LastBlock(prev: seq<BoneAssignment>, last: seq<BoneAssignment>, m: int)
    requires forall k :: 0 <= k < |prev| ==> prev[k].vertexIndex < m
    requires forall k :: 0 <= k < |last| ==> last[k].vertexIndex == m
    ensures OfVertex(prev + last, m) == last
  {
    OfVertexNone(prev, m);
    OfVertexBlock(prev, last, m, m);
  }

  /** No vertex has more than `bound` assignments in `out`. */
  ghost predicate AtMostPerVertex(out: seq<BoneAssignment>, bound: int) {
    forall v :: |OfVertex(out, v)| <= bound
  }

  /** Appending vertex `m`'s block, of at most `bound` assignments when
      `bound` is positive, after assignments of earlier vertices only: the
      result names vertices before `m + 1` and keeps every vertex within
      `bound`. */
  lemma AppendBlock(prev: seq<BoneAssignment>, last: seq<BoneAssignment>, m: nat, bound: int)
    requires forall k :: 0 <= k < |prev| ==> 0 <= prev[k].vertexIndex < m
    requires forall k :: 0 <= k < |last| ==> last[k].vertexIndex == m
    requires bound > 0 ==> |last| <= bound && |prev| <= m * bound && AtMostPerVertex(prev, bound)
    ensures forall k :: 0 <= k < |prev + last| ==> 0 <= (prev + last)[k].vertexIndex < m + 1
    ensures bound > 0 ==> |prev + last| <= (m + 1) * bound && AtMostPerVertex(prev + last, bound)
  {
    if bound > 0 {
      forall v ensures |OfVertex(prev + last, v)| <= bound {
        if v == m {
          LastBlock(prev, last, m);
        } else {
          OfVertexBlock(prev, last, v, m);
        }
      }
    }
  }
}
