// The segment list the store hands out: one entry per unordered pair of
// nodes, ordered by circuit (segments without one last) and then by id.
module SegmentList {
  import opened Common
  import opened Plant
  import opened Fibers
  import opened LogicalGraph

  // ---------------------------------------------------------------------------
  // String order

  /** Lexicographic order on strings, by code point, as Python compares them. */
  predicate StrLe(a: string, b: string)
  {
    if a == [] then true
    else if b == [] then false
    else if a[0] != b[0] then a[0] < b[0]
    else StrLe(a[1..], b[1..])
  }

  lemma {:induction false} StrLeTotal(a: string, b: string)
    ensures StrLe(a, b) || StrLe(b, a)
  {
    if a != [] && b != [] && a[0] == b[0] {
      StrLeTotal(a[1..], b[1..]);
    }
  }

  lemma {:induction false} StrLeAntisymmetric(a: string, b: string)
    requires StrLe(a, b) && StrLe(b, a)
    ensures a == b
  {
    if a != [] && b != [] {
      StrLeAntisymmetric(a[1..], b[1..]);
      assert a == [a[0]] + a[1..] && b == [b[0]] + b[1..];
    }
  }

  lemma {:induction false} StrLeTransitive(a: string, b: string, c: string)
    requires StrLe(a, b) && StrLe(b, c)
    ensures StrLe(a, c)
  {
    if a != [] && b != [] && c != [] && a[0] == b[0] && b[0] == c[0] {
      StrLeTransitive(a[1..], b[1..], c[1..]);
    }
  }

  // ---------------------------------------------------------------------------
  // De-duplication by unordered pair

  /** The pair of endpoints in ascending order, the key `tuple(sorted((u, v)))`. */
  function SortedPair(u: NodeId, v: NodeId): (NodeId, NodeId)
  {
    if StrLe(u, v) then (u, v) else (v, u)
  }

  lemma SortedPairSame(u: NodeId, v: NodeId, a: NodeId, b: NodeId)
    ensures SortedPair(u, v) == SortedPair(a, b) <==> (u == a && v == b) || (u == b && v == a)
  {
    StrLeTotal(u, v);
    StrLeTotal(a, b);
    if StrLe(u, v) && StrLe(v, u) {
      StrLeAntisymmetric(u, v);
    }
    if StrLe(a, b) && StrLe(b, a) {
      StrLeAntisymmetric(a, b);
    }
  }

  /** The first entry for each unordered pair, in order. */
  function Dedup(segs: seq<Segment>): (r: seq<Segment>)
    ensures forall s :: s in r ==> s in segs
  {
    if segs == [] then []
    else
      var init := segs[..|segs| - 1];
      var s := segs[|segs| - 1];
      var rest := Dedup(init);
      assert forall t :: t in init ==> t in segs;
      if forall j :: 0 <= j < |init| ==> !SamePair(init[j], s.source, s.target) then rest + [s] else rest
  }

  /** Entry `i` is the first in the list to join its pair of nodes. */
  ghost predicate FirstOfPair(segs: seq<Segment>, i: nat)
    requires i < |segs|
  {
    forall k :: 0 <= k < i ==> !SamePair(segs[k], segs[i].source, segs[i].target)
  }

  /** Every first entry of a pair in `segs` is kept in `r`. */
  ghost predicate KeepsFirsts(r: seq<Segment>, segs: seq<Segment>)
  {
    forall i {:trigger FirstOfPair(segs, i)} :: 0 <= i < |segs| && FirstOfPair(segs, i) ==> segs[i] in r
  }

  /** Every entry of `r` is the first entry of its pair in `segs`. */
  ghost predicate OnlyFirsts(r: seq<Segment>, segs: seq<Segment>)
  {
    forall j :: 0 <= j < |r| ==> exists i :: 0 <= i < |segs| && r[j] == segs[i] && FirstOfPair(segs, i)
  }

  /** Every pair joined in `segs` is joined by some entry of `r`. */
  ghost predicate CoversPairs(r: seq<Segment>, segs: seq<Segment>)
  {
    forall i :: 0 <= i < |segs| ==> exists j :: 0 <= j < |r| && SamePair(r[j], segs[i].source, segs[i].target)
  }

  /** Whether an entry is first of its pair does not depend on the entries after it. */
  lemma FirstOfPairPrefix(segs: seq<Segment>, i: nat)
    requires i < |segs| - 1
    ensures FirstOfPair(segs, i) <==> FirstOfPair(segs[..|segs| - 1], i)
  {
    assert forall k :: 0 <= k <= i ==> segs[..|segs| - 1][k] == segs[k];
  }

  /** One step of `Dedup`: the last entry is appended exactly when it is the first of its pair. */
  lemma DedupLast(segs: seq<Segment>)
    requires segs != []
    ensures Dedup(segs)
         == if FirstOfPair(segs, |segs| - 1) then Dedup(segs[..|segs| - 1]) + [segs[|segs| - 1]]
            else Dedup(segs[..|segs| - 1])
  {
    assert forall k :: 0 <= k < |segs| - 1 ==> segs[..|segs| - 1][k] == segs[k];
  }

  /** Appending an entry whose pair the list does not join keeps the pairs unique. */
  lemma AppendPairsUnique(r: seq<Segment>, s: Segment)
    requires PairsUnique(r)
    requires forall j :: 0 <= j < |r| ==> !SamePair(r[j], s.source, s.target)
    ensures PairsUnique(r + [s])
  {
    var r' := r + [s];
    forall a, b | 0 <= a < |r'| && 0 <= b < |r'| && a != b ensures !SamePair(r'[b], r'[a].source, r'[a].target) {
      if a < |r| && b < |r| {
        assert r'[a] == r[a] && r'[b] == r[b];
      } else if a < |r| {
        assert !SamePair(r[a], s.source, s.target);
      } else {
        assert !SamePair(r[b], s.source, s.target);
      }
    }
  }

  /** De-duplication leaves no unordered pair joined twice. */
  lemma {:induction false} DedupPairsUnique(segs: seq<Segment>)
    ensures PairsUnique(Dedup(segs))
  {
    if segs != [] {
      var init, s := segs[..|segs| - 1], segs[|segs| - 1];
      var rest := Dedup(init);
      DedupPairsUnique(init);
      DedupLast(segs);
      if FirstOfPair(segs, |init|) {
        forall j | 0 <= j < |rest| ensures !SamePair(rest[j], s.source, s.target) {
          assert rest[j] in init;
          var k :| 0 <= k < |init| && init[k] == rest[j];
          assert segs[k] == rest[j];
        }
        AppendPairsUnique(rest, s);
      }
    }
  }

  /** The step of `DedupKeepsFirsts`: appending an entry keeps first entries kept. */
  lemma KeepsFirstsGrow(init: seq<Segment>, s: Segment, rest: seq<Segment>, r: seq<Segment>)
    requires KeepsFirsts(rest, init)
    requires r == if FirstOfPair(init + [s], |init|) then rest + [s] else rest
    ensures KeepsFirsts(r, init + [s])
  {
    var segs := init + [s];
    assert segs[..|init|] == init;
    forall i | 0 <= i < |segs| && FirstOfPair(segs, i) ensures segs[i] in r {
      if i < |init| {
        FirstOfPairPrefix(segs, i);
        assert init[i] == segs[i] && init[i] in rest;
      }
    }
  }

  /** The step of `DedupOnlyFirsts`: appending an entry keeps only first entries. */
  lemma OnlyFirstsGrow(init: seq<Segment>, s: Segment, rest: seq<Segment>, r: seq<Segment>)
    requires OnlyFirsts(rest, init)
    requires r == if FirstOfPair(init + [s], |init|) then rest + [s] else rest
    ensures OnlyFirsts(r, init + [s])
  {
    var segs := init + [s];
    assert segs[..|init|] == init;
    forall j | 0 <= j < |r| ensures exists i :: 0 <= i < |segs| && r[j] == segs[i] && FirstOfPair(segs, i) {
      if j < |rest| {
        var i :| 0 <= i < |init| && rest[j] == init[i] && FirstOfPair(init, i);
        FirstOfPairPrefix(segs, i);
        assert r[j] == rest[j] && init[i] == segs[i];
      } else {
        assert r[j] == segs[|init|];
      }
    }
  }

  /** The step of `DedupCoversPairs`: appending an entry keeps every pair joined. */
  lemma CoversPairsGrow(init: seq<Segment>, s: Segment, rest: seq<Segment>, r: seq<Segment>)
    requires CoversPairs(rest, init)
    requires r == if FirstOfPair(init + [s], |init|) then rest + [s] else rest
    ensures CoversPairs(r, init + [s])
  {
    var segs := init + [s];
    forall i | 0 <= i < |segs| ensures exists j :: 0 <= j < |r| && SamePair(r[j], segs[i].source, segs[i].target) {
      if i < |init| {
        var j :| 0 <= j < |rest| && SamePair(rest[j], init[i].source, init[i].target);
        assert r[j] == rest[j] && init[i] == segs[i];
      } else if FirstOfPair(segs, i) {
        assert r[|rest|] == s && SamePair(s, s.source, s.target);
      } else {
        var k :| 0 <= k < |init| && SamePair(segs[k], s.source, s.target);
        var j :| 0 <= j < |rest| && SamePair(rest[j], init[k].source, init[k].target);
        assert init[k] == segs[k] && r[j] == rest[j];
      }
    }
  }

  /** De-duplication keeps the first entry of every pair. */
  lemma {:induction false} DedupKeepsFirsts(segs: seq<Segment>)
    ensures KeepsFirsts(Dedup(segs), segs)
  {
    if segs != [] {
      var init, s := segs[..|segs| - 1], segs[|segs| - 1];
      DedupKeepsFirsts(init);
      DedupLast(segs);
      assert segs == init + [s];
      KeepsFirstsGrow(init, s, Dedup(init), Dedup(segs));
    }
  }

  /** De-duplication keeps nothing but first entries of their pairs. */
  lemma {:induction false} DedupOnlyFirsts(segs: seq<Segment>)
    ensures OnlyFirsts(Dedup(segs), segs)
  {
    if segs != [] {
      var init, s := segs[..|segs| - 1], segs[|segs| - 1];
      DedupOnlyFirsts(init);
      DedupLast(segs);
      assert segs == init + [s];
      OnlyFirstsGrow(init, s, Dedup(init), Dedup(segs));
    }
  }

  /** De-duplication loses no pair: every pair the input joins, the result joins. */
  lemma {:induction false} DedupCoversPairs(segs: seq<Segment>)
    ensures CoversPairs(Dedup(segs), segs)
  {
    if segs != [] {
      var init, s := segs[..|segs| - 1], segs[|segs| - 1];
      DedupCoversPairs(init);
      DedupLast(segs);
      assert segs == init + [s];
      CoversPairsGrow(init, s, Dedup(init), Dedup(segs));
    }
  }

  /** When no pair is joined twice, de-duplication keeps every entry. */
  lemma {:induction false} DedupUnique(segs: seq<Segment>)
    requires PairsUnique(segs)
    ensures Dedup(segs) == segs
  {
    if segs != [] {
      var init := segs[..|segs| - 1];
      assert PairsUnique(init) by {
        forall i, j | 0 <= i < |init| && 0 <= j < |init| && i != j
          ensures !SamePair(init[j], init[i].source, init[i].target)
        {
          assert init[i] == segs[i] && init[j] == segs[j];
        }
      }
      DedupUnique(init);
      forall j | 0 <= j < |init| ensures !SamePair(init[j], segs[|segs| - 1].source, segs[|segs| - 1].target) {
        assert init[j] == segs[j];
      }
      assert segs == init + [segs[|segs| - 1]];
    }
  }

  /** The de-duplicating loop: a set of pair keys already seen, and the entries kept. */
  method DedupSegments(segs: seq<Segment>) returns (out: seq<Segment>)
    ensures out == Dedup(segs)
    ensures PairsUnique(out) && KeepsFirsts(out, segs) && OnlyFirsts(out, segs) && CoversPairs(out, segs)
  {
    out := [];
    var processed: set<(NodeId, NodeId)> := {};
    for i := 0 to |segs|
      invariant out == Dedup(segs[..i])
      invariant processed == SeenPairs(segs, i)
    {
      var key := SortedPair(segs[i].source, segs[i].target);
      DedupStep(segs, i);
      if key !in processed {
        out := out + [segs[i]];
      }
      processed := processed + {key};
    }
    assert segs[..|segs|] == segs;
    DedupPairsUnique(segs);
    DedupKeepsFirsts(segs);
    DedupOnlyFirsts(segs);
    DedupCoversPairs(segs);
  }

  /** The pair keys of the first i entries. */
  ghost function SeenPairs(segs: seq<Segment>, i: nat): set<(NodeId, NodeId)>
    requires i <= |segs|
  {
    set j | 0 <= j < i :: SortedPair(segs[j].source, segs[j].target)
  }

  /** One more entry is kept exactly when its pair key has not been seen. */
  lemma DedupStep(segs: seq<Segment>, i: nat)
    requires i < |segs|
    ensures SeenPairs(segs, i + 1) == SeenPairs(segs, i) + {SortedPair(segs[i].source, segs[i].target)}
    ensures Dedup(segs[..i + 1])
         == if SortedPair(segs[i].source, segs[i].target) in SeenPairs(segs, i) then Dedup(segs[..i])
            else Dedup(segs[..i]) + [segs[i]]
  {
    var key := SortedPair(segs[i].source, segs[i].target);
    assert segs[..i + 1][..i] == segs[..i];
    assert segs[..i + 1][i] == segs[i];
    if key in SeenPairs(segs, i) {
      var j :| 0 <= j < i && SortedPair(segs[j].source, segs[j].target) == key;
      SortedPairSame(segs[j].source, segs[j].target, segs[i].source, segs[i].target);
      assert segs[..i][j] == segs[j];
      assert !(forall k :: 0 <= k < i ==> !SamePair(segs[..i][k], segs[i].source, segs[i].target));
    } else {
      forall k | 0 <= k < i ensures !SamePair(segs[..i][k], segs[i].source, segs[i].target) {
        assert segs[..i][k] == segs[k];
        SortedPairSame(segs[k].source, segs[k].target, segs[i].source, segs[i].target);
      }
    }
  }

  // ---------------------------------------------------------------------------
  // Ordering

  /** The circuit a segment sorts under; segments without one sort under "ZZZ". */
  function CircuitKey(s: Segment): string
  {
    if s.circuit.Some? then s.circuit.value else "ZZZ"
  }

  /** Order by circuit key, then by id, as Python compares the pair (circuit, id). */
  predicate KeyLe(a: Segment, b: Segment)
  {
    if CircuitKey(a) != CircuitKey(b) then StrLe(CircuitKey(a), CircuitKey(b)) else StrLe(a.id, b.id)
  }

  lemma KeyLeTotal(a: Segment, b: Segment)
    ensures KeyLe(a, b) || KeyLe(b, a)
  {
    StrLeTotal(CircuitKey(a), CircuitKey(b));
    StrLeTotal(a.id, b.id);
  }

  lemma KeyLeTransitive(a: Segment, b: Segment, c: Segment)
    requires KeyLe(a, b) && KeyLe(b, c)
    ensures KeyLe(a, c)
  {
    var ka, kb, kc := CircuitKey(a), CircuitKey(b), CircuitKey(c);
    if ka != kb && kb != kc {
      StrLeTransitive(ka, kb, kc);
      if ka == kc {
        StrLeAntisymmetric(ka, kb);
      }
    } else if ka == kb && kb == kc {
      StrLeTransitive(a.id, b.id, c.id);
    }
  }

  predicate SortedByKey(s: seq<Segment>)
  {
    forall i, j :: 0 <= i < j < |s| ==> KeyLe(s[i], s[j])
  }

  /** An entry that may precede the head of a sorted list may precede all of it. */
  lemma PrecedesAll(x: Segment, s: seq<Segment>)
    requires SortedByKey(s) && s != [] && KeyLe(x, s[0])
    ensures SortedByKey([x] + s)
  {
    forall j | 0 < j < |s| ensures KeyLe(x, s[j]) {
      KeyLeTransitive(x, s[0], s[j]);
    }
    var r := [x] + s;
    forall i, j | 0 <= i < j < |r| ensures KeyLe(r[i], r[j]) {
      if i > 0 {
        assert r[i] == s[i - 1] && r[j] == s[j - 1];
      }
    }
  }

  /** Inserting x in front of the first entry it does not follow. */
  function InsertByKey(x: Segment, s: seq<Segment>): (r: seq<Segment>)
    requires SortedByKey(s)
    ensures SortedByKey(r)
    ensures multiset(r) == multiset(s) + multiset{x}
    ensures |r| == |s| + 1 && r[0] == (if s == [] || KeyLe(x, s[0]) then x else s[0])
  {
    if s == [] then [x]
    else if KeyLe(x, s[0]) then
      PrecedesAll(x, s);
      [x] + s
    else
      KeyLeTotal(x, s[0]);
      var r' := InsertByKey(x, s[1..]);
      assert s == [s[0]] + s[1..];
      PrecedesAll(s[0], r');
      [s[0]] + r'
  }

  /** The segment list sorted by (circuit, id); entries with equal keys keep their order. */
  function SortByKey(s: seq<Segment>): (r: seq<Segment>)
    ensures SortedByKey(r)
    ensures multiset(r) == multiset(s)
  {
    if s == [] then []
    else
      assert s == [s[0]] + s[1..];
      InsertByKey(s[0], SortByKey(s[1..]))
  }

  /** The segment list handed out: one entry per pair of nodes, sorted by (circuit, id). */
  function SegmentData(segs: seq<Segment>): seq<Segment>
  {
    SortByKey(Dedup(segs))
  }

  /** With every pair joined once, the list is a sorted permutation of the stored segments. */
  lemma SegmentDataPermutes(segs: seq<Segment>)
    requires PairsUnique(segs)
    ensures SortedByKey(SegmentData(segs))
    ensures multiset(SegmentData(segs)) == multiset(segs)
  {
    DedupUnique(segs);
  }
}
