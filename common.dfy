// Small value helpers shared by the plant constants and the diagnostic engine.
module Common {

  datatype Option<+T> = None | Some(value: T)

  /** The integers lo, lo+1, ..., hi-1, like Python's `list(range(lo, hi))`. */
  function Range(lo: nat, hi: nat): (r: seq<nat>)
    ensures |r| == if lo <= hi then hi - lo else 0
    ensures forall i :: 0 <= i < |r| ==> r[i] == lo + i
    decreases hi - lo
  {
    if lo >= hi then [] else [lo] + Range(lo + 1, hi)
  }

  lemma RangeProperties(lo: nat, hi: nat)
    ensures NoDuplicates(Range(lo, hi))
    ensures forall x: nat :: x in Range(lo, hi) <==> lo <= x < hi
  {
    var r := Range(lo, hi);
    forall x: nat | lo <= x < hi ensures x in r {
      assert r[x - lo] == x;
    }
  }

  /** Disjoint sequences with no repeats concatenate to a sequence with no repeats, and conversely. */
  lemma NoDuplicatesAppend<T>(a: seq<T>, b: seq<T>)
    ensures NoDuplicates(a + b) <==> NoDuplicates(a) && NoDuplicates(b) && Elems(a) !! Elems(b)
  {
    var ab := a + b;
    if NoDuplicates(ab) {
      forall i, k | 0 <= i < |a| && 0 <= k < |b| ensures a[i] != b[k] {
        assert ab[i] == a[i] && ab[|a| + k] == b[k];
      }
      forall i, j | 0 <= i < j < |a| ensures a[i] != a[j] {
        assert ab[i] == a[i] && ab[j] == a[j];
      }
      forall i, j | 0 <= i < j < |b| ensures b[i] != b[j] {
        assert ab[|a| + i] == b[i] && ab[|a| + j] == b[j];
      }
    }
    if NoDuplicates(a) && NoDuplicates(b) && Elems(a) !! Elems(b) {
      forall i, j | 0 <= i < j < |ab| ensures ab[i] != ab[j] {
        if j < |a| {
          assert ab[i] == a[i] && ab[j] == a[j];
        } else if i >= |a| {
          assert ab[i] == b[i - |a|] && ab[j] == b[j - |a|];
        } else {
          assert ab[i] == a[i] && ab[j] == b[j - |a|];
          assert ab[i] in Elems(a) && ab[j] in Elems(b);
        }
      }
    }
  }

  predicate NoDuplicates<T(==)>(s: seq<T>)
  {
    forall i, j :: 0 <= i < j < |s| ==> s[i] != s[j]
  }

  /** The elements of a sequence, as a set. */
  function Elems<T>(s: seq<T>): set<T>
  {
    set x | x in s
  }
}
