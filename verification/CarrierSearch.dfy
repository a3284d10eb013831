/** The alternating carrier search of the UE: after each failed attempt the frequency offset changes
    sign, growing by one step every second time, until it leaves the limit. */
module CarrierSearch {
  import opened CInt

  function Abs(x: int): nat {
    if x < 0 then -x else x
  }

  /** `if (freq_offset >= 0) freq_offset += step; freq_offset *= -1;` */
  function NextOffset(f: int, step: int): int {
    if f >= 0 then -(f + step) else -f
  }

  /** The k-th offset of the alternation: 0, -1, +1, -2, +2, ... steps. */
  function Offset(k: nat, step: int): int {
    (if k % 2 == 0 then k / 2 else -((k + 1) / 2)) * step
  }

  lemma OffsetNext(k: nat, step: int)
    requires step > 0
    ensures Offset(k + 1, step) == NextOffset(Offset(k, step), step)
    ensures Abs(Offset(k, step)) == ((k + 1) / 2) * step
    ensures (Offset(k, step) < 0 <==> k % 2 == 1)
  {
    var j := (k + 1) / 2;
    assert j * step >= 0;
    assert (j + 1) * step == j * step + step;
    assert (-j) * step == -(j * step);
    assert (-(j + 1)) * step == -((j + 1) * step);
    if k % 2 == 1 { assert j >= 1; assert j * step >= step; }
  }

  /** The search of `UE_thread_synch` with the carrier scan on; `finds(f)` tells whether the attempt at
      offset f succeeds. It ends with the first success, or abandons beyond the limit. */
  method Search(step: int, limit: int, finds: int -> bool) returns (found: bool, offset: int, visited: seq<int>)
    requires step > 0 && limit > 0
    ensures forall k | 0 <= k < |visited| :: visited[k] == Offset(k, step) && Abs(visited[k]) <= limit
    ensures forall k | 0 <= k < |visited| - 1 :: !finds(visited[k])
    ensures |visited| > 0
    ensures found ==> finds(offset) && offset == visited[|visited| - 1]
    ensures !found ==> forall f: int :: f in visited <==> (f % step == 0 && Abs(f) <= limit)
    ensures !found ==> forall f | f in visited :: !finds(f)
  {
    offset := 0;
    visited := [];
    OffsetNext(0, step);
    while true
      invariant offset == Offset(|visited|, step) && Abs(offset) <= limit
      invariant forall k | 0 <= k < |visited| :: visited[k] == Offset(k, step) && Abs(visited[k]) <= limit && !finds(visited[k])
      decreases limit - Abs(offset), offset < 0
    {
      visited := visited + [offset];
      if finds(offset) {
        return true, offset, visited;
      }
      OffsetNext(|visited| - 1, step);
      if offset >= 0 {
        offset := offset + step;
      }
      offset := offset * -1;
      if Abs(offset) > limit {
        AbandonedSearchIsExhaustive(step, limit, visited);
        return false, offset, visited;
      }
    }
  }

  /** The alternation never comes back, and its magnitudes never decrease. */
  lemma OffsetsDistinctOrdered(i: nat, j: nat, step: int)
    requires step > 0 && i < j
    ensures Offset(i, step) != Offset(j, step)
    ensures Abs(Offset(i, step)) <= Abs(Offset(j, step))
  {
    OffsetNext(i, step);
    OffsetNext(j, step);
    hide Offset;
    var a, b := (i + 1) / 2, (j + 1) / 2;
    if a < b {
      MulGe(step, b - a);
      assert b * step == a * step + step * (b - a);
    }
  }

  /** Position of m steps in the alternation. */
  function Rank(m: int): nat {
    if m >= 0 then 2 * m else -2 * m - 1
  }

  lemma RankOffset(f: int, step: int)
    requires step > 0 && f % step == 0
    ensures Offset(Rank(f / step), step) == f
  {
    assert f == (f / step) * step;
  }

  /** When every attempt fails the visited offsets are exactly the multiples of the step within the
      limit, each visited once and nearer ones first. */
  lemma AbandonedSearchIsExhaustive(step: int, limit: int, visited: seq<int>)
    requires step > 0 && limit > 0
    requires forall k | 0 <= k < |visited| :: visited[k] == Offset(k, step) && Abs(visited[k]) <= limit
    requires Abs(Offset(|visited|, step)) > limit
    ensures forall f: int :: f in visited <==> (f % step == 0 && Abs(f) <= limit)
    ensures forall i, j | 0 <= i < j < |visited| :: visited[i] != visited[j] && Abs(visited[i]) <= Abs(visited[j])
    ensures visited != [] && visited[0] == 0
  {
    assert Offset(0, step) == 0;
    hide Offset, Rank;
    forall i, j | 0 <= i < j < |visited|
      ensures visited[i] != visited[j] && Abs(visited[i]) <= Abs(visited[j])
    {
      OffsetsDistinctOrdered(i, j, step);
    }
    forall f: int ensures f in visited <==> (f % step == 0 && Abs(f) <= limit) {
      if f % step == 0 && Abs(f) <= limit {
        var k := Rank(f / step);
        RankOffset(f, step);
        if k > |visited| {
          OffsetsDistinctOrdered(|visited|, k, step);
        }
        assert k < |visited|;
        assert visited[k] == f;
      }
      if f in visited {
        var k :| 0 <= k < |visited| && visited[k] == f;
        OffsetIsMultiple(k, step);
      }
    }
  }

  lemma OffsetIsMultiple(k: nat, step: int)
    requires step > 0
    ensures Offset(k, step) % step == 0
  {
    var m := if k % 2 == 0 then k / 2 else -((k + 1) / 2);
    DivUnique(m * step, step, m, 0);
  }
}
