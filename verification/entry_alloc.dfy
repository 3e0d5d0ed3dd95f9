/**
 * The fixed-capacity slot pool `EntryAllocator<T>`: a vector of optional
 * cells together with a LIFO stack of the indices of the empty cells.
 * The pool is an immutable value and every operation returns the new pool.
 */
module EntryAlloc {
  import opened Options

  datatype Pool<T> = Pool(cells: seq<Option<T>>, free: seq<nat>)

  /** Result of `alloc`: the new pool and the index that was filled, if any. */
  datatype Allocated<T> = Allocated(pool: Pool<T>, slot: Option<nat>)

  /** Result of `dealloc`: the new pool and the payload that was taken out, if any. */
  datatype Released<T> = Released(pool: Pool<T>, payload: Option<T>)

  /** Every index on the free list addresses a cell. */
  predicate FreeInBounds<T>(p: Pool<T>)
  {
    forall i :: 0 <= i < |p.free| ==> p.free[i] < |p.cells|
  }

  /**
   * The partition invariant: the free list has no duplicates, and a cell
   * is empty exactly when its index is on the free list.
   */
  predicate Valid<T>(p: Pool<T>)
  {
    && FreeInBounds(p)
    && (forall i, j :: 0 <= i < j < |p.free| ==> p.free[i] != p.free[j])
    && (forall k :: 0 <= k < |p.cells| ==> (p.cells[k].None? <==> k in p.free))
  }

  /** The indices of the occupied cells. */
  function Occupied<T>(p: Pool<T>): set<nat>
  {
    set k: nat | k < |p.cells| && p.cells[k].Some?
  }

  /** All other cells than the one at `idx` are the same in `p` and `q`. */
  ghost predicate OthersUnchanged<T>(p: Pool<T>, q: Pool<T>, idx: nat)
  {
    && |q.cells| == |p.cells|
    && forall k :: 0 <= k < |p.cells| && k != idx ==> q.cells[k] == p.cells[k]
  }

  /** `new(size)`: `size` empty cells and the free list 0, 1, ..., size - 1. */
  function New<T>(size: nat): (p: Pool<T>)
    ensures |p.cells| == size && |p.free| == size
    ensures forall k :: 0 <= k < size ==> p.cells[k] == None && p.free[k] == k
    ensures Valid(p) && Occupied(p) == {}
  {
    Pool(seq(size, _ => None), seq(size, i requires 0 <= i => i as nat))
  }

  /**
   * `alloc(v)`: pops the last free index and stores `v` in that cell;
   * fails, leaving the pool as it was, when the free list is empty.
   */
  function Alloc<T>(p: Pool<T>, v: T): (r: Allocated<T>)
    requires FreeInBounds(p)
    ensures r.slot.None? <==> IsFull(p)
    ensures r.slot.None? ==> r.pool == p
    ensures r.slot.Some? ==>
      && r.slot.value == p.free[|p.free| - 1]
      && r.pool.free == p.free[..|p.free| - 1]
      && r.slot.value < |p.cells|
      && OthersUnchanged(p, r.pool, r.slot.value)
      && r.pool.cells[r.slot.value] == Some(v)
    ensures Valid(p) ==> Valid(r.pool)
    ensures Valid(p) && r.slot.Some? ==>
      && p.cells[r.slot.value].None?
      && Occupied(r.pool) == Occupied(p) + {r.slot.value}
  {
    if |p.free| == 0 then Allocated(p, None)
    else
      var idx := p.free[|p.free| - 1];
      var q := Pool(p.cells[idx := Some(v)], p.free[..|p.free| - 1]);
      assert Valid(p) ==> Valid(q) by {
        if Valid(p) {
          forall k | 0 <= k < |q.cells|
            ensures q.cells[k].None? <==> k in q.free
          {
            if k != idx {
              assert k in p.free <==> k in q.free by {
                if k in p.free {
                  var i :| 0 <= i < |p.free| && p.free[i] == k;
                  assert q.free[i] == k;
                }
              }
            }
          }
        }
      }
      Allocated(q, Some(idx))
  }

  /**
   * `dealloc(idx)`: takes the payload out of an occupied cell and pushes
   * `idx` onto the free list; on an empty cell it changes nothing.
   * Indexing past the cells panics in the source, hence the precondition.
   */
  function Dealloc<T>(p: Pool<T>, idx: nat): (r: Released<T>)
    requires idx < |p.cells|
    ensures OthersUnchanged(p, r.pool, idx)
    ensures p.cells[idx].None? ==> r.payload == None && r.pool == p
    ensures p.cells[idx].Some? ==>
      && r.payload == p.cells[idx]
      && r.pool.cells[idx] == None
      && r.pool.free == p.free + [idx]
    ensures Valid(p) ==> Valid(r.pool)
    ensures Valid(p) && r.payload.Some? ==> Occupied(r.pool) == Occupied(p) - {idx}
  {
    match p.cells[idx]
    case None => Released(p, None)
    case Some(conn) =>
      var q := Pool(p.cells[idx := None], p.free + [idx]);
      assert Valid(p) ==> Valid(q) by {
        if Valid(p) {
          assert idx !in p.free;
          forall k | 0 <= k < |q.cells|
            ensures q.cells[k].None? <==> k in q.free
          {
            if k != idx {
              assert k in p.free <==> k in q.free;
            }
          }
        }
      }
      Released(q, Some(conn))
  }

  /** `is_full()`: the free list is empty. */
  function IsFull<T>(p: Pool<T>): (full: bool)
    ensures Valid(p) ==> (full <==> forall k :: 0 <= k < |p.cells| ==> p.cells[k].Some?)
  {
    if Valid(p) then
      assert |p.free| > 0 ==> p.cells[p.free[0]].None?;
      |p.free| == 0
    else
      |p.free| == 0
  }

  /** `is_empty()`: every cell is on the free list. */
  function IsEmpty<T>(p: Pool<T>): (empty: bool)
    ensures Valid(p) ==> (empty <==> Occupied(p) == {})
  {
    if Valid(p) then
      SizeCountsOccupied(p);
      |p.free| == |p.cells|
    else
      |p.free| == |p.cells|
  }

  /** `size()`: the number of occupied cells, computed from the free-list length. */
  function Size<T>(p: Pool<T>): (n: nat)
    requires |p.free| <= |p.cells|
    ensures Valid(p) ==> n == |Occupied(p)| && n <= |p.cells|
  {
    if Valid(p) then
      SizeCountsOccupied(p);
      |p.cells| - |p.free|
    else
      |p.cells| - |p.free|
  }

  /** The free-list length and the number of occupied cells add up to the capacity. */
  lemma SizeCountsOccupied<T>(p: Pool<T>)
    requires Valid(p)
    ensures |p.free| + |Occupied(p)| == |p.cells|
  {
    var freeSet := set i | 0 <= i < |p.free| :: p.free[i];
    DistinctCard(p.free);
    EmptyCells(p.cells, |p.cells|);
    assert Occupied(p) == CellsBelow(p.cells, |p.cells|, true);
    assert freeSet == CellsBelow(p.cells, |p.cells|, false) by {
      forall k: nat | k < |p.cells| && p.cells[k].None?
        ensures k in freeSet
      {
        var i :| 0 <= i < |p.free| && p.free[i] == k;
      }
    }
  }

  /** A duplicate-free sequence has as many distinct elements as entries. */
  lemma {:induction false} DistinctCard(s: seq<nat>)
    requires forall i, j :: 0 <= i < j < |s| ==> s[i] != s[j]
    ensures |set i | 0 <= i < |s| :: s[i]| == |s|
  {
    if |s| > 0 {
      var t := s[..|s| - 1];
      DistinctCard(t);
      var st := set i | 0 <= i < |t| :: t[i];
      var ss := set i | 0 <= i < |s| :: s[i];
      assert ss == st + {s[|s| - 1]} by {
        forall x | x in ss
          ensures x in st + {s[|s| - 1]}
        {
          var i :| 0 <= i < |s| && s[i] == x;
          if i < |s| - 1 {
            assert t[i] == x;
          }
        }
      }
      assert s[|s| - 1] !in st;
    }
  }

  /** The indices below n of the cells that are occupied (or, with `occupied` false, empty). */
  ghost function CellsBelow<T>(cells: seq<Option<T>>, n: nat, occupied: bool): set<nat>
  {
    set k: nat | k < n && k < |cells| && cells[k].Some? == occupied
  }

  lemma CellsBelowStep<T>(cells: seq<Option<T>>, n: nat, occupied: bool)
    requires 0 < n <= |cells|
    ensures CellsBelow(cells, n, occupied) ==
      CellsBelow(cells, n - 1, occupied) + (if cells[n - 1].Some? == occupied then {n - 1} else {})
  {
  }

  /** Among the first n cells, the empty and the occupied ones number n together. */
  lemma {:induction false} EmptyCells<T>(cells: seq<Option<T>>, n: nat)
    requires n <= |cells|
    ensures |CellsBelow(cells, n, false)| + |CellsBelow(cells, n, true)| == n
  {
    if n > 0 {
      EmptyCells(cells, n - 1);
      CellsBelowStep(cells, n, false);
      CellsBelowStep(cells, n, true);
    } else {
      assert CellsBelow(cells, 0, false) == {};
      assert CellsBelow(cells, 0, true) == {};
    }
  }

  /** A valid pool of capacity N accepts an allocation exactly while fewer than N cells are occupied. */
  lemma AllocSucceedsBelowCapacity<T>(p: Pool<T>, v: T)
    requires Valid(p)
    ensures Alloc(p, v).slot.Some? <==> |Occupied(p)| < |p.cells|
  {
    SizeCountsOccupied(p);
  }

  /** LIFO reuse: the index just released is the next one handed out. */
  lemma DeallocThenAllocReuses<T>(p: Pool<T>, idx: nat, v: T)
    requires Valid(p) && idx < |p.cells| && p.cells[idx].Some?
    ensures Alloc(Dealloc(p, idx).pool, v).slot == Some(idx)
  {
  }

  /** A slot is released at most once: a second dealloc of the same index finds it empty. */
  lemma DeallocTwiceReleasesOnce<T>(p: Pool<T>, idx: nat)
    requires idx < |p.cells|
    ensures Dealloc(Dealloc(p, idx).pool, idx).payload == None
    ensures Dealloc(Dealloc(p, idx).pool, idx).pool == Dealloc(p, idx).pool
  {
  }
}
