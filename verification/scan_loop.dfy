/**
 * The scan loop of `main`: the fill phase that keeps the slot pool full of
 * connect attempts, and the drain phase that handles completions. The
 * kernel queue is abstracted to the linked pairs the fill phase submits and
 * to a sequence of (user_data, result) completions the drain phase consumes.
 */
module ScanLoop {
  import opened Options
  import EntryAlloc
  import IpIterator

  /** `MAX_CONNECTIONS`: the capacity of the slot pool. */
  const MAX_CONNECTIONS: nat := 2048

  /** The port every attempt connects to. */
  const PORT: nat := 25565

  /** `u64::MAX`, the user data of every linked timeout. */
  const TIMEOUT_TAG: nat := 0xFFFF_FFFF_FFFF_FFFF

  /** An attempt record: the target address and port (the socket is abstracted away). */
  datatype Connection = Connection(ip: nat, port: nat)

  /** A connect operation tagged with its slot index. */
  datatype ConnectOp = ConnectOp(userData: nat, target: Connection)

  /** The linked pair submitted for one attempt: a connect and its timeout. */
  datatype LinkedPair = LinkedPair(connect: ConnectOp, timeoutUserData: nat)

  /** A completion as the kernel reports it. */
  datatype Cqe = Cqe(userData: nat, result: int)

  /** The state the loop owns: the slot pool and the address enumerator. */
  datatype Scanner = Scanner(pool: EntryAlloc.Pool<Connection>, ips: IpIterator.IpIter)

  /** Outcome of the fill phase: the new state and the pairs submitted, or the `unwrap` panic on an exhausted enumerator. */
  datatype FillOutcome = Filled(scanner: Scanner, submitted: seq<LinkedPair>) | EnumeratorExhausted

  /** Outcome of handling one completion: the new pool and the record dispatched to the probe, or the `unwrap` panic. */
  datatype Handled = Handled(pool: EntryAlloc.Pool<Connection>, dispatched: Option<Connection>) | SlotPanic

  /** Outcome of handling a batch of completions. */
  datatype Drained = Drained(pool: EntryAlloc.Pool<Connection>, dispatched: seq<Connection>) | DrainPanic

  predicate Valid(s: Scanner)
  {
    EntryAlloc.Valid(s.pool) && |s.pool.cells| == MAX_CONNECTIONS && IpIterator.Valid(s.ips)
  }

  /**
   * The state `main` builds before the loop: an empty pool of
   * `MAX_CONNECTIONS` cells and a fresh enumerator, whose step is the first
   * odd draw. None means no draw of the given prefix was odd.
   */
  function Start(firstPick: nat, draws: seq<nat>): (r: Option<Scanner>)
    requires firstPick < IpIterator.M
    requires forall i :: 0 <= i < |draws| ==> IpIterator.InStepRange(IpIterator.M, draws[i])
    ensures r.None? <==> forall i :: 0 <= i < |draws| ==> draws[i] % 2 == 0
    ensures r.Some? ==>
      && Valid(r.value) && EntryAlloc.Occupied(r.value.pool) == {}
      && |r.value.pool.free| == MAX_CONNECTIONS
      && r.value.ips.active && r.value.ips.pick == r.value.ips.firstPick == firstPick
  {
    match IpIterator.New(firstPick, draws)
    case None => None
    case Some(it) => Some(Scanner(EntryAlloc.New(MAX_CONNECTIONS), it))
  }

  /** The k-th pair the fill phase submits from state `s`: slot and address as the pool and the enumerator hand them out. */
  ghost predicate AttemptMatches(s: Scanner, k: nat, pair: LinkedPair, addr: Option<nat>)
    requires k < |s.pool.free|
  {
    && pair.connect.userData == s.pool.free[|s.pool.free| - 1 - k]
    && pair.timeoutUserData == TIMEOUT_TAG
    && Some(pair.connect.target.ip) == addr
    && pair.connect.target.port == PORT
  }

  /** What the fill loop has done after k iterations; `ips` is the enumerator after k calls. */
  ghost predicate FillInv(s: Scanner, k: nat, pool: EntryAlloc.Pool<Connection>, ips: IpIterator.IpIter,
                          submitted: seq<LinkedPair>, out: seq<Option<nat>>)
  {
    && Valid(s)
    && k <= |s.pool.free| && |submitted| == k && |out| == k
    && EntryAlloc.Valid(pool) && |pool.cells| == MAX_CONNECTIONS
    && pool.free == s.pool.free[..|s.pool.free| - k]
    && IpIterator.Valid(ips) && IpIterator.Run(s.ips, k) == IpIterator.Trace(ips, out)
    && (forall i :: 0 <= i < k ==>
          && AttemptMatches(s, i, submitted[i], out[i])
          && pool.cells[submitted[i].connect.userData] == Some(submitted[i].connect.target))
    && (forall q :: 0 <= q < MAX_CONNECTIONS && s.pool.cells[q].Some? ==> pool.cells[q] == s.pool.cells[q])
  }

  /**
   * One iteration of the fill loop on a non-full pool keeps FillInv: the
   * `alloc(...).unwrap()` cannot fail, and the pair recorded is the slot and
   * address just taken.
   */
  lemma FillStep(s: Scanner, k: nat, pool: EntryAlloc.Pool<Connection>, ips: IpIterator.IpIter,
                 submitted: seq<LinkedPair>, out: seq<Option<nat>>)
    requires FillInv(s, k, pool, ips, submitted, out) && k < |s.pool.free|
    requires IpIterator.Next(ips).addr.Some?
    ensures var y := IpIterator.Next(ips);
      var conn := Connection(y.addr.value, PORT);
      var a := EntryAlloc.Alloc(pool, conn);
      && a.slot.Some?
      && FillInv(s, k + 1, a.pool, y.iter, submitted + [LinkedPair(ConnectOp(a.slot.value, conn), TIMEOUT_TAG)], out + [y.addr])
  {
    var n := |s.pool.free|;
    var y := IpIterator.Next(ips);
    var conn := Connection(y.addr.value, PORT);
    var a := EntryAlloc.Alloc(pool, conn);
    var idx := a.slot.value;
    assert idx == s.pool.free[n - 1 - k];
    assert s.pool.cells[idx].None? by {
      assert idx in s.pool.free;
    }
    forall i | 0 <= i < k
      ensures submitted[i].connect.userData != idx
    {
      assert s.pool.free[n - 1 - i] != s.pool.free[n - 1 - k];
    }
  }

  /** An enumerator that yields None on the (k + 1)-th call makes the fill phase's calls hit None. */
  lemma FillExhausted(s: Scanner, k: nat, ips: IpIterator.IpIter, out: seq<Option<nat>>)
    requires Valid(s) && k < |s.pool.free|
    requires IpIterator.Run(s.ips, k) == IpIterator.Trace(ips, out)
    requires IpIterator.Next(ips).addr.None?
    ensures exists i :: 0 <= i < |s.pool.free| && IpIterator.Run(s.ips, |s.pool.free|).out[i] == None
  {
    IpIterator.RunPrefix(s.ips, k + 1, |s.pool.free|);
    assert IpIterator.Run(s.ips, |s.pool.free|).out[k] == None;
  }

  /**
   * The fill phase: while the pool is not full, take the next address,
   * allocate a slot for it, and submit a connect tagged with the slot index
   * linked to a timeout tagged with `u64::MAX`. Slots are taken from the
   * top of the free list down; the k-th attempt goes to the k-th address
   * the enumerator yields. An exhausted enumerator makes the `unwrap` panic.
   */
  method Fill(s: Scanner) returns (r: FillOutcome)
    requires Valid(s)
    ensures r.EnumeratorExhausted? <==>
      exists i :: 0 <= i < |s.pool.free| && IpIterator.Run(s.ips, |s.pool.free|).out[i] == None
    ensures r.Filled? ==>
      && Valid(r.scanner)
      && EntryAlloc.IsFull(r.scanner.pool)
      && r.scanner.ips == IpIterator.Run(s.ips, |s.pool.free|).iter
      && |r.submitted| == |s.pool.free|
    ensures r.Filled? ==> forall k :: 0 <= k < |r.submitted| ==>
      && r.submitted[k].connect.userData == s.pool.free[|s.pool.free| - 1 - k]
      && r.submitted[k].connect.userData < MAX_CONNECTIONS
      && r.submitted[k].connect.userData != TIMEOUT_TAG
      && r.submitted[k].timeoutUserData == TIMEOUT_TAG
      && Some(r.submitted[k].connect.target.ip) == IpIterator.Run(s.ips, |s.pool.free|).out[k]
      && r.submitted[k].connect.target.port == PORT
      && r.scanner.pool.cells[r.submitted[k].connect.userData] == Some(r.submitted[k].connect.target)
    ensures r.Filled? ==> forall i, j :: 0 <= i < j < |r.submitted| ==>
      r.submitted[i].connect.userData != r.submitted[j].connect.userData
    ensures r.Filled? ==> forall q :: 0 <= q < MAX_CONNECTIONS && s.pool.cells[q].Some? ==>
      r.scanner.pool.cells[q] == s.pool.cells[q]
  {
    var n := |s.pool.free|;
    var pool := s.pool;
    var ips := s.ips;
    var submitted: seq<LinkedPair> := [];
    ghost var out: seq<Option<nat>> := [];
    var k := 0;
    while !EntryAlloc.IsFull(pool)
      invariant FillInv(s, k, pool, ips, submitted, out)
      decreases n - k
    {
      var y := IpIterator.Next(ips);
      if y.addr.None? {
        FillExhausted(s, k, ips, out);
        return EnumeratorExhausted;
      }
      FillStep(s, k, pool, ips, submitted, out);
      var conn := Connection(y.addr.value, PORT);
      var a := EntryAlloc.Alloc(pool, conn);
      pool := a.pool;
      submitted := submitted + [LinkedPair(ConnectOp(a.slot.value, conn), TIMEOUT_TAG)];
      ips := y.iter;
      out := out + [y.addr];
      k := k + 1;
    }
    FillDone(s, pool, ips, submitted, out);
    r := Filled(Scanner(pool, ips), submitted);
  }

  /** When the fill loop stops with a full pool, FillInv gives the fill phase's postcondition. */
  lemma FillDone(s: Scanner, pool: EntryAlloc.Pool<Connection>, ips: IpIterator.IpIter, submitted: seq<LinkedPair>, out: seq<Option<nat>>)
    requires EntryAlloc.IsFull(pool) && FillInv(s, |submitted|, pool, ips, submitted, out)
    ensures |submitted| == |s.pool.free|
    ensures !exists i :: 0 <= i < |s.pool.free| && IpIterator.Run(s.ips, |s.pool.free|).out[i] == None
    ensures Valid(Scanner(pool, ips)) && ips == IpIterator.Run(s.ips, |s.pool.free|).iter
    ensures forall k :: 0 <= k < |submitted| ==>
      && submitted[k].connect.userData == s.pool.free[|s.pool.free| - 1 - k]
      && submitted[k].connect.userData < MAX_CONNECTIONS
      && submitted[k].connect.userData != TIMEOUT_TAG
      && submitted[k].timeoutUserData == TIMEOUT_TAG
      && Some(submitted[k].connect.target.ip) == IpIterator.Run(s.ips, |s.pool.free|).out[k]
      && submitted[k].connect.target.port == PORT
      && pool.cells[submitted[k].connect.userData] == Some(submitted[k].connect.target)
    ensures forall i, j :: 0 <= i < j < |submitted| ==> submitted[i].connect.userData != submitted[j].connect.userData
    ensures forall q :: 0 <= q < MAX_CONNECTIONS && s.pool.cells[q].Some? ==> pool.cells[q] == s.pool.cells[q]
  {
    var n := |s.pool.free|;
    forall i, j | 0 <= i < j < n
      ensures submitted[i].connect.userData != submitted[j].connect.userData
    {
      assert AttemptMatches(s, i, submitted[i], out[i]);
      assert AttemptMatches(s, j, submitted[j], out[j]);
    }
    forall i | 0 <= i < n
      ensures out[i].Some? && submitted[i].connect.userData < MAX_CONNECTIONS
    {
      assert AttemptMatches(s, i, submitted[i], out[i]);
    }
  }

  /**
   * One completion: a timeout completion (user data `u64::MAX`) is skipped;
   * any other releases the slot its user data names, and the released
   * record goes to the probe exactly when the connect result is 0. Naming
   * a slot past the pool, or an empty slot, panics.
   */
  function HandleCompletion(pool: EntryAlloc.Pool<Connection>, cqe: Cqe): (r: Handled)
    ensures cqe.userData == TIMEOUT_TAG ==> r == Handled(pool, None)
    ensures cqe.userData != TIMEOUT_TAG ==>
      (r.SlotPanic? <==> cqe.userData >= |pool.cells| || pool.cells[cqe.userData].None?)
    ensures cqe.userData != TIMEOUT_TAG && r.Handled? ==>
      && EntryAlloc.OthersUnchanged(pool, r.pool, cqe.userData)
      && r.pool.cells[cqe.userData] == None
      && r.pool.free == pool.free + [cqe.userData]
      && (r.dispatched.Some? <==> cqe.result == 0)
      && (r.dispatched.Some? ==> pool.cells[cqe.userData] == r.dispatched)
    ensures r.Handled? && EntryAlloc.Valid(pool) ==> EntryAlloc.Valid(r.pool)
    ensures r.Handled? && EntryAlloc.Valid(pool) && cqe.userData != TIMEOUT_TAG ==>
      EntryAlloc.Occupied(r.pool) == EntryAlloc.Occupied(pool) - {cqe.userData}
  {
    if cqe.userData == TIMEOUT_TAG then Handled(pool, None)
    else if cqe.userData >= |pool.cells| then SlotPanic
    else
      var rel := EntryAlloc.Dealloc(pool, cqe.userData);
      if rel.payload.None? then SlotPanic
      else if cqe.result == 0 then Handled(rel.pool, rel.payload)
      else Handled(rel.pool, None)
  }

  /** The drain phase over one batch of completions, in the order the kernel delivers them. */
  function Drain(pool: EntryAlloc.Pool<Connection>, cqes: seq<Cqe>): (r: Drained)
    ensures r.Drained? && EntryAlloc.Valid(pool) ==>
      EntryAlloc.Valid(r.pool) && |r.pool.cells| == |pool.cells|
    ensures r.Drained? && EntryAlloc.Valid(pool) ==> |r.dispatched| <= |r.pool.free| - |pool.free|
    decreases |cqes|
  {
    if |cqes| == 0 then Drained(pool, [])
    else
      match HandleCompletion(pool, cqes[0])
      case SlotPanic => DrainPanic
      case Handled(next, d) =>
        match Drain(next, cqes[1..])
        case DrainPanic => DrainPanic
        case Drained(last, ds) =>
          Drained(last, (if d.Some? then [d.value] else []) + ds)
  }

  /**
   * What the kernel promises of a batch: every completion that is not a
   * timeout names a slot that holds an attempt in flight, and names it once.
   */
  ghost predicate InFlight(pool: EntryAlloc.Pool<Connection>, cqes: seq<Cqe>)
  {
    && (forall i :: 0 <= i < |cqes| && cqes[i].userData != TIMEOUT_TAG ==>
          cqes[i].userData < |pool.cells| && pool.cells[cqes[i].userData].Some?)
    && (forall i, j :: 0 <= i < j < |cqes| && cqes[i].userData != TIMEOUT_TAG ==>
          cqes[i].userData != cqes[j].userData)
  }

  /** The slots a batch of completions names. */
  ghost function SlotTags(cqes: seq<Cqe>): set<nat>
  {
    set i | 0 <= i < |cqes| && cqes[i].userData != TIMEOUT_TAG :: cqes[i].userData
  }

  /** The records of the successful connects of a batch, in completion order, read from the pool before the batch. */
  ghost function Successes(pool: EntryAlloc.Pool<Connection>, cqes: seq<Cqe>): seq<Connection>
  {
    if |cqes| == 0 then []
    else
      var c := cqes[0];
      var here :=
        if c.userData != TIMEOUT_TAG && c.result == 0 && c.userData < |pool.cells| && pool.cells[c.userData].Some?
        then [pool.cells[c.userData].value] else [];
      here + Successes(pool, cqes[1..])
  }

  /** Successes only reads the cells the batch names. */
  lemma {:induction false} SuccessesFrame(p: EntryAlloc.Pool<Connection>, q: EntryAlloc.Pool<Connection>, cqes: seq<Cqe>)
    requires |p.cells| == |q.cells|
    requires forall i :: 0 <= i < |cqes| && cqes[i].userData != TIMEOUT_TAG && cqes[i].userData < |p.cells| ==>
      p.cells[cqes[i].userData] == q.cells[cqes[i].userData]
    ensures Successes(p, cqes) == Successes(q, cqes)
  {
    if |cqes| > 0 {
      SuccessesFrame(p, q, cqes[1..]);
    }
  }

  /** The slots a batch names are those its first completion names plus those of the rest. */
  lemma SlotTagsCons(cqes: seq<Cqe>)
    requires |cqes| > 0
    ensures SlotTags(cqes) ==
      (if cqes[0].userData != TIMEOUT_TAG then {cqes[0].userData} else {}) + SlotTags(cqes[1..])
  {
    var rest := cqes[1..];
    forall t | t in SlotTags(cqes)
      ensures t in (if cqes[0].userData != TIMEOUT_TAG then {cqes[0].userData} else {}) + SlotTags(rest)
    {
      var i :| 0 <= i < |cqes| && cqes[i].userData != TIMEOUT_TAG && cqes[i].userData == t;
      if i > 0 {
        assert rest[i - 1] == cqes[i];
      }
    }
    forall t | t in SlotTags(rest)
      ensures t in SlotTags(cqes)
    {
      var i :| 0 <= i < |rest| && rest[i].userData != TIMEOUT_TAG && rest[i].userData == t;
      assert cqes[i + 1] == rest[i];
    }
    if cqes[0].userData != TIMEOUT_TAG {
      assert cqes[0].userData in SlotTags(cqes);
    }
  }

  /**
   * Handling the first completion of a batch in flight succeeds, leaves the
   * rest of the batch in flight, and does not touch the slots the rest names.
   */
  lemma InFlightHead(pool: EntryAlloc.Pool<Connection>, cqes: seq<Cqe>)
    requires EntryAlloc.Valid(pool) && InFlight(pool, cqes) && |cqes| > 0
    ensures HandleCompletion(pool, cqes[0]).Handled?
    ensures InFlight(HandleCompletion(pool, cqes[0]).pool, cqes[1..])
    ensures forall i :: 0 <= i < |cqes[1..]| && cqes[1..][i].userData != TIMEOUT_TAG && cqes[1..][i].userData < |pool.cells| ==>
      pool.cells[cqes[1..][i].userData] == HandleCompletion(pool, cqes[0]).pool.cells[cqes[1..][i].userData]
  {
    var c := cqes[0];
    var rest := cqes[1..];
    var h := HandleCompletion(pool, c);
    forall i | 0 <= i < |rest| && rest[i].userData != TIMEOUT_TAG
      ensures rest[i].userData < |pool.cells| && h.pool.cells[rest[i].userData] == pool.cells[rest[i].userData]
    {
      assert rest[i] == cqes[i + 1];
    }
    forall i, j | 0 <= i < j < |rest| && rest[i].userData != TIMEOUT_TAG
      ensures rest[i].userData != rest[j].userData
    {
      assert rest[i] == cqes[i + 1] && rest[j] == cqes[j + 1];
    }
  }

  /**
   * A batch of completions for attempts in flight never panics: it frees
   * exactly the slots it names and dispatches, in completion order, the
   * records of exactly the connects whose result is 0.
   */
  lemma {:induction false} DrainInFlight(pool: EntryAlloc.Pool<Connection>, cqes: seq<Cqe>)
    requires EntryAlloc.Valid(pool) && InFlight(pool, cqes)
    ensures Drain(pool, cqes).Drained?
    ensures EntryAlloc.Occupied(Drain(pool, cqes).pool) == EntryAlloc.Occupied(pool) - SlotTags(cqes)
    ensures Drain(pool, cqes).dispatched == Successes(pool, cqes)
    decreases |cqes|
  {
    if |cqes| > 0 {
      var h := HandleCompletion(pool, cqes[0]);
      InFlightHead(pool, cqes);
      DrainInFlight(h.pool, cqes[1..]);
      SuccessesFrame(pool, h.pool, cqes[1..]);
      SlotTagsCons(cqes);
    }
  }

  /**
   * A slot is released exactly once: after the completion of its connect
   * has freed it, another completion naming it panics (the `unwrap` on
   * `dealloc`) instead of freeing it again.
   */
  lemma ReleasedOnce(pool: EntryAlloc.Pool<Connection>, first: Cqe, second: Cqe)
    requires first.userData != TIMEOUT_TAG && HandleCompletion(pool, first).Handled?
    requires second.userData == first.userData
    ensures HandleCompletion(HandleCompletion(pool, first).pool, second).SlotPanic?
  {
  }

  /** Admission control: a valid state never holds more attempts than `MAX_CONNECTIONS`. */
  lemma CapacityBound(s: Scanner)
    requires Valid(s)
    ensures |EntryAlloc.Occupied(s.pool)| <= MAX_CONNECTIONS
  {
    EntryAlloc.SizeCountsOccupied(s.pool);
  }
}
