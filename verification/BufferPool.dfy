/** The recycling buffer pool: one mutex, any number of tasks acquiring, changing, dropping and keeping buffers. */
module BufferPool {
  import opened Bytes

  const USIZE_MAX := 0xFFFF_FFFF_FFFF_FFFF

  /** A byte vector: which allocation it owns, how much of it, and how many bytes are in use. */
  datatype Storage = Storage(id: nat, capacity: nat, length: nat)

  function SaturatingSub(a: nat, b: nat): nat { if a >= b then a - b else 0 }

  function SaturatingAdd(a: nat, b: nat): nat { if a + b <= USIZE_MAX then a + b else USIZE_MAX }

  function Total(s: seq<Storage>): nat {
    if s == [] then 0 else Total(s[..|s| - 1]) + s[|s| - 1].capacity
  }

  function Ids(s: seq<Storage>): multiset<nat> {
    if s == [] then multiset{} else Ids(s[..|s| - 1]) + multiset{s[|s| - 1].id}
  }

  // ----- The locked sections -----

  /** The first buffer large enough, in the order the vector happens to have. */
  function FirstFit(buffers: seq<Storage>, size: nat): (pos: Option<nat>)
    ensures pos.Some? ==> pos.value < |buffers| && buffers[pos.value].capacity >= size
                          && forall i | 0 <= i < pos.value :: buffers[i].capacity < size
    ensures pos.None? ==> forall i | 0 <= i < |buffers| :: buffers[i].capacity < size
  {
    if buffers == [] then None
    else if buffers[0].capacity >= size then Some(0)
    else
      var rest := FirstFit(buffers[1..], size);
      assert forall i | 0 < i < |buffers| :: buffers[i] == buffers[1..][i - 1];
      if rest.None? then None else Some(rest.value + 1)
  }

  /** The last element fills the gap. */
  function SwapRemove(s: seq<Storage>, i: nat): (r: seq<Storage>)
    requires i < |s|
    ensures |r| == |s| - 1
  {
    if i == |s| - 1 then s[..i] else s[..|s| - 1][i := s[|s| - 1]]
  }

  datatype Inner = Inner(buffers: seq<Storage>, totalCapacity: nat)

  /** Takes a cached buffer, emptied, or a newly allocated one. */
  function Acquired(p: Inner, size: nat, given: Storage): (Inner, Storage) {
    var pos := FirstFit(p.buffers, size);
    if pos.None? then (p, given) else
    var b := p.buffers[pos.value];
    (Inner(SwapRemove(p.buffers, pos.value), SaturatingSub(p.totalCapacity, b.capacity)), b.(length := 0))
  }

  /** Caches a dropped buffer if the budget allows, and frees it otherwise. */
  function Returned(p: Inner, data: Storage, maxBytes: nat): Inner {
    var wouldBe := SaturatingAdd(p.totalCapacity, data.capacity);
    if wouldBe <= maxBytes then Inner(p.buffers + [data], wouldBe) else p
  }

  class PoolInner {
    var buffers: seq<Storage>
    var totalCapacity: nat

    constructor ()
      ensures View() == Inner([], 0)
    {
      buffers, totalCapacity := [], 0;
    }

    ghost function View(): Inner
      reads this
    {
      Inner(buffers, totalCapacity)
    }

    method Position(size: nat) returns (pos: Option<nat>)
      ensures pos == FirstFit(buffers, size)
    {
      var i := 0;
      while i < |buffers|
        invariant i <= |buffers|
        invariant forall k | 0 <= k < i :: buffers[k].capacity < size
      {
        if buffers[i].capacity >= size { return Some(i); }
        i := i + 1;
      }
      return None;
    }

    /** The body of `acquire` under the lock; `given` is what the allocator would hand out. */
    method Acquire(size: nat, given: Storage) returns (data: Storage)
      requires given.capacity >= size && given.length == 0
      modifies this
      ensures (View(), data) == Acquired(old(View()), size, given)
      ensures data.length == 0 && data.capacity >= size
    {
      var pos := Position(size);
      if pos.Some? {
        data := buffers[pos.value];
        buffers := SwapRemove(buffers, pos.value);
        totalCapacity := SaturatingSub(totalCapacity, data.capacity);
        data := data.(length := 0);
      } else {
        data := given;
      }
    }

    /** The body of the buffer's `drop` once the lock is won. */
    method Return(data: Storage, maxBytes: nat)
      modifies this
      ensures View() == Returned(old(View()), data, maxBytes)
    {
      var wouldBe := SaturatingAdd(totalCapacity, data.capacity);
      if wouldBe <= maxBytes {
        totalCapacity := wouldBe;
        buffers := buffers + [data];
      }
    }
  }

  // ----- The pool among its tasks -----

  datatype Lock = Free | Acquiring(size: nat) | Returning(data: Storage) | Looking

  datatype Pool = Pool(inner: Inner, lock: Lock, held: seq<Storage>, maxBytes: nat)

  datatype Event =
    | BeginAcquire(size: nat)             // lock().await got the lock
    | EndAcquire(given: Storage)
    | BeginDrop(index: nat)               // try_lock: won, or contended
    | EndDrop
    | BeginLook | EndLook                 // len, is_empty, usage
    | Mutate(index: nat, data: Storage)   // through the buffer's mutable dereference
    | IntoInner(index: nat)

  function Without(s: seq<Storage>, i: nat): seq<Storage>
    requires i < |s|
  {
    s[..i] + s[i + 1..]
  }

  function InHand(l: Lock): seq<Storage> { if l.Returning? then [l.data] else [] }

  function AllIds(p: Pool): multiset<nat> { Ids(p.inner.buffers) + Ids(p.held) + Ids(InHand(p.lock)) }

  function Live(p: Pool): nat { Total(p.inner.buffers) + Total(p.held) + Total(InHand(p.lock)) }

  /** What the allocator may give: an allocation nobody here owns, within the address space. */
  predicate Allocatable(p: Pool, data: Storage) {
    data.id !in AllIds(p) && Live(p) + data.capacity <= USIZE_MAX
  }

  predicate Enabled(p: Pool, e: Event) {
    match e
    case BeginAcquire(_) => p.lock.Free?
    case EndAcquire(given) =>
      p.lock.Acquiring? && given.length == 0 && given.capacity >= p.lock.size && Allocatable(p, given)
    case BeginDrop(i) => i < |p.held|
    case EndDrop => p.lock.Returning?
    case BeginLook => p.lock.Free?
    case EndLook => p.lock.Looking?
    case Mutate(i, data) =>
      i < |p.held| && Live(p) - p.held[i].capacity + data.capacity <= USIZE_MAX
      && (data.id == p.held[i].id || data.id !in AllIds(p))
    case IntoInner(i) => i < |p.held|
  }

  function Step(p: Pool, e: Event): Pool
    requires Enabled(p, e)
  {
    match e
    case BeginAcquire(size) => p.(lock := Acquiring(size))
    case EndAcquire(given) =>
      var (inner, data) := Acquired(p.inner, p.lock.size, given);
      p.(inner := inner, lock := Free, held := p.held + [data])
    case BeginDrop(i) =>
      p.(held := Without(p.held, i), lock := if p.lock.Free? then Returning(p.held[i]) else p.lock)
    case EndDrop => p.(inner := Returned(p.inner, p.lock.data, p.maxBytes), lock := Free)
    case BeginLook => p.(lock := Looking)
    case EndLook => p.(lock := Free)
    case Mutate(i, data) => p.(held := p.held[i := data])
    case IntoInner(i) => p.(held := Without(p.held, i))
  }

  /** Every interleaving: an event that is not enabled does not happen. */
  function Run(maxBytes: nat, events: seq<Event>): (p: Pool)
    ensures p.maxBytes == maxBytes
  {
    if events == [] then Pool(Inner([], 0), Free, [], maxBytes) else
    var p, e := Run(maxBytes, events[..|events| - 1]), events[|events| - 1];
    if Enabled(p, e) then Step(p, e) else p
  }

  // ----- Counting -----

  lemma {:induction false} Updated(s: seq<Storage>, i: nat, x: Storage)
    requires i < |s|
    ensures Total(s[i := x]) + s[i].capacity == Total(s) + x.capacity
    ensures Ids(s[i := x]) + multiset{s[i].id} == Ids(s) + multiset{x.id}
  {
    var init, last, t := s[..|s| - 1], s[|s| - 1], s[i := x];
    if i < |init| {
      Updated(init, i, x);
      assert t[..|t| - 1] == init[i := x] && t[|t| - 1] == last;
      Exchange(Ids(init[i := x]), Ids(init), last.id, s[i].id, x.id);
    } else {
      assert t[..|t| - 1] == init;
      Exchange(Ids(init), Ids(init), x.id, s[i].id, x.id);
    }
  }

  lemma Exchange(a: multiset<nat>, b: multiset<nat>, last: nat, was: nat, now: nat)
    ensures a + multiset{was} == b + multiset{now} ==>
              a + multiset{last} + multiset{was} == b + multiset{last} + multiset{now}
    ensures a + multiset{now} + multiset{was} == a + multiset{was} + multiset{now}
  {
    assert a + multiset{last} + multiset{was} == a + multiset{was} + multiset{last};
    assert b + multiset{last} + multiset{now} == b + multiset{now} + multiset{last};
  }

  lemma Appended(s: seq<Storage>, x: Storage)
    ensures Total(s + [x]) == Total(s) + x.capacity && Ids(s + [x]) == Ids(s) + multiset{x.id}
  {
    assert (s + [x])[..|s|] == s;
  }

  lemma {:induction false} Removed(s: seq<Storage>, i: nat)
    requires i < |s|
    ensures Total(s) == Total(Without(s, i)) + s[i].capacity
    ensures Ids(s) == Ids(Without(s, i)) + multiset{s[i].id}
  {
    var init, last := s[..|s| - 1], s[|s| - 1];
    if i < |init| {
      Removed(init, i);
      assert Without(s, i) == Without(init, i) + [last];
      Appended(Without(init, i), last);
      hide Without;
      Exchange(Ids(Without(init, i)), Ids(Without(init, i)), last.id, s[i].id, last.id);
    } else {
      assert Without(s, i) == init;
    }
  }

  lemma SwapRemoved(s: seq<Storage>, i: nat)
    requires i < |s|
    ensures Total(s) == Total(SwapRemove(s, i)) + s[i].capacity
    ensures Ids(s) == Ids(SwapRemove(s, i)) + multiset{s[i].id}
  {
    var init, last := s[..|s| - 1], s[|s| - 1];
    if i < |init| { Updated(init, i, last); }
  }

  // ----- What every run keeps -----

  ghost predicate Distinct(ids: multiset<nat>) { forall id :: ids[id] <= 1 }

  /** The recorded capacity is exact and within budget, and no allocation has two owners. */
  ghost predicate Inv(p: Pool) {
    && p.inner.totalCapacity == Total(p.inner.buffers) <= p.maxBytes
    && Distinct(AllIds(p))
    && Live(p) <= USIZE_MAX
  }

  lemma HandCounts(l: Lock)
    ensures Ids(InHand(l)) == if l.Returning? then multiset{l.data.id} else multiset{}
    ensures Total(InHand(l)) == if l.Returning? then l.data.capacity else 0
  {
    if l.Returning? {
      Appended([], l.data);
      assert [] + [l.data] == [l.data];
    }
  }

  /** The owners after a step, from the owners before: what moved from one multiset to another, or left. */
  lemma Moved(from: multiset<nat>, to: multiset<nat>, rest: multiset<nat>, id: nat)
    ensures from + (to + multiset{id}) + rest == (from + multiset{id}) + to + rest
    ensures from + to + (rest + multiset{id}) == from + (to + multiset{id}) + rest
    ensures (from + to + rest) + multiset{id} == from + to + (rest + multiset{id})
  {
  }

  lemma AcquireKeeps(p: Pool, given: Storage)
    requires Inv(p) && Enabled(p, EndAcquire(given))
    ensures Inv(Step(p, EndAcquire(given)))
  {
    hide Total, Ids, FirstFit, SwapRemove, Distinct;
    var pos := FirstFit(p.inner.buffers, p.lock.size);
    var data := Acquired(p.inner, p.lock.size, given).1;
    HandCounts(p.lock);
    HandCounts(Free);
    Appended(p.held, data);
    if pos.Some? {
      SwapRemoved(p.inner.buffers, pos.value);
      Moved(Ids(SwapRemove(p.inner.buffers, pos.value)), Ids(p.held), multiset{}, data.id);
    } else {
      Moved(Ids(p.inner.buffers), Ids(p.held), multiset{}, given.id);
      OneMore(AllIds(p), given.id);
    }
  }

  lemma OneMore(ids: multiset<nat>, id: nat)
    requires Distinct(ids) && id !in ids
    ensures Distinct(ids + multiset{id})
  {
  }

  lemma Fewer(ids: multiset<nat>, gone: multiset<nat>)
    requires Distinct(ids + gone)
    ensures Distinct(ids)
  {
    forall id ensures ids[id] <= 1 { assert (ids + gone)[id] == ids[id] + gone[id]; }
  }

  lemma KeepingKeeps(p: Pool, i: nat)
    requires Inv(p) && i < |p.held|
    ensures Inv(Step(p, IntoInner(i)))
  {
    hide Without, Ids, Total, Distinct, InHand;
    Removed(p.held, i);
    Moved(Ids(p.inner.buffers), Ids(Without(p.held, i)), Ids(InHand(p.lock)), p.held[i].id);
    Fewer(AllIds(Step(p, IntoInner(i))), multiset{p.held[i].id});
  }

  lemma DropKeeps(p: Pool, i: nat)
    requires Inv(p) && i < |p.held|
    ensures Inv(Step(p, BeginDrop(i)))
  {
    hide Without, Ids, Total, Distinct;
    if p.lock.Free? {
      Removed(p.held, i);
      HandCounts(p.lock);
      HandCounts(Returning(p.held[i]));
      Moved(Ids(p.inner.buffers), Ids(Without(p.held, i)), multiset{}, p.held[i].id);
      assert multiset{} + multiset{p.held[i].id} == multiset{p.held[i].id};
    } else {
      KeepingKeeps(p, i);
    }
  }

  lemma ReturnKeeps(p: Pool)
    requires Inv(p) && p.lock.Returning?
    ensures Inv(Step(p, EndDrop))
  {
    hide Ids, Total, Distinct;
    Appended(p.inner.buffers, p.lock.data);
    HandCounts(p.lock);
    HandCounts(Free);
    var next := Step(p, EndDrop);
    if |next.inner.buffers| > |p.inner.buffers| {
      assert AllIds(next) == AllIds(p);
    } else {
      assert AllIds(p) == AllIds(next) + multiset{p.lock.data.id};
      Fewer(AllIds(next), multiset{p.lock.data.id});
    }
  }

  lemma MutateKeeps(p: Pool, i: nat, data: Storage)
    requires Inv(p) && Enabled(p, Mutate(i, data))
    ensures Inv(Step(p, Mutate(i, data)))
  {
    hide Total, Ids, Without, Distinct, InHand;
    var b, h, l, next := Ids(p.inner.buffers), Ids(p.held), Ids(InHand(p.lock)), Ids(p.held[i := data]);
    Updated(p.held, i, data);
    Replaced(b, h, next, l, p.held[i].id, data.id);
    if data.id == p.held[i].id {
      SameRest(b + next + l, b + h + l, data.id);
    } else {
      OneMore(b + h + l, data.id);
      Fewer(b + next + l, multiset{p.held[i].id});
    }
  }

  lemma Replaced(b: multiset<nat>, h: multiset<nat>, next: multiset<nat>, l: multiset<nat>, was: nat, now: nat)
    requires next + multiset{was} == h + multiset{now}
    ensures (b + next + l) + multiset{was} == (b + h + l) + multiset{now}
  {
    Moved(b, next, l, was);
    Moved(b, h, l, now);
  }

  lemma SameRest(a: multiset<nat>, b: multiset<nat>, id: nat)
    requires a + multiset{id} == b + multiset{id}
    ensures a == b
  {
    forall x ensures a[x] == b[x] { assert (a + multiset{id})[x] == (b + multiset{id})[x]; }
  }

  lemma StepKeepsInv(p: Pool, e: Event)
    requires Inv(p) && Enabled(p, e)
    ensures Inv(Step(p, e))
  {
    match e {
      case EndAcquire(given) => AcquireKeeps(p, given);
      case BeginDrop(i) => DropKeeps(p, i);
      case IntoInner(i) => KeepingKeeps(p, i);
      case EndDrop => ReturnKeeps(p);
      case Mutate(i, data) => MutateKeeps(p, i, data);
      case BeginAcquire(_) => hide Ids, Total;
      case BeginLook => hide Ids, Total;
      case EndLook => hide Ids, Total;
    }
  }

  /** In every interleaving. */
  lemma {:induction false} RunKeepsInv(maxBytes: nat, events: seq<Event>)
    ensures Inv(Run(maxBytes, events))
  {
    hide Step;
    if events != [] {
      var p, e := Run(maxBytes, events[..|events| - 1]), events[|events| - 1];
      RunKeepsInv(maxBytes, events[..|events| - 1]);
      if Enabled(p, e) { StepKeepsInv(p, e); }
      hide Inv, Enabled;
    }
  }

  /** A dropped buffer is cached if and only if the lock was free and the cached capacities leave room for it;
      otherwise the cache stays as it was. */
  lemma DroppedIsCachedExactly(maxBytes: nat, events: seq<Event>, i: nat)
    requires i < |Run(maxBytes, events).held|
    ensures var p := Run(maxBytes, events);
            var begun := Step(p, BeginDrop(i));
            var done := if begun.lock.Returning? && p.lock.Free? then Step(begun, EndDrop) else begun;
            done.inner.buffers ==
            if p.lock.Free? && Total(p.inner.buffers) + p.held[i].capacity <= maxBytes
            then p.inner.buffers + [p.held[i]] else p.inner.buffers
  {
    var p := Run(maxBytes, events);
    RunKeepsInv(maxBytes, events);
    Removed(p.held, i);
    hide Run, Total, Ids, Without, Distinct;
  }

  /** A buffer handed out is empty, large enough, and owned by nobody else; the pool allocates exactly when no cached
      buffer would do. */
  lemma AcquiredFits(maxBytes: nat, events: seq<Event>, given: Storage)
    requires Enabled(Run(maxBytes, events), EndAcquire(given))
    ensures var p := Run(maxBytes, events);
            var next := Step(p, EndAcquire(given));
            var data := next.held[|next.held| - 1];
            && next.held[..|next.held| - 1] == p.held
            && data.length == 0 && data.capacity >= p.lock.size
            && data.id !in Ids(p.held) && data.id !in Ids(next.inner.buffers)
            && (data == given <==> forall b <- p.inner.buffers :: b.capacity < p.lock.size)
  {
    var p := Run(maxBytes, events);
    var data := Acquired(p.inner, p.lock.size, given).1;
    RunKeepsInv(maxBytes, events);
    AcquireKeeps(p, given);
    Appended(p.held, data);
    var next := Step(p, EndAcquire(given));
    assert AllIds(next)[data.id] <= 1;
    hide Run, Total, Ids, SwapRemove;
    if FirstFit(p.inner.buffers, p.lock.size).Some? {
      NotGiven(p, given, FirstFit(p.inner.buffers, p.lock.size).value);
    }
  }

  lemma NotGiven(p: Pool, given: Storage, pos: nat)
    requires pos < |p.inner.buffers| && Allocatable(p, given)
    ensures p.inner.buffers[pos].id != given.id
  {
    Removed(p.inner.buffers, pos);
  }

  // ----- Which buffer is taken -----

  /** Every request that a cached buffer can serve gets one of the largest. */
  ghost predicate TakesLargest(buffers: seq<Storage>) {
    forall size: nat, j: nat | FirstFit(buffers, size).Some? && j < |buffers| ::
      buffers[j].capacity <= buffers[FirstFit(buffers, size).value].capacity
  }

  /** Every request that a cached buffer can serve gets one of the smallest that can. */
  ghost predicate TakesTightest(buffers: seq<Storage>) {
    forall size: nat, j: nat | FirstFit(buffers, size).Some? && j < |buffers| && buffers[j].capacity >= size ::
      buffers[FirstFit(buffers, size).value].capacity <= buffers[j].capacity
  }

  /** The first fit is a largest buffer for every request if and only if the first buffer is a largest one. */
  lemma LargestFirstWhen(buffers: seq<Storage>)
    ensures TakesLargest(buffers) <==> forall j | 0 <= j < |buffers| :: buffers[j].capacity <= buffers[0].capacity
  {
    if buffers != [] { assert FirstFit(buffers, 0) == Some(0); }
    if forall j | 0 <= j < |buffers| :: buffers[j].capacity <= buffers[0].capacity {
      forall size: nat | FirstFit(buffers, size).Some? ensures FirstFit(buffers, size) == Some(0) {
        assert buffers[FirstFit(buffers, size).value].capacity <= buffers[0].capacity;
      }
    }
  }

  /** It is a tightest one for every request if and only if no buffer stands before a smaller one,
      unless one as small stands before both. */
  lemma TightestFirstWhen(buffers: seq<Storage>)
    ensures TakesTightest(buffers) <==>
            forall i, j | 0 <= i < j < |buffers| && buffers[i].capacity > buffers[j].capacity ::
              exists k :: 0 <= k < i && buffers[k].capacity == buffers[j].capacity
  {
    hide FirstFit;
    if TakesTightest(buffers) {
      forall i, j | 0 <= i < j < |buffers| && buffers[i].capacity > buffers[j].capacity
        ensures exists k :: 0 <= k < i && buffers[k].capacity == buffers[j].capacity
      {
        var p := FirstFit(buffers, buffers[j].capacity);
        assert p.Some? && buffers[p.value].capacity == buffers[j].capacity && p.value <= i;
      }
    }
  }

  /** Two buffers, and the order decides which of the two promises fails. */
  lemma NeitherLargestNorTightest(small: Storage, large: Storage)
    requires small.capacity < large.capacity
    ensures !TakesLargest([small, large]) && !TakesTightest([large, small])
  {
    LargestFirstWhen([small, large]);
    TightestFirstWhen([large, small]);
    var a, b := [small, large], [large, small];
    assert a[1].capacity > a[0].capacity && b[0].capacity > b[1].capacity;
  }
}
