/**
 * The time hijacker injected into the page before its own scripts run
 * (backend/scripts/generate_gif_standalone.py, TIME_HIJACK_SCRIPT).
 *
 * Its state is a virtual time in milliseconds and an ordered registry of
 * pending frame callbacks.  `Date`, `performance.now`, `requestAnimationFrame`
 * and `cancelAnimationFrame` are replaced, and `advanceTime` is the only way
 * time moves.  A page callback is modelled by the registry operations it
 * performs when it is invoked (`body`) and by whether it then throws.
 */
module VirtualClock {
  import opened Wrappers

  /** The fixed epoch the hijacked `Date` adds to the virtual time: 1700000000000 ms. */
  const Epoch: real := 1700000000000.0

  /** A registry operation a callback performs while it runs. */
  datatype Action = Request(callback: Callback) | Cancel(id: int)

  /**
   * A page callback: `tag` tells callbacks apart, `body` is what it does to the
   * registry when invoked, `throws` says whether it raises after doing so.
   */
  datatype Callback = Callback(tag: nat, body: seq<Action>, throws: bool)

  /** One element of `window.__rafCallbacks`. */
  datatype Entry = Entry(id: nat, callback: Callback, cancelled: bool)

  /** One call of a frame callback, with the time it received as its argument. */
  datatype Invocation = Invocation(callback: Callback, at: real)

  /**
   * What `new Date(...args)` yields: a date at the virtual clock, a date built
   * by the page's original `Date`, or the RangeError of a constructor that
   * calls itself until the stack overflows.
   */
  datatype DateValue<A> = VirtualDate(epochMs: real) | OriginalDate(args: seq<A>) | StackOverflow

  /** Every entry's id is its position: `id` is always taken as the registry's length. */
  ghost predicate IdsAreIndices(reg: seq<Entry>) {
    forall i :: 0 <= i < |reg| ==> reg[i].id == i
  }

  /** `requestAnimationFrame` on a registry: append an uncancelled entry whose id is the old length. */
  function Register(reg: seq<Entry>, cb: Callback): (r: seq<Entry>)
    ensures |r| == |reg| + 1 && r[..|reg|] == reg
    ensures r[|reg|] == Entry(|reg|, cb, false)
    ensures IdsAreIndices(reg) ==> IdsAreIndices(r)
  {
    reg + [Entry(|reg|, cb, false)]
  }

  /** `__rafCallbacks.find(c => c.id === id)`, as a position. */
  function FirstWithId(reg: seq<Entry>, id: int): (r: Option<nat>)
    ensures r.Some? ==> r.value < |reg| && reg[r.value].id == id
    ensures r.Some? ==> forall j :: 0 <= j < r.value ==> reg[j].id != id
    ensures r.None? ==> forall j :: 0 <= j < |reg| ==> reg[j].id != id
  {
    if reg == [] then None
    else if reg[0].id == id then Some(0)
    else match FirstWithId(reg[1..], id)
      case None => None
      case Some(k) => Some(k + 1)
  }

  /** `cancelAnimationFrame` on a registry: flag the first entry with that id, if any. */
  function CancelIn(reg: seq<Entry>, id: int): (r: seq<Entry>)
    ensures |r| == |reg|
    ensures forall j :: 0 <= j < |reg| ==> r[j].id == reg[j].id && r[j].callback == reg[j].callback
    ensures (forall j :: 0 <= j < |reg| ==> reg[j].id != id) ==> r == reg
    ensures IdsAreIndices(reg) ==>
              r == if 0 <= id < |reg| then reg[id := reg[id].(cancelled := true)] else reg
  {
    match FirstWithId(reg, id)
    case None => reg
    case Some(k) => reg[k := reg[k].(cancelled := true)]
  }

  /** One registry operation. */
  function Step(reg: seq<Entry>, a: Action): seq<Entry> {
    match a
    case Request(cb) => Register(reg, cb)
    case Cancel(id) => CancelIn(reg, id)
  }

  /** The registry after a callback performs `acts` in order. */
  function Perform(reg: seq<Entry>, acts: seq<Action>): seq<Entry>
    decreases |acts|
  {
    if acts == [] then reg else Step(Perform(reg, acts[..|acts| - 1]), acts[|acts| - 1])
  }

  /** The registry after every callback of `batch` has run, in order. */
  function RunBatch(reg: seq<Entry>, batch: seq<Callback>): seq<Entry>
    decreases |batch|
  {
    if batch == [] then reg
    else Perform(RunBatch(reg, batch[..|batch| - 1]), batch[|batch| - 1].body)
  }

  /** `__rafCallbacks.filter(c => !c.cancelled)`, keeping only the callbacks. */
  function Pending(reg: seq<Entry>): (r: seq<Callback>)
    ensures |r| <= |reg|
  {
    if reg == [] then []
    else (if reg[0].cancelled then [] else [reg[0].callback]) + Pending(reg[1..])
  }

  /** The calls one advance makes: each callback of the batch, given the new time. */
  function Invocations(batch: seq<Callback>, at: real): (r: seq<Invocation>)
    ensures |r| == |batch|
    ensures forall i :: 0 <= i < |batch| ==> r[i] == Invocation(batch[i], at)
  {
    seq(|batch|, i requires 0 <= i < |batch| => Invocation(batch[i], at))
  }

  lemma {:induction false} PerformKeepsIds(reg: seq<Entry>, acts: seq<Action>)
    requires IdsAreIndices(reg)
    ensures IdsAreIndices(Perform(reg, acts))
    decreases |acts|
  {
    if acts != [] {
      PerformKeepsIds(reg, acts[..|acts| - 1]);
    }
  }

  /** Whatever a batch registers is numbered 0, 1, 2, ... afresh: ids restart after every advance. */
  lemma {:induction false} RunBatchNumbersFromZero(batch: seq<Callback>)
    ensures IdsAreIndices(RunBatch([], batch))
    decreases |batch|
  {
    if batch != [] {
      RunBatchNumbersFromZero(batch[..|batch| - 1]);
      PerformKeepsIds(RunBatch([], batch[..|batch| - 1]), batch[|batch| - 1].body);
    }
  }

  lemma {:induction false} PendingConcat(a: seq<Entry>, b: seq<Entry>)
    ensures Pending(a + b) == Pending(a) + Pending(b)
  {
    if a == [] {
      assert a + b == b;
    } else {
      assert (a + b)[1..] == a[1..] + b;
      PendingConcat(a[1..], b);
    }
  }

  /**
   * An entry contributes its callback to the next batch, at its own position,
   * exactly when it is not cancelled.
   */
  lemma {:induction false} PendingAround(reg: seq<Entry>, k: nat)
    requires k < |reg|
    ensures Pending(reg) == Pending(reg[..k])
                            + (if reg[k].cancelled then [] else [reg[k].callback])
                            + Pending(reg[k + 1..])
  {
    var x, pre, post := reg[k], reg[..k], reg[k + 1..];
    assert reg == pre + ([x] + post);
    PendingConcat(pre, [x] + post);
    PendingConcat([x], post);
    assert [x][1..] == [];
    assert Pending([x]) == (if x.cancelled then [] else [x.callback]) + Pending([]);
  }

  /** Cancelling the entry with id `k` takes exactly its callback out of the next batch. */
  lemma CancelRemovesFromBatch(reg: seq<Entry>, k: nat)
    requires IdsAreIndices(reg) && k < |reg|
    ensures Pending(CancelIn(reg, k)) == Pending(reg[..k]) + Pending(reg[k + 1..])
  {
    var r := CancelIn(reg, k);
    assert r[..k] == reg[..k] && r[k + 1..] == reg[k + 1..];
    PendingAround(r, k);
  }

  /** Cancelling the id just returned by `requestAnimationFrame` undoes the request. */
  lemma RequestThenCancel(reg: seq<Entry>, cb: Callback)
    requires IdsAreIndices(reg)
    ensures Pending(CancelIn(Register(reg, cb), |reg|)) == Pending(reg)
  {
    var r := Register(reg, cb);
    CancelRemovesFromBatch(r, |reg|);
    assert r[|reg| + 1..] == [];
  }

  /** A callback registered during an advance is not in that advance's batch: it waits, with id 0. */
  lemma RegisteredDuringAdvanceWaits(a: Callback, b: Callback)
    requires a.body == [Request(b)]
    ensures Pending([Entry(0, a, false)]) == [a]
    ensures RunBatch([], [a]) == [Entry(0, b, false)]
  {
    assert Perform([], a.body) == Perform([], []) + [Entry(0, b, false)];
  }

  /** Cancelling a batch member from inside the batch comes too late: the registry is already empty. */
  lemma CancelDuringAdvanceTooLate(a: Callback, b: Callback)
    requires a.body == [Cancel(1)] && b.body == []
    ensures Pending([Entry(0, a, false), Entry(1, b, false)]) == [a, b]
    ensures RunBatch([], [a, b]) == []
  {
    assert [a, b][..1] == [a] && [a][..0] == [];
    assert a.body[..0] == [];
    assert Perform([], a.body) == CancelIn(Perform([], []), 1) == [];
    assert RunBatch([], [a]) == [];
  }

  /** Running one more callback of a batch: one more call, and its registry operations. */
  lemma BatchStep(batch: seq<Callback>, i: nat, at: real)
    requires i < |batch|
    ensures Invocations(batch[..i + 1], at) == Invocations(batch[..i], at) + [Invocation(batch[i], at)]
    ensures RunBatch([], batch[..i + 1]) == Perform(RunBatch([], batch[..i]), batch[i].body)
  {
    assert batch[..i + 1][..i] == batch[..i];
  }

  /**
   * The hijacker's state for one page.  `calls` is the observable history of
   * callback invocations; thrown errors only go to the console.
   */
  class Clock {
    var time: real
    var entries: seq<Entry>
    var calls: seq<Invocation>
    /**
     * The script has run more than once: `window.__originalDate` is then the
     * `HijackedDate` of the previous run, whose constructor forwards every
     * call to `window.__originalDate`, that is to itself.
     */
    var dateRecurses: bool

    ghost predicate Valid()
      reads this
    {
      IdsAreIndices(entries)
    }

    /** Running the script: virtual time 0, no pending callbacks, `Date` replaced once. */
    constructor ()
      ensures Valid()
      ensures time == 0.0 && entries == [] && calls == [] && !dateRecurses
    {
      time := 0.0;
      entries := [];
      calls := [];
      dateRecurses := false;
    }

    /**
     * Running the script again on a page where it already ran: time and
     * registry are reset, and from then on every `new Date(...)` recurses.
     */
    method Reinject()
      modifies this
      ensures Valid()
      ensures time == 0.0 && entries == [] && calls == old(calls) && dateRecurses
    {
      time := 0.0;
      entries := [];
      dateRecurses := true;
    }

    /** `performance.now()`. */
    function PerformanceNow(): real
      reads this
    {
      time
    }

    /** `Date.now()`: the virtual time shifted by the fixed epoch. */
    function DateNow(): (ms: real)
      reads this
      ensures ms - PerformanceNow() == Epoch
    {
      time + Epoch
    }

    /**
     * `new Date(...args)`: only the zero-argument form reads the virtual clock,
     * and after a second run of the script no form returns at all.
     */
    function NewDate<A>(args: seq<A>): (d: DateValue<A>)
      reads this
      ensures dateRecurses <==> d == StackOverflow
      ensures !dateRecurses && args == [] ==> d == VirtualDate(DateNow())
      ensures !dateRecurses && args != [] ==> d == OriginalDate(args)
    {
      if dateRecurses then StackOverflow
      else if |args| > 0 then OriginalDate(args)
      else VirtualDate(time + Epoch)
    }

    /** `requestAnimationFrame(cb)`: registers `cb` and returns its id without calling it. */
    method RequestAnimationFrame(cb: Callback) returns (id: nat)
      requires Valid()
      modifies this
      ensures Valid()
      ensures id == |old(entries)|
      ensures entries == Register(old(entries), cb)
      ensures time == old(time) && calls == old(calls) && dateRecurses == old(dateRecurses)
    {
      id := |entries|;
      entries := entries + [Entry(id, cb, false)];
    }

    /** `cancelAnimationFrame(id)`: flags the first pending entry with `id`; otherwise no effect. */
    method CancelAnimationFrame(id: int)
      requires Valid()
      modifies this
      ensures Valid()
      ensures entries == CancelIn(old(entries), id)
      ensures time == old(time) && calls == old(calls) && dateRecurses == old(dateRecurses)
    {
      var found := FirstWithId(entries, id);
      if found.Some? {
        var k := found.value;
        entries := entries[k := entries[k].(cancelled := true)];
      }
    }

    /** Invokes one batch callback: the registry operations it performs, in order. */
    method Run(cb: Callback)
      requires Valid()
      modifies this
      ensures Valid()
      ensures entries == Perform(old(entries), cb.body)
      ensures time == old(time) && calls == old(calls) && dateRecurses == old(dateRecurses)
    {
      var j := 0;
      while j < |cb.body|
        invariant 0 <= j <= |cb.body|
        invariant Valid()
        invariant time == old(time) && calls == old(calls) && dateRecurses == old(dateRecurses)
        invariant entries == Perform(old(entries), cb.body[..j])
      {
        match cb.body[j] {
          case Request(c) =>
            var _ := RequestAnimationFrame(c);
          case Cancel(id) =>
            CancelAnimationFrame(id);
        }
        assert cb.body[..j + 1][..j] == cb.body[..j];
        j := j + 1;
      }
      assert cb.body[..j] == cb.body;
    }

    /**
     * `advanceTime(ms)`: moves time by `ms`, takes the uncancelled entries as the
     * batch, empties the registry, then calls every batch callback in order with
     * the new time.  A callback that throws does not stop the others; what the
     * callbacks register lands in the emptied registry, for the next advance.
     */
    method AdvanceTime(ms: real)
      requires Valid()
      modifies this
      ensures Valid()
      ensures time == old(time) + ms && dateRecurses == old(dateRecurses)
      ensures calls == old(calls) + Invocations(Pending(old(entries)), old(time) + ms)
      ensures entries == RunBatch([], Pending(old(entries)))
    {
      time := time + ms;
      var batch := Pending(entries);
      entries := [];
      var i := 0;
      while i < |batch|
        invariant 0 <= i <= |batch|
        invariant Valid()
        invariant time == old(time) + ms && dateRecurses == old(dateRecurses)
        invariant calls == old(calls) + Invocations(batch[..i], time)
        invariant entries == RunBatch([], batch[..i])
      {
        var cb := batch[i];
        calls := calls + [Invocation(cb, time)];
        Run(cb);
        BatchStep(batch, i, time);
        i := i + 1;
      }
      assert batch[..i] == batch;
    }
  }

  /**
   * A page whose own script hides `advanceTime` after the hijacker ran (a
   * top-level `var advanceTime = 0;`) fails the probe, so the script runs a
   * second time: `new Date(...)` worked before and recurses after.
   */
  method DateAfterReinjection<A>(args: seq<A>) returns (before: DateValue<A>, after: DateValue<A>)
    ensures args == [] ==> before == VirtualDate(Epoch)
    ensures args != [] ==> before == OriginalDate(args)
    ensures after == StackOverflow
  {
    var clock := new Clock();
    before := clock.NewDate(args);
    clock.Reinject();
    after := clock.NewDate(args);
  }

  /**
   * A callback registered by a callback during advance k runs at advance k + 1,
   * with that advance's time, and not before.
   */
  method RegisteredDuringAdvanceRunsNext(a: Callback, b: Callback, ms: real) returns (log: seq<Invocation>)
    requires a.body == [Request(b)] && b.body == []
    ensures log == [Invocation(a, ms), Invocation(b, ms + ms)]
  {
    var clock := new Clock();
    var id := clock.RequestAnimationFrame(a);
    assert clock.entries == [Entry(0, a, false)];
    clock.AdvanceTime(ms);
    RegisteredDuringAdvanceWaits(a, b);
    assert clock.calls == [Invocation(a, ms)];
    assert clock.entries == [Entry(0, b, false)];
    assert Pending(clock.entries) == [b];
    clock.AdvanceTime(ms);
    log := clock.calls;
  }
}
