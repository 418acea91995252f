/**
 The id allocator of virtual devices: a counter that wraps inside the int32 range,
 refusing an id still in use instead of looking for the next one.
 */
module VirtualIds {
  import opened Basics

  const MIN_VIRTUAL_INPUT_DEVICE_ID: int32 := 1000
  const MAX_VIRTUAL_INPUT_DEVICE_NUM := 128

  /** The live virtual devices by id, each with its name, and the next id to try. */
  datatype Virtuals = Virtuals(devices: map<int32, string>, counter: int32)

  const NONE := Virtuals(map[], MIN_VIRTUAL_INPUT_DEVICE_ID)

  function Candidate(counter: int32): int32 {
    if counter == INT32_MAX then MIN_VIRTUAL_INPUT_DEVICE_ID else counter
  }

  predicate InRange(counter: int32) {
    MIN_VIRTUAL_INPUT_DEVICE_ID <= counter
  }

  /** The next counter and, on success, the id given out. */
  function Generated(v: Virtuals): (int32, Option<int32>) {
    if |v.devices| >= MAX_VIRTUAL_INPUT_DEVICE_NUM then (v.counter, None)
    else
      var id := Candidate(v.counter);
      (id + 1, if id in v.devices then None else Some(id))
  }

  predicate NameTaken(v: Virtuals, name: string) {
    exists id :: id in v.devices && v.devices[id] == name
  }

  function Added(v: Virtuals, name: string): (Virtuals, Option<int32>) {
    if NameTaken(v, name) then (v, None)
    else
      var (counter, id) := Generated(v);
      match id
      case None => (v.(counter := counter), None)
      case Some(i) => (Virtuals(v.devices[i := name], counter), Some(i))
  }

  function Removed(v: Virtuals, id: int32): Virtuals {
    v.(devices := v.devices - {id})
  }

  // ----- Safety -----

  ghost predicate Safe(v: Virtuals) {
    && InRange(v.counter)
    && (forall id :: id in v.devices ==> MIN_VIRTUAL_INPUT_DEVICE_ID <= id < INT32_MAX)
    && |v.devices| <= MAX_VIRTUAL_INPUT_DEVICE_NUM
    && (forall a, b :: a in v.devices && b in v.devices && v.devices[a] == v.devices[b] ==> a == b)
  }

  datatype Op = Add(name: string) | Remove(id: int32)

  function Run(ops: seq<Op>): Virtuals {
    if ops == [] then NONE
    else
      var before, op := Run(ops[..|ops| - 1]), ops[|ops| - 1];
      match op
      case Add(name) => Added(before, name).0
      case Remove(id) => Removed(before, id)
  }

  lemma RemovedKeepsSafe(v: Virtuals, id: int32)
    requires Safe(v)
    ensures Safe(Removed(v, id))
  {
    var after := Removed(v, id);
    assert after.devices.Keys <= v.devices.Keys;
    SubsetSize(after.devices.Keys, v.devices.Keys);
  }

  lemma SubsetSize(a: set<int32>, b: set<int32>)
    requires a <= b
    ensures |a| <= |b|
  {
    assert b == a + (b - a);
  }

  lemma AddedKeepsSafe(v: Virtuals, name: string)
    requires Safe(v)
    ensures Safe(Added(v, name).0)
  {
  }

  /** Live ids lie in [1000, 2^31 - 2], number at most 128 and have distinct names, after every run and any wrap. */
  lemma {:induction false} LiveIdsAreSafe(ops: seq<Op>)
    ensures Safe(Run(ops))
  {
    if ops == [] {
    } else {
      LiveIdsAreSafe(ops[..|ops| - 1]);
      var before, op := Run(ops[..|ops| - 1]), ops[|ops| - 1];
      match op
      case Add(name) => AddedKeepsSafe(before, name);
      case Remove(id) => RemovedKeepsSafe(before, id);
    }
  }

  /** An id given out is new, and nobody else's id or name changes. */
  lemma GivenIdIsNew(v: Virtuals, name: string)
    requires Safe(v) && Added(v, name).1.Some?
    ensures var (after, id) := Added(v, name);
            && id.value !in v.devices
            && after.devices == v.devices[id.value := name]
            && MIN_VIRTUAL_INPUT_DEVICE_ID <= id.value < INT32_MAX
    ensures !NameTaken(v, name) && |v.devices| < MAX_VIRTUAL_INPUT_DEVICE_NUM
  {
  }

  /** The id the next call tries after giving out `id`: the next one up, or the first after the last below 2^31 - 1. */
  function Following(id: int32): int32
    requires 1000 <= id < 0x7FFF_FFFF
  {
    if id == 0x7FFF_FFFE then 1000 else id + 1
  }

  /** The first id is 1000, and an add after a successful one, with room left and a fresh name, tries the next id. */
  lemma NextAfterSuccess(v: Virtuals, name: string, other: string)
    requires Safe(v) && Added(v, name).1.Some?
    requires |v.devices| + 1 < 128 && name != other && !NameTaken(v, other)
    ensures Added(NONE, name).1 == Some(1000)
    ensures var (after, id) := Added(v, name);
            var next := Following(id.value);
            if next in after.devices then Added(after, other).1 == None
            else Added(after, other).1 == Some(next) && Added(after, other).0.devices == after.devices[next := other]
  {
    assert !NameTaken(NONE, name);
    assert !NameTaken(Added(v, name).0, other);
  }

  /** The op gives the id, with the name. */
  ghost predicate Gives(v: Virtuals, op: Op, id: int32, name: string) {
    op == Add(name) && Added(v, name).1 == Some(id)
  }

  ghost predicate GivesAt(ops: seq<Op>, i: nat, id: int32, name: string)
    requires i < |ops|
  {
    Gives(Run(ops[..i]), ops[i], id, name)
  }

  /** The id was given out with the name and not removed since. */
  ghost predicate GivenSince(ops: seq<Op>, n: nat, id: int32, name: string)
    requires n <= |ops|
  {
    On(seq(|ops|, i requires 0 <= i < |ops| => GivesAt(ops, i, id, name)),
       seq(|ops|, i requires 0 <= i < |ops| => ops[i] == Remove(id)), n)
  }

  lemma GivenOneMore(ops: seq<Op>, n: nat, id: int32, name: string)
    requires n < |ops|
    ensures GivenSince(ops, n + 1, id, name)
       <==> GivesAt(ops, n, id, name) || (GivenSince(ops, n, id, name) && ops[n] != Remove(id))
  {
    OnOneMore(seq(|ops|, i requires 0 <= i < |ops| => GivesAt(ops, i, id, name)),
              seq(|ops|, i requires 0 <= i < |ops| => ops[i] == Remove(id)), n);
  }

  predicate LiveAs(v: Virtuals, id: int32, name: string) {
    id in v.devices && v.devices[id] == name
  }

  lemma LiveAfterAdd(v: Virtuals, added: string, id: int32, name: string)
    requires Safe(v)
    ensures LiveAs(Added(v, added).0, id, name) <==> Gives(v, Add(added), id, name) || LiveAs(v, id, name)
  {
  }

  lemma LiveAfterRemove(v: Virtuals, removed: int32, id: int32, name: string)
    ensures LiveAs(Removed(v, removed), id, name) <==> LiveAs(v, id, name) && removed != id
  {
  }

  lemma LiveAfter(ops: seq<Op>, op: Op, id: int32, name: string)
    ensures LiveAs(Run(ops + [op]), id, name)
       <==> Gives(Run(ops), op, id, name) || (LiveAs(Run(ops), id, name) && op != Remove(id))
  {
    LiveIdsAreSafe(ops);
    assert (ops + [op])[..|ops|] == ops;
    match op
    case Add(added) => LiveAfterAdd(Run(ops), added, id, name);
    case Remove(removed) => LiveAfterRemove(Run(ops), removed, id, name);
  }

  predicate LiveAt(ops: seq<Op>, n: nat, id: int32, name: string)
    requires n <= |ops|
  {
    LiveAs(Run(ops[..n]), id, name)
  }

  lemma NoneLive(ops: seq<Op>, id: int32, name: string)
    ensures !LiveAt(ops, 0, id, name)
  {
    assert ops[..0] == [];
  }

  lemma OneMoreLive(ops: seq<Op>, n: nat, id: int32, name: string)
    requires n < |ops|
    ensures LiveAt(ops, n + 1, id, name)
       <==> GivesAt(ops, n, id, name) || (LiveAt(ops, n, id, name) && ops[n] != Remove(id))
  {
    LiveAfter(ops[..n], ops[n], id, name);
    assert ops[..n + 1] == ops[..n] + [ops[n]];
  }

  /** At every point of every run the live virtual devices are exactly those given an id and not removed since. */
  lemma {:induction false} LiveIdsAreGiven(ops: seq<Op>, n: nat, id: int32, name: string)
    requires n <= |ops|
    ensures LiveAt(ops, n, id, name) <==> GivenSince(ops, n, id, name)
  {
    if n == 0 {
      NoneLive(ops, id, name);
    } else {
      LiveIdsAreGiven(ops, n - 1, id, name);
      GivenOneMore(ops, n - 1, id, name);
      OneMoreLive(ops, n - 1, id, name);
    }
  }

  // ----- Progress -----

  /** The state after `n` calls for a name, whatever each of them answered. */
  function Retried(v: Virtuals, name: string, n: nat): Virtuals {
    if n == 0 then v else Added(Retried(v, name, n - 1), name).0
  }

  /** The id tried by the call after `n` failed ones: counting up from the counter, wrapping at 2^31 - 1. */
  function Tried(counter: int32, n: nat): int32
    requires InRange(counter) && n <= MAX_VIRTUAL_INPUT_DEVICE_NUM
  {
    var start := Candidate(counter);
    if start + n < INT32_MAX then start + n else start + n - INT32_MAX + MIN_VIRTUAL_INPUT_DEVICE_ID
  }

  ghost predicate AllTaken(v: Virtuals, n: nat)
    requires InRange(v.counter) && n <= MAX_VIRTUAL_INPUT_DEVICE_NUM + 1
  {
    forall k :: 0 <= k < n ==> Tried(v.counter, k) in v.devices
  }

  lemma FailedCall(v: Virtuals, name: string)
    requires InRange(v.counter) && |v.devices| < MAX_VIRTUAL_INPUT_DEVICE_NUM && !NameTaken(v, name)
    requires Candidate(v.counter) in v.devices
    ensures Added(v, name).1 == None && Added(v, name).0.devices == v.devices
    ensures var next := Added(v, name).0.counter;
            && InRange(next)
            && Candidate(next) == if Candidate(v.counter) == INT32_MAX - 1 then MIN_VIRTUAL_INPUT_DEVICE_ID
                                  else Candidate(v.counter) + 1
  {
  }

  lemma {:induction false} FailedCalls(v: Virtuals, name: string, n: nat)
    requires Safe(v) && |v.devices| < MAX_VIRTUAL_INPUT_DEVICE_NUM && !NameTaken(v, name)
    requires n <= MAX_VIRTUAL_INPUT_DEVICE_NUM && AllTaken(v, n)
    ensures Retried(v, name, n).devices == v.devices && InRange(Retried(v, name, n).counter)
    ensures Candidate(Retried(v, name, n).counter) == Tried(v.counter, n)
    ensures n > 0 ==> Added(Retried(v, name, n - 1), name).1 == None
  {
    if n > 0 {
      var before := Retried(v, name, n - 1);
      FailedCalls(v, name, n - 1);
      assert Tried(v.counter, n - 1) in v.devices;
      NameTakenByDevices(v, before, name);
      FailedCall(before, name);
      TriedNext(v.counter, n);
    }
  }

  lemma NameTakenByDevices(v: Virtuals, w: Virtuals, name: string)
    requires v.devices == w.devices
    ensures NameTaken(v, name) <==> NameTaken(w, name)
  {
  }

  lemma TriedNext(counter: int32, n: nat)
    requires InRange(counter) && 0 < n <= MAX_VIRTUAL_INPUT_DEVICE_NUM
    ensures Tried(counter, n) == if Tried(counter, n - 1) == INT32_MAX - 1 then MIN_VIRTUAL_INPUT_DEVICE_ID
                                 else Tried(counter, n - 1) + 1
  {
  }

  ghost function TriedSet(counter: int32, n: nat): set<int32>
    requires InRange(counter) && n <= MAX_VIRTUAL_INPUT_DEVICE_NUM + 1
  {
    set k | 0 <= k < n :: Tried(counter, k)
  }

  lemma {:induction false} TriedAreDistinct(counter: int32, n: nat)
    requires InRange(counter) && n <= MAX_VIRTUAL_INPUT_DEVICE_NUM + 1
    ensures |TriedSet(counter, n)| == n
  {
    if n > 0 {
      TriedAreDistinct(counter, n - 1);
      assert TriedSet(counter, n) == TriedSet(counter, n - 1) + {Tried(counter, n - 1)};
      assert Tried(counter, n - 1) !in TriedSet(counter, n - 1);
    }
  }

  /** Distinct ids all in use: no more of them than live devices. */
  lemma TakenAreLive(v: Virtuals, n: nat)
    requires InRange(v.counter) && n <= MAX_VIRTUAL_INPUT_DEVICE_NUM + 1 && AllTaken(v, n)
    ensures n <= |v.devices|
  {
    TriedAreDistinct(v.counter, n);
    assert |v.devices.Keys| == |v.devices|;
    SubsetSize(TriedSet(v.counter, n), v.devices.Keys);
  }

  lemma {:induction false} FirstFree(v: Virtuals, n: nat) returns (k: nat)
    requires InRange(v.counter) && n <= MAX_VIRTUAL_INPUT_DEVICE_NUM + 1 && !AllTaken(v, n)
    ensures k < n && AllTaken(v, k) && Tried(v.counter, k) !in v.devices
  {
    if AllTaken(v, n - 1) {
      k := n - 1;
    } else {
      k := FirstFree(v, n - 1);
    }
  }

  /** The `k`-th retry succeeds and the ones before it fail. */
  ghost predicate SucceedsAfter(v: Virtuals, name: string, k: nat) {
    && (forall j :: 0 <= j < k ==> Added(Retried(v, name, j), name).1 == None)
    && Added(Retried(v, name, k), name).1.Some?
  }

  lemma FirstFreeSucceeds(v: Virtuals, name: string, k: nat)
    requires Safe(v) && |v.devices| < MAX_VIRTUAL_INPUT_DEVICE_NUM && !NameTaken(v, name)
    requires k <= MAX_VIRTUAL_INPUT_DEVICE_NUM && AllTaken(v, k) && Tried(v.counter, k) !in v.devices
    ensures SucceedsAfter(v, name, k)
  {
    forall j | 0 <= j < k ensures Added(Retried(v, name, j), name).1 == None {
      FailedCalls(v, name, j + 1);
    }
    FailedCalls(v, name, k);
    NameTakenByDevices(v, Retried(v, name, k), name);
  }

  /**
   With room left and a fresh name, asking again succeeds after at most as many failures
   as there are live devices, hence within 128 calls.
   */
  lemma RetryingSucceeds(v: Virtuals, name: string)
    requires Safe(v) && |v.devices| < MAX_VIRTUAL_INPUT_DEVICE_NUM && !NameTaken(v, name)
    ensures exists k: nat :: k <= |v.devices| && SucceedsAfter(v, name, k)
  {
    var n := |v.devices| + 1;
    assert !AllTaken(v, n) by {
      if AllTaken(v, n) {
        TakenAreLive(v, n);
      }
    }
    var k := FirstFree(v, n);
    FirstFreeSucceeds(v, name, k);
  }
}
