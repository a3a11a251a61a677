/** The pure state of OdroidThingsManager's peripheral registry: the fixed table
    of named pin slots (`pinStateList`) and the dynamic map of open I2C devices
    (`i2cStateList` with its counter `i2cIdx`), and the functions that the
    manager's methods are proved against. */
module Registry {
  import opened Lang
  import opened Seqs

  /** Which `Pin` class the allocation callback builds: OdroidGpio or OdroidPwm. */
  datatype PinKind = GpioPin | PwmPin

  /** The open `Pin` object held by a slot; the callback builds it for the slot's index. */
  datatype Handle = Handle(kind: PinKind, slot: int)

  /** One `PinState` of `pinStateList`: the enumerated name and the open pin, or null. */
  datatype PinState = PinState(name: string, pin: Option<Handle>)

  function Names(t: seq<PinState>): (ns: seq<string>)
    ensures |ns| == |t| && forall i :: 0 <= i < |t| ==> ns[i] == t[i].name
  {
    seq(|t|, i requires 0 <= i < |t| => t[i].name)
  }

  /** Every open slot holds the pin that was built for that slot. */
  ghost predicate HandlesMatch(t: seq<PinState>)
  {
    forall i :: 0 <= i < |t| && t[i].pin.Some? ==> t[i].pin.value.slot == i
  }

  /** The index `getPinNumBy(name, ...)` returns: the first slot carrying the name if that
      slot is closed, and -1 if no slot carries it or the first one is already open. */
  function PinNumFor(t: seq<PinState>, name: string): (r: int)
    ensures -1 <= r < |t|
    ensures r >= 0 ==> t[r].name == name && t[r].pin == None
    ensures r >= 0 ==> forall j :: 0 <= j < r ==> t[j].name != name
    ensures r == -1 ==> forall j :: 0 <= j < |t| && t[j].name == name ==>
                          exists i :: 0 <= i <= j && t[i].name == name && t[i].pin.Some?
  {
    var ns := Names(t);
    var i := IndexOf(ns, name);
    if i >= 0 && t[i].pin == None then i else -1
  }

  /** The table after a `getPinNumBy(name, ...)` whose callback builds a pin of `kind`. */
  function Acquired(t: seq<PinState>, name: string, kind: PinKind): (u: seq<PinState>)
    ensures |u| == |t| && Names(u) == Names(t)
    ensures forall j :: 0 <= j < |t| && j != PinNumFor(t, name) ==> u[j] == t[j]
    ensures PinNumFor(t, name) >= 0 ==> u[PinNumFor(t, name)].pin == Some(Handle(kind, PinNumFor(t, name)))
    ensures HandlesMatch(t) ==> HandlesMatch(u)
  {
    var r := PinNumFor(t, name);
    if r < 0 then t else t[r := PinState(name, Some(Handle(kind, r)))]
  }

  /** The table after `closePinBy(idx)`: slot idx holds null, nothing else changes. */
  function Closed(t: seq<PinState>, idx: int): (u: seq<PinState>)
    requires 0 <= idx < |t|
  {
    t[idx := PinState(t[idx].name, None)]
  }

  /** The table after `closePinBy(p)` for every p in pins, in any order. */
  function ReleasedPins(t: seq<PinState>, pins: set<int>): (u: seq<PinState>)
  {
    seq(|t|, i requires 0 <= i < |t| => if i in pins then PinState(t[i].name, None) else t[i])
  }

  /** After a release every slot among `pins` is closed, every other slot is as it was,
      and the names, hence later allocations by name, are untouched. */
  lemma ReleaseFreesPins(t: seq<PinState>, pins: set<int>)
    ensures |ReleasedPins(t, pins)| == |t| && Names(ReleasedPins(t, pins)) == Names(t)
    ensures forall i :: 0 <= i < |t| && i in pins ==> ReleasedPins(t, pins)[i].pin == None
    ensures forall i :: 0 <= i < |t| && i !in pins ==> ReleasedPins(t, pins)[i] == t[i]
    ensures HandlesMatch(t) ==> HandlesMatch(ReleasedPins(t, pins))
  {
  }

  /** Releasing nothing leaves the table as it was. */
  lemma ReleaseNothing(t: seq<PinState>)
    ensures ReleasedPins(t, {}) == t
  {
    assert forall i :: 0 <= i < |t| ==> ReleasedPins(t, {})[i] == t[i];
  }

  /** One more `closePinBy` in a release: slot p is still as it was, and closing it
      extends the release by p. */
  lemma ReleaseStep(t: seq<PinState>, done: set<int>, p: int)
    requires 0 <= p < |t| && p !in done
    ensures ReleasedPins(t, done)[p] == t[p]
    ensures Closed(ReleasedPins(t, done), p) == ReleasedPins(t, done + {p})
  {
    var u := Closed(ReleasedPins(t, done), p);
    assert forall i :: 0 <= i < |t| ==> u[i] == ReleasedPins(t, done + {p})[i];
  }

  /** A second allocation of the same name straight after a successful one reports -1. */
  lemma AcquireTwiceFails(t: seq<PinState>, name: string, kind: PinKind, kind': PinKind)
    requires PinNumFor(t, name) >= 0
    ensures PinNumFor(Acquired(t, name, kind), name) == -1
    ensures Acquired(Acquired(t, name, kind), name, kind') == Acquired(t, name, kind)
  {
    var r := PinNumFor(t, name);
    var u := Acquired(t, name, kind);
    assert IndexOf(Names(u), name) == r;
  }

  /** Allocation and close are inverse: closing the slot just handed out restores the table. */
  lemma AcquireCloseRoundTrip(t: seq<PinState>, name: string, kind: PinKind)
    requires PinNumFor(t, name) >= 0
    ensures Acquired(t, name, kind)[PinNumFor(t, name)].pin.Some?
    ensures Closed(Acquired(t, name, kind), PinNumFor(t, name)) == t
  {
    var r := PinNumFor(t, name);
    var u := Closed(Acquired(t, name, kind), r);
    assert forall j :: 0 <= j < |t| ==> u[j] == t[j];
  }

  /** Closing a slot twice: the first close finds the pin open exactly when it was, the
      second finds the slot closed and changes nothing. */
  lemma CloseTwice(t: seq<PinState>, idx: int)
    requires 0 <= idx < |t|
    ensures Closed(t, idx)[idx].pin == None
    ensures Closed(Closed(t, idx), idx) == Closed(t, idx)
    ensures Names(Closed(t, idx)) == Names(t)
  {
    assert Names(Closed(t, idx)) == Names(t);
  }

  /** A freshly enumerated table is all closed, so each name's first slot can be allocated. */
  lemma FreshTableAllocates(t: seq<PinState>, j: int)
    requires forall i :: 0 <= i < |t| ==> t[i].pin == None
    requires 0 <= j < |t|
    ensures PinNumFor(t, t[j].name) >= 0
    ensures PinNumFor(t, t[j].name) <= j
  {
  }

  /** One I2C device of `i2cStateList`: its bus name, its address and its position in the bus list. */
  datatype I2cState = I2cState(name: string, address: int, listIdx: int)

  /** The I2C part of the registry: the open devices by index, and the next index to hand out. */
  datatype I2cRegistry = I2cRegistry(devices: map<int, I2cState>, next: int)

  /** Every open device's index was handed out before, i.e. lies below the counter. */
  ghost predicate I2cValid(r: I2cRegistry)
  {
    r.next >= 0 && forall k :: k in r.devices ==> 0 <= k < r.next
  }

  /** `getI2cIdxBy(name, address)`: the new registry and the index it returns. */
  function OpenI2c(r: I2cRegistry, busNames: seq<string>, name: string, address: int): (res: (I2cRegistry, int))
    ensures res.1 == r.next && res.0.next == r.next + 1
    ensures I2cValid(r) ==> res.1 !in r.devices && I2cValid(res.0)
    ensures res.0.devices == r.devices[res.1 := I2cState(name, address, IndexOf(busNames, name))]
  {
    (I2cRegistry(r.devices[r.next := I2cState(name, address, IndexOf(busNames, name))], r.next + 1), r.next)
  }

  /** `closeI2cBy(idx)`: the new registry and the reported success. */
  function CloseI2c(r: I2cRegistry, idx: int): (res: (I2cRegistry, bool))
    ensures res.1 <==> idx in r.devices
    ensures res.0.devices == r.devices - {idx} && res.0.next == r.next
    ensures idx !in res.0.devices
    ensures I2cValid(r) ==> I2cValid(res.0)
  {
    if idx in r.devices then (r.(devices := r.devices - {idx}), true) else (r, false)
  }

  /** One more `closeI2cBy` while releasing the indices `done`: idx is open exactly when it
      was at the start, and closing it extends the release by idx. */
  lemma CloseI2cStep(devices: map<int, I2cState>, done: set<int>, idx: int)
    requires idx !in done
    ensures idx in devices - done <==> idx in devices
    ensures (devices - done) - {idx} == devices - (done + {idx})
  {
  }

  /** Closing an index twice: the second close reports false and changes nothing. */
  lemma CloseI2cTwice(r: I2cRegistry, idx: int)
    ensures !CloseI2c(CloseI2c(r, idx).0, idx).1
    ensures CloseI2c(CloseI2c(r, idx).0, idx).0 == CloseI2c(r, idx).0
  {
  }

  /** Closing the index just opened restores the open devices, but the counter stays
      advanced, so the index is not handed out again. */
  lemma OpenCloseRoundTrip(r: I2cRegistry, busNames: seq<string>, name: string, address: int)
    requires I2cValid(r)
    ensures var (r1, idx) := OpenI2c(r, busNames, name, address);
            CloseI2c(r1, idx).1 && CloseI2c(r1, idx).0 == I2cRegistry(r.devices, r.next + 1)
  {
    var (r1, idx) := OpenI2c(r, busNames, name, address);
    assert r1.devices - {idx} == r.devices;
  }

  /** A client's request to the I2C part of the registry. */
  datatype I2cRequest = OpenReq(name: string, address: int) | CloseReq(idx: int)

  /** Serve the requests in order: the final registry and the indices the opens returned. */
  function RunI2c(r: I2cRegistry, busNames: seq<string>, reqs: seq<I2cRequest>): (I2cRegistry, seq<int>)
    decreases |reqs|
  {
    if reqs == [] then (r, [])
    else
      var (r1, ids1) := match reqs[0]
        case OpenReq(name, address) =>
          var (r', id) := OpenI2c(r, busNames, name, address); (r', [id])
        case CloseReq(idx) => (CloseI2c(r, idx).0, []);
      var (r2, ids2) := RunI2c(r1, busNames, reqs[1..]);
      (r2, ids1 + ids2)
  }

  /** Indices are handed out consecutively from the counter, however opens and closes
      interleave: they strictly increase, and none equals an index handed out before the
      run, open or already closed. */
  lemma {:induction false} RunI2cIndicesFresh(r: I2cRegistry, busNames: seq<string>, reqs: seq<I2cRequest>)
    requires I2cValid(r)
    ensures I2cValid(RunI2c(r, busNames, reqs).0)
    ensures RunI2c(r, busNames, reqs).0.next == r.next + |RunI2c(r, busNames, reqs).1|
    ensures forall i :: 0 <= i < |RunI2c(r, busNames, reqs).1| ==> RunI2c(r, busNames, reqs).1[i] == r.next + i
    ensures forall i, j :: 0 <= i < j < |RunI2c(r, busNames, reqs).1| ==>
              RunI2c(r, busNames, reqs).1[i] < RunI2c(r, busNames, reqs).1[j]
    decreases |reqs|
  {
    if reqs != [] {
      var r1 := match reqs[0]
        case OpenReq(name, address) => OpenI2c(r, busNames, name, address).0
        case CloseReq(idx) => CloseI2c(r, idx).0;
      RunI2cIndicesFresh(r1, busNames, reqs[1..]);
    }
  }
}
