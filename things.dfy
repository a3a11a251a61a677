/** The server side of the peripheral service: OdroidThingsManager's registry of
    pin slots and I2C devices, ThingsClientManager's table of connected clients,
    and each ThingsClient's leases with its death recipient. The three classes
    refer to one another, so they share this module. */
module Things {
  import opened Lang
  import opened Seqs
  import opened Registry

  /** The device types that ThingsClientManager's `register` and `unregister` switch on. */
  datatype Device = GPIO | PWM | I2C

  /** An IBinder, by identity: the connection a client registered with. */
  type BinderRef = nat

  /** What the registry does to the native layer, and the close operations it delegates. */
  datatype Effect =
    | PinOpened(h: Handle)                               // the allocation callback built the slot's Pin
    | PinClosed(h: Handle)                               // `pin.close()` on a slot's Pin
    | I2cOpened(idx: int, listIdx: int, address: int)    // `new OdroidI2c(...)` opened the device
    | I2cClosed(idx: int)                                // `close()` on an OdroidI2c
    | UartCloseRequested(idx: int)                       // a call of `closeUartBy`
    | SpiCloseRequested(idx: int)                        // a call of `closeSpiBy`

  ghost predicate PinsInRange(pins: set<int>, n: int)
  {
    forall p :: p in pins ==> 0 <= p < n
  }

  /** What `release` does to the native layer for each open slot among `pins` of table t. */
  ghost function PinCloses(t: seq<PinState>, pins: set<int>): set<Effect>
  {
    set p | p in pins && 0 <= p < |t| && t[p].pin.Some? :: PinClosed(t[p].pin.value)
  }

  /** ... for each index among `ids` that is still open in `devices`. */
  ghost function I2cCloses(devices: map<int, I2cState>, ids: set<int>): set<Effect>
  {
    set k | k in ids && k in devices :: I2cClosed(k)
  }

  ghost function UartCloses(ids: set<int>): set<Effect>
  {
    set k | k in ids :: UartCloseRequested(k)
  }

  ghost function SpiCloses(ids: set<int>): set<Effect>
  {
    set k | k in ids :: SpiCloseRequested(k)
  }

  /** The decimal strings of a set of pin indices, one per index. */
  ghost function PinNames(pins: set<int>): multiset<string>
  {
    if pins == {} then multiset{}
    else
      NonEmptyHasElement(pins);
      var p: int :| p in pins;
      PinNames(pins - {p}) + multiset{IntToString(p)}
  }

  /** The strings `getFilteredListOf` removes: one per occupied pin of every client. */
  ghost function OccupiedNames(cs: set<ThingsClient>): multiset<string>
    reads cs
  {
    if cs == {} then multiset{}
    else
      var c :| c in cs;
      OccupiedNames(cs - {c}) + PinNames(c.occupiedPin)
  }

  lemma {:induction false} PinNamesWithout(pins: set<int>, q: int)
    requires q in pins
    ensures PinNames(pins) == PinNames(pins - {q}) + multiset{IntToString(q)}
    decreases |pins|
  {
    NonEmptyHasElement(pins);
    var p: int :| p in pins && PinNames(pins) == PinNames(pins - {p}) + multiset{IntToString(p)};
    if p != q {
      PinNamesWithout(pins - {p}, q);
      PinNamesWithout(pins - {q}, p);
      assert pins - {p} - {q} == pins - {q} - {p};
    }
  }

  /** Each occupied index contributes its own string exactly once, so distinct indices
      remove distinct strings. */
  lemma {:induction false} PinNamesCount(pins: set<int>, q: int)
    ensures PinNames(pins)[IntToString(q)] == if q in pins then 1 else 0
    decreases |pins|
  {
    if pins != {} {
      NonEmptyHasElement(pins);
      var p: int :| p in pins && PinNames(pins) == PinNames(pins - {p}) + multiset{IntToString(p)};
      PinNamesCount(pins - {p}, q);
      IntToStringInjective(p, q);
    }
  }

  lemma {:induction false} OccupiedNamesWithout(cs: set<ThingsClient>, d: ThingsClient)
    requires d in cs
    ensures OccupiedNames(cs) == OccupiedNames(cs - {d}) + PinNames(d.occupiedPin)
    decreases |cs|
  {
    var c :| c in cs && OccupiedNames(cs) == OccupiedNames(cs - {c}) + PinNames(c.occupiedPin);
    if c != d {
      OccupiedNamesWithout(cs - {c}, d);
      OccupiedNamesWithout(cs - {d}, c);
      assert cs - {c} - {d} == cs - {d} - {c};
    }
  }

  /** Closing slot p of a release in progress adds p's close, if p was open, to the effects so far. */
  lemma PinClosesStep(t: seq<PinState>, done: set<int>, p: int)
    requires HandlesMatch(t) && p !in done && 0 <= p < |t|
    ensures multiset(PinCloses(t, done + {p})) ==
            multiset(PinCloses(t, done)) + (if t[p].pin.Some? then multiset{PinClosed(t[p].pin.value)} else multiset{})
  {
    if t[p].pin.Some? {
      assert PinClosed(t[p].pin.value) !in PinCloses(t, done);
      assert PinCloses(t, done + {p}) == PinCloses(t, done) + {PinClosed(t[p].pin.value)};
    } else {
      assert PinCloses(t, done + {p}) == PinCloses(t, done);
    }
  }

  lemma I2cClosesStep(devices: map<int, I2cState>, done: set<int>, k: int)
    requires k !in done
    ensures multiset(I2cCloses(devices, done + {k})) ==
            multiset(I2cCloses(devices, done)) + (if k in devices then multiset{I2cClosed(k)} else multiset{})
  {
    if k in devices {
      assert I2cCloses(devices, done + {k}) == I2cCloses(devices, done) + {I2cClosed(k)};
    } else {
      assert I2cCloses(devices, done + {k}) == I2cCloses(devices, done);
    }
  }

  lemma UartClosesStep(done: set<int>, k: int)
    requires k !in done
    ensures multiset(UartCloses(done + {k})) == multiset(UartCloses(done)) + multiset{UartCloseRequested(k)}
  {
    assert UartCloses(done + {k}) == UartCloses(done) + {UartCloseRequested(k)};
  }

  lemma SpiClosesStep(done: set<int>, k: int)
    requires k !in done
    ensures multiset(SpiCloses(done + {k})) == multiset(SpiCloses(done)) + multiset{SpiCloseRequested(k)}
  {
    assert SpiCloses(done + {k}) == SpiCloses(done) + {SpiCloseRequested(k)};
  }

  /** The inner loop of `getFilteredListOf`: remove one occurrence of the decimal string of
      each index in `pins` from `list`, which is `enumerated` filtered by `removed`. */
  method RemovePinNames(list0: seq<string>, pins0: set<int>, ghost enumerated: seq<string>, ghost removed: multiset<string>)
    returns (list: seq<string>)
    requires list0 == Filtered(enumerated, removed)
    ensures list == Filtered(enumerated, removed + PinNames(pins0))
  {
    list := list0;
    ghost var gone := removed;
    var pins := pins0;
    while pins != {}
      invariant list == Filtered(enumerated, gone)
      invariant gone + PinNames(pins) == removed + PinNames(pins0)
      decreases |pins|
    {
      NonEmptyHasElement(pins);
      var pin: int :| pin in pins;
      PinNamesWithout(pins, pin);
      var s := IntToString(pin);
      FilteredRemoveFirst(enumerated, gone, s);
      if s in list {
        list := RemoveFirst(list, s);
      }
      gone := gone + multiset{s};
      pins := pins - {pin};
    }
    assert PinNames(pins) == multiset{};
    assert gone == removed + PinNames(pins0);
  }

  /** The first loop of ThingsClient's `release`: `closePinBy` for every pin in pins0. */
  method ClosePins(m: ThingsManager, pins0: set<int>)
    requires m.TableValid() && PinsInRange(pins0, |m.pinStateList|)
    modifies m`pinStateList, m`trace
    ensures m.TableValid()
    ensures m.pinStateList == ReleasedPins(old(m.pinStateList), pins0)
    ensures old(m.trace) <= m.trace
    ensures multiset(m.trace) == multiset(old(m.trace)) + multiset(PinCloses(old(m.pinStateList), pins0))
  {
    ghost var t0 := m.pinStateList;
    ghost var done: set<int> := {};
    var pins := pins0;
    ReleaseNothing(t0);
    while pins != {}
      invariant pins + done == pins0 && pins !! done
      invariant m.TableValid() && m.pinStateList == ReleasedPins(t0, done)
      invariant old(m.trace) <= m.trace
      invariant multiset(m.trace) == multiset(old(m.trace)) + multiset(PinCloses(t0, done))
      decreases |pins|
    {
      NonEmptyHasElement(pins);
      var pin: int :| pin in pins;
      ReleaseStep(t0, done, pin);
      PinClosesStep(t0, done, pin);
      var _ := m.ClosePinBy(pin);
      pins := pins - {pin};
      done := done + {pin};
    }
    assert done == pins0 by {
      assert forall x :: x in done <==> x in pins0;
    }
  }

  /** The second loop: `closeI2cBy` for every index in ids0. */
  method CloseI2cs(m: ThingsManager, ids0: set<int>)
    requires m.TableValid()
    modifies m`i2cStateList, m`trace
    ensures m.TableValid()
    ensures m.i2cStateList == old(m.i2cStateList) - ids0
    ensures old(m.trace) <= m.trace
    ensures multiset(m.trace) == multiset(old(m.trace)) + multiset(I2cCloses(old(m.i2cStateList), ids0))
  {
    ghost var d0 := m.i2cStateList;
    ghost var done: set<int> := {};
    var ids := ids0;
    assert d0 - done == d0;
    while ids != {}
      invariant ids + done == ids0 && ids !! done
      invariant m.TableValid() && m.i2cStateList == d0 - done
      invariant old(m.trace) <= m.trace
      invariant multiset(m.trace) == multiset(old(m.trace)) + multiset(I2cCloses(d0, done))
      decreases |ids|
    {
      NonEmptyHasElement(ids);
      var idx: int :| idx in ids;
      I2cClosesStep(d0, done, idx);
      CloseI2cStep(d0, done, idx);
      var _ := m.CloseI2cBy(idx);
      ids := ids - {idx};
      done := done + {idx};
    }
    assert done == ids0 by {
      assert forall x :: x in done <==> x in ids0;
    }
  }

  /** The third loop: `closeUartBy` for every index in ids0. */
  method CloseUarts(m: ThingsManager, ids0: set<int>)
    modifies m`trace
    ensures old(m.trace) <= m.trace
    ensures multiset(m.trace) == multiset(old(m.trace)) + multiset(UartCloses(ids0))
  {
    ghost var done: set<int> := {};
    var ids := ids0;
    while ids != {}
      invariant ids + done == ids0 && ids !! done
      invariant old(m.trace) <= m.trace
      invariant multiset(m.trace) == multiset(old(m.trace)) + multiset(UartCloses(done))
      decreases |ids|
    {
      NonEmptyHasElement(ids);
      var idx: int :| idx in ids;
      UartClosesStep(done, idx);
      m.CloseUartBy(idx);
      ids := ids - {idx};
      done := done + {idx};
    }
    assert done == ids0 by {
      assert forall x :: x in done <==> x in ids0;
    }
  }

  /** The fourth loop: `closeSpiBy` for every index in ids0. */
  method CloseSpis(m: ThingsManager, ids0: set<int>)
    modifies m`trace
    ensures old(m.trace) <= m.trace
    ensures multiset(m.trace) == multiset(old(m.trace)) + multiset(SpiCloses(ids0))
  {
    ghost var done: set<int> := {};
    var ids := ids0;
    while ids != {}
      invariant ids + done == ids0 && ids !! done
      invariant old(m.trace) <= m.trace
      invariant multiset(m.trace) == multiset(old(m.trace)) + multiset(SpiCloses(done))
      decreases |ids|
    {
      NonEmptyHasElement(ids);
      var idx: int :| idx in ids;
      SpiClosesStep(done, idx);
      m.CloseSpiBy(idx);
      ids := ids - {idx};
      done := done + {idx};
    }
    assert done == ids0 by {
      assert forall x :: x in done <==> x in ids0;
    }
  }

  /** OdroidThingsManager: the table of pin slots, the map of open I2C devices and the
      client manager. The Java fields are static; one manager exists per process. */
  class ThingsManager {
    var pinStateList: seq<PinState>
    var i2cStateList: map<int, I2cState>
    var i2cList: seq<string>
    var i2cIdx: int
    var clientManager: ThingsClientManager?
    /** Every index `getI2cIdxBy` has returned. */
    ghost var i2cIssued: set<int>
    /** The native effects, in order. */
    ghost var trace: seq<Effect>

    ghost predicate TableValid()
      reads this
    {
      && HandlesMatch(pinStateList)
      && I2cValid(I2cRegistry(i2cStateList, i2cIdx))
      && i2cStateList.Keys <= i2cIssued
      && (forall k :: k in i2cIssued ==> 0 <= k < i2cIdx)
    }

    ghost function ClientObjects(): set<object>
      reads this, clientManager
    {
      if clientManager == null then {} else clientManager.clientList.Values
    }

    ghost predicate Valid()
      reads this, clientManager, ClientObjects()
    {
      && TableValid()
      && clientManager != null
      && clientManager.manager == this
      && clientManager.Valid()
    }

    /** `new OdroidThingsManager()`: `pinNames` and `i2cNames` are what the native
        enumeration (`_getPinName`, `_getListOf(PinMode.I2C)`) returns. */
    constructor (pinNames: seq<string>, i2cNames: seq<string>)
      ensures Valid() && fresh(clientManager)
      ensures |pinStateList| == |pinNames|
      ensures forall i :: 0 <= i < |pinNames| ==> pinStateList[i] == PinState(pinNames[i], None)
      ensures i2cStateList == map[] && i2cList == i2cNames && i2cIdx == 0
      ensures clientManager.clientList == map[]
      ensures trace == []
    {
      i2cIdx := 0;
      i2cIssued := {};
      trace := [];
      pinStateList := [];
      i2cStateList := map[];
      i2cList := [];
      new;
      InitPinStateList(pinNames, i2cNames);
      clientManager := new ThingsClientManager(this);
    }

    /** `initPinStateList`: one closed slot per enumerated name, in order, and an empty I2C map. */
    method InitPinStateList(pinNames: seq<string>, i2cNames: seq<string>)
      modifies this`pinStateList, this`i2cStateList, this`i2cList
      ensures |pinStateList| == |pinNames|
      ensures forall i :: 0 <= i < |pinNames| ==> pinStateList[i] == PinState(pinNames[i], None)
      ensures i2cStateList == map[] && i2cList == i2cNames
    {
      pinStateList := [];
      i2cStateList := map[];
      i2cList := i2cNames;
      var size := |pinNames|;
      for i := 0 to size
        invariant i2cStateList == map[] && i2cList == i2cNames
        invariant |pinStateList| == i
        invariant forall j :: 0 <= j < i ==> pinStateList[j] == PinState(pinNames[j], None)
      {
        pinStateList := pinStateList + [PinState(pinNames[i], None)];
      }
    }

    /** `getPinNumBy(name, callback)`, the callback building a pin of `kind`: open the first
        slot carrying `name` if it is closed, and return its index; -1 otherwise. */
    method GetPinNumBy(name: string, kind: PinKind) returns (r: int)
      requires TableValid()
      modifies this`pinStateList, this`trace
      ensures TableValid()
      ensures r == PinNumFor(old(pinStateList), name)
      ensures pinStateList == Acquired(old(pinStateList), name, kind)
      ensures trace == if r >= 0 then old(trace) + [PinOpened(Handle(kind, r))] else old(trace)
    {
      ghost var t := pinStateList;
      var i := 0;
      while i < |pinStateList|
        invariant 0 <= i <= |pinStateList|
        invariant pinStateList == t && trace == old(trace)
        invariant forall j :: 0 <= j < i ==> t[j].name != name
      {
        if pinStateList[i].name == name {
          assert IndexOf(Names(t), name) == i by {
            assert Names(t)[i] == name;
            assert name !in Names(t)[..i];
          }
          if pinStateList[i].pin == None {
            var h := Handle(kind, i);
            pinStateList := pinStateList[i := PinState(pinStateList[i].name, Some(h))];
            trace := trace + [PinOpened(h)];
            return i;
          }
          break;
        }
        i := i + 1;
      }
      assert i == |t| ==> name !in Names(t);
      return -1;
    }

    /** `closePinBy(idx)`: false if the slot is already closed; otherwise close its pin,
        clear the slot and return true. Either way the slot ends closed. */
    method ClosePinBy(idx: int) returns (ok: bool)
      requires TableValid() && 0 <= idx < |pinStateList|
      modifies this`pinStateList, this`trace
      ensures TableValid()
      ensures ok == old(pinStateList[idx].pin.Some?)
      ensures pinStateList == Closed(old(pinStateList), idx)
      ensures trace == if ok then old(trace) + [PinClosed(old(pinStateList[idx].pin.value))] else old(trace)
    {
      var pin := pinStateList[idx];
      if pin.pin == None {
        assert pinStateList == Closed(pinStateList, idx);
        return false;
      }
      trace := trace + [PinClosed(pin.pin.value)];
      pinStateList := pinStateList[idx := PinState(pin.name, None)];
      return true;
    }

    /** `getFilteredListOf(mode)`, `enumerated` being what `_getListOf(mode)` returns:
        for every client and every index in its `occupiedPin`, one occurrence of the
        index's decimal string is removed (the slot's name is not). */
    method GetFilteredListOf(enumerated: seq<string>) returns (list: seq<string>)
      requires clientManager != null && clientManager.Valid()
      ensures list == Filtered(enumerated, OccupiedNames(clientManager.Clients()))
      ensures Kept(list, OccupiedNames(clientManager.Clients())) == Kept(enumerated, OccupiedNames(clientManager.Clients()))
    {
      list := enumerated;
      FilteredNothing(enumerated);
      ghost var total := OccupiedNames(clientManager.Clients());
      ghost var removed: multiset<string> := multiset{};
      var rest := clientManager.Clients();
      while rest != {}
        invariant list == Filtered(enumerated, removed)
        invariant removed + OccupiedNames(rest) == total
        decreases |rest|
      {
        var client :| client in rest;
        OccupiedNamesWithout(rest, client);
        list := RemovePinNames(list, client.occupiedPin, enumerated, removed);
        removed := removed + PinNames(client.occupiedPin);
        rest := rest - {client};
      }
      assert removed == total;
      FilteredKeepsOthers(enumerated, total, total);
    }

    /** `getI2cList`: the I2C bus names enumerated at start-up, not filtered by leases. */
    method GetI2cList() returns (l: seq<string>)
      ensures l == i2cList
    {
      l := i2cList;
    }

    /** `getI2cIdxBy(name, address)`: open a new device under the current counter value and
        advance the counter; the index was never handed out before. */
    method GetI2cIdxBy(name: string, address: int) returns (idx: int)
      requires TableValid()
      modifies this`i2cStateList, this`i2cIdx, this`i2cIssued, this`trace
      ensures TableValid()
      ensures (I2cRegistry(i2cStateList, i2cIdx), idx) ==
              OpenI2c(I2cRegistry(old(i2cStateList), old(i2cIdx)), i2cList, name, address)
      ensures idx !in old(i2cIssued) && i2cIssued == old(i2cIssued) + {idx}
      ensures trace == old(trace) + [I2cOpened(idx, IndexOf(i2cList, name), address)]
    {
      var listIdx := IndexOf(i2cList, name);
      idx := i2cIdx;
      i2cIdx := i2cIdx + 1;
      trace := trace + [I2cOpened(idx, listIdx, address)];
      i2cStateList := i2cStateList[idx := I2cState(name, address, listIdx)];
      i2cIssued := i2cIssued + {idx};
    }

    /** `closeI2cBy(idx)`: false if no device is open under idx; otherwise close it and
        delete the entry, so that a repeated close reports false. */
    method CloseI2cBy(idx: int) returns (ok: bool)
      requires TableValid()
      modifies this`i2cStateList, this`trace
      ensures TableValid()
      ensures (I2cRegistry(i2cStateList, i2cIdx), ok) == CloseI2c(I2cRegistry(old(i2cStateList), i2cIdx), idx)
      ensures trace == if ok then old(trace) + [I2cClosed(idx)] else old(trace)
    {
      if idx !in i2cStateList {
        return false;
      }
      trace := trace + [I2cClosed(idx)];
      i2cStateList := i2cStateList - {idx};
      return true;
    }

    /** `closeUartBy(idx)`, which ThingsClient calls; its body is not part of this model,
        so only the call is recorded. */
    method CloseUartBy(idx: int)
      modifies this`trace
      ensures trace == old(trace) + [UartCloseRequested(idx)]
    {
      trace := trace + [UartCloseRequested(idx)];
    }

    /** `closeSpiBy(idx)`, likewise. */
    method CloseSpiBy(idx: int)
      modifies this`trace
      ensures trace == old(trace) + [SpiCloseRequested(idx)]
    {
      trace := trace + [SpiCloseRequested(idx)];
    }

    /** `register(pin, clientId)`: forwards a GPIO lease (also used for PWM pins). */
    method Register(pin: int, clientId: int) returns (r: Outcome)
      requires Valid()
      modifies clientManager.ClientSet(clientId)`occupiedPin, clientManager.ClientSet(clientId)`usedI2c
      ensures Valid()
      ensures r == if clientId in clientManager.clientList then Pass else Fail(NullPointer)
      ensures clientId in clientManager.clientList ==>
                clientManager.clientList[clientId].occupiedPin == old(clientManager.clientList[clientId].occupiedPin) + {pin}
      ensures clientId in clientManager.clientList ==>
                clientManager.clientList[clientId].usedI2c == old(clientManager.clientList[clientId].usedI2c)
    {
      r := clientManager.Register(pin, GPIO, clientId);
    }

    /** `unregister(pin, clientId)`: forwards the end of a GPIO lease. */
    method Unregister(pin: int, clientId: int) returns (r: Outcome)
      requires Valid()
      modifies clientManager.ClientSet(clientId)`occupiedPin, clientManager.ClientSet(clientId)`usedI2c
      ensures Valid()
      ensures r == if clientId in clientManager.clientList then Pass else Fail(NullPointer)
      ensures clientId in clientManager.clientList ==>
                clientManager.clientList[clientId].occupiedPin == old(clientManager.clientList[clientId].occupiedPin) - {pin}
      ensures clientId in clientManager.clientList ==>
                clientManager.clientList[clientId].usedI2c == old(clientManager.clientList[clientId].usedI2c)
    {
      r := clientManager.Unregister(pin, GPIO, clientId);
    }

    /** `registerI2c(idx, clientId)`. */
    method RegisterI2c(idx: int, clientId: int) returns (r: Outcome)
      requires Valid()
      modifies clientManager.ClientSet(clientId)`occupiedPin, clientManager.ClientSet(clientId)`usedI2c
      ensures Valid()
      ensures r == if clientId in clientManager.clientList then Pass else Fail(NullPointer)
      ensures clientId in clientManager.clientList ==>
                clientManager.clientList[clientId].usedI2c == old(clientManager.clientList[clientId].usedI2c) + {idx}
      ensures clientId in clientManager.clientList ==>
                clientManager.clientList[clientId].occupiedPin == old(clientManager.clientList[clientId].occupiedPin)
    {
      r := clientManager.Register(idx, I2C, clientId);
    }

    /** `unregisterI2c(idx, clientId)`. */
    method UnregisterI2c(idx: int, clientId: int) returns (r: Outcome)
      requires Valid()
      modifies clientManager.ClientSet(clientId)`occupiedPin, clientManager.ClientSet(clientId)`usedI2c
      ensures Valid()
      ensures r == if clientId in clientManager.clientList then Pass else Fail(NullPointer)
      ensures clientId in clientManager.clientList ==>
                clientManager.clientList[clientId].usedI2c == old(clientManager.clientList[clientId].usedI2c) - {idx}
      ensures clientId in clientManager.clientList ==>
                clientManager.clientList[clientId].occupiedPin == old(clientManager.clientList[clientId].occupiedPin)
    {
      r := clientManager.Unregister(idx, I2C, clientId);
    }
  }

  /** ThingsClientManager: the connected clients by process id. */
  class ThingsClientManager {
    var clientList: map<int, ThingsClient>
    const manager: ThingsManager

    constructor (manager: ThingsManager)
      ensures this.manager == manager && clientList == map[]
    {
      this.manager := manager;
      clientList := map[];
    }

    /** Each stored client is live, knows its id and its managers, and no client is stored twice. */
    ghost predicate Valid()
      reads this, clientList.Values
    {
      && (forall k :: k in clientList ==>
            && clientList[k].clientId == k
            && clientList[k].clientManager == this
            && clientList[k].manager == manager
            && !clientList[k].released)
      && (forall j, k :: j in clientList && k in clientList && j != k ==> clientList[j] != clientList[k])
    }

    /** The client stored under id, as a frame. */
    function ClientSet(id: int): set<ThingsClient>
      reads this
    {
      if id in clientList then {clientList[id]} else {}
    }

    /** `clients()`: the clients currently stored, each once. */
    function Clients(): (cs: set<ThingsClient>)
      reads this
      ensures forall k :: k in clientList ==> clientList[k] in cs
      ensures forall c :: c in cs ==> exists k :: k in clientList && clientList[k] == c
    {
      set k | k in clientList :: clientList[k]
    }

    /** `create(binder)` called from process `pid`: a fresh client with no leases is
        stored under pid, replacing any client stored there, and pid is returned.
        `linked` is whether `linkToDeath` succeeded. */
    method Create(pid: int, binder: BinderRef, linked: bool) returns (id: int)
      requires Valid()
      modifies this
      ensures Valid()
      ensures id == pid
      ensures clientList.Keys == old(clientList.Keys) + {pid}
      ensures forall k :: k in old(clientList) && k != pid ==> clientList[k] == old(clientList[k])
      ensures fresh(clientList[pid])
      ensures clientList[pid].occupiedPin == {} && clientList[pid].usedI2c == {}
      ensures clientList[pid].occupiedUart == {} && clientList[pid].occupiedSpi == {}
      ensures clientList[pid].listener == binder && clientList[pid].deathLinked == linked
    {
      var client := new ThingsClient(pid, binder, this, linked);
      client.SetThingsManager(manager);
      clientList := clientList[pid := client];
      id := pid;
    }

    /** `releaseClient(id)`: release every lease of the client stored under id and drop it;
        the other clients are untouched. With no client under id, `client.release()`
        dereferences null and nothing changes. */
    method ReleaseClient(id: int) returns (r: Outcome)
      requires Valid() && manager.TableValid()
      requires id in clientList ==> PinsInRange(clientList[id].occupiedPin, |manager.pinStateList|)
      modifies this`clientList, manager`pinStateList, manager`i2cStateList, manager`trace
      modifies ClientSet(id)`occupiedPin, ClientSet(id)`usedI2c, ClientSet(id)`occupiedUart
      modifies ClientSet(id)`occupiedSpi, ClientSet(id)`released, ClientSet(id)`manager
      ensures Valid() && manager.TableValid()
      ensures r == if id in old(clientList) then Pass else Fail(NullPointer)
      ensures clientList == old(clientList) - {id}
      ensures id !in old(clientList) ==>
                manager.pinStateList == old(manager.pinStateList) && manager.i2cStateList == old(manager.i2cStateList)
                && manager.trace == old(manager.trace)
      ensures id in old(clientList) ==> old(clientList[id]).released
      ensures id in old(clientList) ==>
                && manager.pinStateList == ReleasedPins(old(manager.pinStateList), old(clientList[id].occupiedPin))
                && manager.i2cStateList == old(manager.i2cStateList) - old(clientList[id].usedI2c)
                && old(manager.trace) <= manager.trace
                && multiset(manager.trace) == multiset(old(manager.trace))
                     + multiset(PinCloses(old(manager.pinStateList), old(clientList[id].occupiedPin)))
                     + multiset(I2cCloses(old(manager.i2cStateList), old(clientList[id].usedI2c)))
                     + multiset(UartCloses(old(clientList[id].occupiedUart)))
                     + multiset(SpiCloses(old(clientList[id].occupiedSpi)))
    {
      if id !in clientList {
        return Fail(NullPointer);
      }
      var client := clientList[id];
      client.Release();
      clientList := clientList - {id};
      r := Pass;
    }

    /** `register(pin, dev, id)`: GPIO adds pin to the client's `occupiedPin`, I2C to its
        `usedI2c`; PWM has no case and changes nothing, even with no client under id. */
    method Register(pin: int, dev: Device, id: int) returns (r: Outcome)
      requires Valid()
      modifies ClientSet(id)`occupiedPin, ClientSet(id)`usedI2c
      ensures Valid()
      ensures r == if dev == PWM || id in clientList then Pass else Fail(NullPointer)
      ensures id in clientList ==>
                var c := clientList[id];
                && c.occupiedPin == (if dev == GPIO then old(c.occupiedPin) + {pin} else old(c.occupiedPin))
                && c.usedI2c == (if dev == I2C then old(c.usedI2c) + {pin} else old(c.usedI2c))
    {
      var client := if id in clientList then Some(clientList[id]) else None;
      match dev {
        case GPIO =>
          if client == None { return Fail(NullPointer); }
          client.value.Add(pin);
        case I2C =>
          if client == None { return Fail(NullPointer); }
          client.value.AddI2c(pin);
        case PWM =>
      }
      r := Pass;
    }

    /** `unregister(pin, dev, id)`: the mirror of `register`. */
    method Unregister(pin: int, dev: Device, id: int) returns (r: Outcome)
      requires Valid()
      modifies ClientSet(id)`occupiedPin, ClientSet(id)`usedI2c
      ensures Valid()
      ensures r == if dev == PWM || id in clientList then Pass else Fail(NullPointer)
      ensures id in clientList ==>
                var c := clientList[id];
                && c.occupiedPin == (if dev == GPIO then old(c.occupiedPin) - {pin} else old(c.occupiedPin))
                && c.usedI2c == (if dev == I2C then old(c.usedI2c) - {pin} else old(c.usedI2c))
    {
      var client := if id in clientList then Some(clientList[id]) else None;
      match dev {
        case GPIO =>
          if client == None { return Fail(NullPointer); }
          client.value.Remove(pin);
        case I2C =>
          if client == None { return Fail(NullPointer); }
          client.value.RemoveI2c(pin);
        case PWM =>
      }
      r := Pass;
    }
  }

  /** ThingsClient: one connected process's leases, one set per device type, together
      with the final fields of its death recipient (ClientBinder). */
  class ThingsClient {
    var occupiedPin: set<int>
    var usedI2c: set<int>
    var occupiedUart: set<int>
    var occupiedSpi: set<int>
    /** The four sets, `binder` and `manager` have been set to null by `release`. */
    var released: bool
    var manager: ThingsManager?
    const listener: BinderRef
    const clientId: int
    const clientManager: ThingsClientManager
    /** The death recipient is linked to `listener`. */
    ghost var deathLinked: bool

    /** `new ThingsClient(clientId, listener, manager)`; `linked` is whether `linkToDeath`
        succeeded (its exception is swallowed). */
    constructor (clientId: int, listener: BinderRef, clientManager: ThingsClientManager, linked: bool)
      ensures occupiedPin == {} && usedI2c == {} && occupiedUart == {} && occupiedSpi == {}
      ensures !released && manager == null
      ensures this.clientId == clientId && this.listener == listener && this.clientManager == clientManager
      ensures deathLinked == linked
    {
      occupiedPin, usedI2c, occupiedUart, occupiedSpi := {}, {}, {}, {};
      released := false;
      manager := null;
      this.listener := listener;
      this.clientId := clientId;
      this.clientManager := clientManager;
      deathLinked := linked;
    }

    method SetThingsManager(manager: ThingsManager)
      modifies this`manager
      ensures this.manager == manager
    {
      this.manager := manager;
    }

    method Add(pin: int)
      requires !released
      modifies this`occupiedPin
      ensures occupiedPin == old(occupiedPin) + {pin}
    {
      occupiedPin := occupiedPin + {pin};
    }

    method Remove(pin: int)
      requires !released
      modifies this`occupiedPin
      ensures occupiedPin == old(occupiedPin) - {pin}
    {
      occupiedPin := occupiedPin - {pin};
    }

    method AddI2c(idx: int)
      requires !released
      modifies this`usedI2c
      ensures usedI2c == old(usedI2c) + {idx}
    {
      usedI2c := usedI2c + {idx};
    }

    method RemoveI2c(idx: int)
      requires !released
      modifies this`usedI2c
      ensures usedI2c == old(usedI2c) - {idx}
    {
      usedI2c := usedI2c - {idx};
    }

    method AddUart(idx: int)
      requires !released
      modifies this`occupiedUart
      ensures occupiedUart == old(occupiedUart) + {idx}
    {
      occupiedUart := occupiedUart + {idx};
    }

    method RemoveUart(idx: int)
      requires !released
      modifies this`occupiedUart
      ensures occupiedUart == old(occupiedUart) - {idx}
    {
      occupiedUart := occupiedUart - {idx};
    }

    method AddSpi(idx: int)
      requires !released
      modifies this`occupiedSpi
      ensures occupiedSpi == old(occupiedSpi) + {idx}
    {
      occupiedSpi := occupiedSpi + {idx};
    }

    method RemoveSpi(idx: int)
      requires !released
      modifies this`occupiedSpi
      ensures occupiedSpi == old(occupiedSpi) - {idx}
    {
      occupiedSpi := occupiedSpi - {idx};
    }

    /** `release()`: one close through the manager for every index of every set, each set
        cleared after its loop; then the sets, `binder` and `manager` are nulled, so a client
        is released at most once. The closes are appended to the manager's trace; which
        ones is stated as a multiset, since each set is iterated in unspecified order. */
    method Release()
      requires !released && manager != null && manager.TableValid()
      requires PinsInRange(occupiedPin, |manager.pinStateList|)
      modifies this`occupiedPin, this`usedI2c, this`occupiedUart, this`occupiedSpi, this`released, this`manager
      modifies manager`pinStateList, manager`i2cStateList, manager`trace
      ensures released && manager == null
      ensures occupiedPin == {} && usedI2c == {} && occupiedUart == {} && occupiedSpi == {}
      ensures old(manager).TableValid()
      ensures old(manager).pinStateList == ReleasedPins(old(manager.pinStateList), old(occupiedPin))
      ensures old(manager).i2cStateList == old(manager.i2cStateList) - old(usedI2c)
      ensures old(manager.trace) <= old(manager).trace
      ensures multiset(old(manager).trace) == multiset(old(manager.trace))
                + multiset(PinCloses(old(manager.pinStateList), old(occupiedPin)))
                + multiset(I2cCloses(old(manager.i2cStateList), old(usedI2c)))
                + multiset(UartCloses(old(occupiedUart)))
                + multiset(SpiCloses(old(occupiedSpi)))
    {
      var m := manager;
      ClosePins(m, occupiedPin);
      occupiedPin := {};
      CloseI2cs(m, usedI2c);
      usedI2c := {};
      CloseUarts(m, occupiedUart);
      occupiedUart := {};
      CloseSpis(m, occupiedSpi);
      occupiedSpi := {};
      released := true;
      manager := null;
    }

    /** `ClientBinder.binderDied()`: unlink the death recipient, then release whatever client is
        stored under this client's id. That need not be this client: a later `create` from the
        same process replaces it, and an earlier `releaseClient` leaves the id absent, in which
        case the release dereferences null. */
    method BinderDied() returns (r: Outcome)
      requires clientManager.Valid() && clientManager.manager.TableValid()
      requires clientId in clientManager.clientList ==>
                 PinsInRange(clientManager.clientList[clientId].occupiedPin, |clientManager.manager.pinStateList|)
      modifies this`deathLinked, clientManager`clientList
      modifies clientManager.manager`pinStateList, clientManager.manager`i2cStateList, clientManager.manager`trace
      modifies clientManager.ClientSet(clientId)`occupiedPin, clientManager.ClientSet(clientId)`usedI2c
      modifies clientManager.ClientSet(clientId)`occupiedUart, clientManager.ClientSet(clientId)`occupiedSpi
      modifies clientManager.ClientSet(clientId)`released, clientManager.ClientSet(clientId)`manager
      ensures !deathLinked
      ensures clientManager.Valid()
      ensures r == if clientId in old(clientManager.clientList) then Pass else Fail(NullPointer)
      ensures clientManager.clientList == old(clientManager.clientList) - {clientId}
      ensures clientId in old(clientManager.clientList) ==> old(clientManager.clientList[clientId]).released
      ensures clientId in old(clientManager.clientList) ==>
                && clientManager.manager.pinStateList ==
                     ReleasedPins(old(clientManager.manager.pinStateList), old(clientManager.clientList[clientId].occupiedPin))
                && clientManager.manager.i2cStateList ==
                     old(clientManager.manager.i2cStateList) - old(clientManager.clientList[clientId].usedI2c)
                && old(clientManager.manager.trace) <= clientManager.manager.trace
                && multiset(clientManager.manager.trace) == multiset(old(clientManager.manager.trace))
                     + multiset(PinCloses(old(clientManager.manager.pinStateList), old(clientManager.clientList[clientId].occupiedPin)))
                     + multiset(I2cCloses(old(clientManager.manager.i2cStateList), old(clientManager.clientList[clientId].usedI2c)))
                     + multiset(UartCloses(old(clientManager.clientList[clientId].occupiedUart)))
                     + multiset(SpiCloses(old(clientManager.clientList[clientId].occupiedSpi)))
      ensures clientId !in old(clientManager.clientList) ==>
                && clientManager.manager.pinStateList == old(clientManager.manager.pinStateList)
                && clientManager.manager.i2cStateList == old(clientManager.manager.i2cStateList)
                && clientManager.manager.trace == old(clientManager.manager.trace)
    {
      deathLinked := false;
      r := clientManager.ReleaseClient(clientId);
    }
  }
}
