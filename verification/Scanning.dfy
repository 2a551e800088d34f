/** The database of advertising devices (whad/ble/scanning.py). The clock is passed in
    as `now`; payloads that do not parse are `None`. */
module Scanning {
  import opened ByteStrings

  type Address = string

  const SCAN_RSP_TIMEOUT: real := 0.5

  datatype Device = Device(
    rssi: int, connectable: bool, advData: Bytes, rspData: Option<Bytes>,
    gotScanRsp: bool, scanned: bool, reported: bool, timestamp: real, lastSeen: real)

  datatype Event =
    | Advertisement(address: Address, rssi: int, connectable: bool, data: Option<Bytes>)
    | ScanResponse(address: Address, data: Option<Bytes>)
    | OtherPacket

  /** The dictionary: its keys in insertion order, and its values. */
  datatype Db = Db(order: seq<Address>, devices: map<Address, Device>)

  const EMPTY: Db := Db([], map[])

  function NewDevice(e: Event, now: real): Device
    requires e.Advertisement? && e.data.Some?
  {
    Device(e.rssi, e.connectable, e.data.value, None, false, false, false, now, now)
  }

  /** `register_device`. */
  function Register(db: Db, a: Address, d: Device, now: real): Db {
    if a in db.devices then db.(devices := db.devices[a := db.devices[a].(lastSeen := now)])
    else Db(db.order + [a], db.devices[a := d])
  }

  /** `set_scan_rsp`: only the first scan response is kept. */
  function WithScanRsp(d: Device, data: Bytes): Device {
    if d.gotScanRsp then d else d.(rspData := Some(data), gotScanRsp := true, scanned := true)
  }

  /** What the packet itself does to the database. */
  function Admit(db: Db, e: Event, filter: Option<Address>, now: real): Db {
    match e
    case Advertisement(a, _, _, data) =>
      if data.Some? && (filter.None? || filter.value == a) then Register(db, a, NewDevice(e, now), now) else db
    case ScanResponse(a, data) =>
      if data.Some? && a in db.devices then db.(devices := db.devices[a := WithScanRsp(db.devices[a], data.value)]) else db
    case OtherPacket => db
  }

  predicate TimedOut(d: Device, now: real) {
    now - d.timestamp > SCAN_RSP_TIMEOUT
  }

  /** The device is yielded by the sweep. */
  predicate Due(d: Device, now: real) {
    !d.reported && (d.scanned || TimedOut(d, now))
  }

  /** `update`, then `mark_reported`. */
  function Checked(d: Device, now: real): Device {
    if d.scanned || TimedOut(d, now) then d.(scanned := true, reported := true) else d
  }

  function DueList(order: seq<Address>, devices: map<Address, Device>, now: real): seq<Address>
    requires forall a :: a in order ==> a in devices
  {
    if order == [] then []
    else
      var n := |order| - 1;
      DueList(order[..n], devices, now) + if Due(devices[order[n]], now) then [order[n]] else []
  }

  function Sweep(devices: map<Address, Device>, now: real): map<Address, Device> {
    map a | a in devices :: Checked(devices[a], now)
  }

  predicate NoDuplicates(s: seq<Address>) {
    forall i, j :: 0 <= i < j < |s| ==> s[i] != s[j]
  }

  ghost predicate Valid(db: Db) {
    && NoDuplicates(db.order)
    && (forall a :: a in db.order <==> a in db.devices)
    && (forall a :: a in db.devices ==>
          && (db.devices[a].gotScanRsp ==> db.devices[a].scanned)
          && (db.devices[a].reported ==> db.devices[a].scanned))
  }

  lemma AdmitValid(db: Db, e: Event, filter: Option<Address>, now: real)
    requires Valid(db)
    ensures Valid(Admit(db, e, filter, now))
  {
  }

  predicate Reported(db: Db, a: Address) {
    a in db.devices && db.devices[a].reported
  }

  lemma AdmitOne(db: Db, e: Event, filter: Option<Address>, now: real, a: Address)
    requires Valid(db)
    ensures a in db.devices ==> a in Admit(db, e, filter, now).devices
    ensures Reported(Admit(db, e, filter, now), a) <==> Reported(db, a)
  {
  }

  /** `on_device_found`: the new database, and the addresses returned. */
  function Found(db: Db, e: Event, filter: Option<Address>, now: real): (Db, seq<Address>)
    requires Valid(db)
  {
    AdmitValid(db, e, filter, now);
    var db1 := Admit(db, e, filter, now);
    (Db(db1.order, Sweep(db1.devices, now)), DueList(db1.order, db1.devices, now))
  }

  lemma {:induction false} DueListIs(order: seq<Address>, devices: map<Address, Device>, now: real)
    requires NoDuplicates(order) && forall a :: a in order ==> a in devices
    ensures NoDuplicates(DueList(order, devices, now))
    ensures forall a :: a in DueList(order, devices, now) <==> a in order && Due(devices[a], now)
  {
    if order != [] {
      var n := |order| - 1;
      DueListIs(order[..n], devices, now);
      assert order == order[..n] + [order[n]];
    }
  }

  /** `a` comes before `b`. */
  ghost predicate Before(s: seq<Address>, a: Address, b: Address) {
    exists k, l :: 0 <= k < l < |s| && s[k] == a && s[l] == b
  }

  lemma BeforeAppend(s: seq<Address>, t: seq<Address>, a: Address, b: Address)
    ensures Before(s, a, b) ==> Before(s + t, a, b)
    ensures a in s && t == [b] ==> Before(s + t, a, b)
  {
    if k, l :| 0 <= k < l < |s| && s[k] == a && s[l] == b {
      assert (s + t)[k] == a && (s + t)[l] == b;
    }
    if a in s && t == [b] {
      var k :| 0 <= k < |s| && s[k] == a;
      assert (s + t)[k] == a && (s + t)[|s|] == b;
    }
  }

  /** Devices that are due together are returned in the order in which they were found. */
  lemma {:induction false} DueInOrder(order: seq<Address>, devices: map<Address, Device>, now: real, i: nat, j: nat)
    requires NoDuplicates(order) && forall a :: a in order ==> a in devices
    requires i < j < |order| && Due(devices[order[i]], now) && Due(devices[order[j]], now)
    ensures Before(DueList(order, devices, now), order[i], order[j])
  {
    var n := |order| - 1;
    var front := order[..n];
    var due, last := DueList(front, devices, now), if Due(devices[order[n]], now) then [order[n]] else [];
    assert DueList(order, devices, now) == due + last;
    BeforeAppend(due, last, order[i], order[j]);
    if j == n {
      DueListIs(front, devices, now);
      assert front[i] in due;
    } else {
      DueInOrder(front, devices, now, i, j);
      assert front[i] == order[i] && front[j] == order[j];
    }
  }

  /** Between calls, every scanned device has been reported. */
  ghost predicate Settled(db: Db) {
    Valid(db) && forall a :: a in db.devices && db.devices[a].scanned ==> db.devices[a].reported
  }

  lemma SweepSettles(db: Db, now: real)
    requires Valid(db)
    ensures Settled(Db(db.order, Sweep(db.devices, now)))
  {
  }

  lemma FoundSettles(db: Db, e: Event, filter: Option<Address>, now: real)
    requires Valid(db)
    ensures Settled(Found(db, e, filter, now).0) && NoDuplicates(Found(db, e, filter, now).1)
  {
    AdmitValid(db, e, filter, now);
    var db1 := Admit(db, e, filter, now);
    SweepSettles(db1, now);
    DueListIs(db1.order, db1.devices, now);
  }

  /** A device that the packet leaves scanned was reported before, or has a scan response. */
  lemma AdmitScanned(db: Db, e: Event, filter: Option<Address>, now: real, a: Address)
    requires Settled(db)
    ensures var db1 := Admit(db, e, filter, now);
            a in db1.devices ==>
              && (db1.devices[a].scanned <==> db1.devices[a].reported || db1.devices[a].gotScanRsp)
              && (db1.devices[a].reported <==> Reported(db, a))
  {
  }

  lemma SweepReports(db: Db, now: real, a: Address)
    requires Valid(db) && a in db.devices
    ensures var d, d' := db.devices[a], Sweep(db.devices, now)[a];
            && (a in DueList(db.order, db.devices, now) <==> d'.reported && !d.reported)
            && (d'.reported <==> d.scanned || TimedOut(d, now))
            && d'.gotScanRsp == d.gotScanRsp && TimedOut(d', now) == TimedOut(d, now)
  {
    DueListIs(db.order, db.devices, now);
  }

  /** One call, for any address: it is returned exactly when it becomes reported, and a
      known device is reported afterwards if and only if it was before, has a scan
      response, or is older than the timeout. */
  lemma CallReports(db: Db, e: Event, filter: Option<Address>, now: real, a: Address)
    requires Settled(db)
    ensures var (db', out) := Found(db, e, filter, now);
            && (a in db.devices ==> a in db'.devices)
            && (a in out <==> Reported(db', a) && !Reported(db, a))
            && (a in db'.devices ==>
                  (Reported(db', a) <==> Reported(db, a) || db'.devices[a].gotScanRsp || TimedOut(db'.devices[a], now)))
  {
    AdmitValid(db, e, filter, now);
    AdmitOne(db, e, filter, now, a);
    var db1 := Admit(db, e, filter, now);
    DueListIs(db1.order, db1.devices, now);
    if a in db1.devices {
      AdmitScanned(db, e, filter, now, a);
      SweepReports(db1, now, a);
    }
  }

  // ----- Runs -----

  datatype Call = Call(event: Event, filter: Option<Address>, now: real)

  /** The database and everything returned since it was emptied. */
  ghost function Run(calls: seq<Call>): (r: (Db, seq<Address>))
    ensures Settled(r.0)
  {
    if calls == [] then (EMPTY, [])
    else
      var (db, out) := Run(calls[..|calls| - 1]);
      var c := calls[|calls| - 1];
      FoundSettles(db, c.event, c.filter, c.now);
      var (db', more) := Found(db, c.event, c.filter, c.now);
      (db', out + more)
  }

  /** The addresses returned so far are distinct, and they are the reported ones. */
  ghost predicate ExactlyOnce(db: Db, out: seq<Address>) {
    NoDuplicates(out) && forall a :: a in out <==> Reported(db, a)
  }

  lemma CallKeepsExactlyOnce(db: Db, out: seq<Address>, c: Call)
    requires Settled(db) && ExactlyOnce(db, out)
    ensures var (db', more) := Found(db, c.event, c.filter, c.now);
            ExactlyOnce(db', out + more)
  {
    var (db', more) := Found(db, c.event, c.filter, c.now);
    forall a ensures a in out + more <==> Reported(db', a) {
      CallReports(db, c.event, c.filter, c.now, a);
    }
    forall a | a in out ensures a !in more {
      CallReports(db, c.event, c.filter, c.now, a);
    }
    FoundSettles(db, c.event, c.filter, c.now);
    NoDuplicatesAppend(out, more);
  }

  lemma NoDuplicatesAppend(s: seq<Address>, t: seq<Address>)
    requires NoDuplicates(s) && NoDuplicates(t) && forall a :: a in s ==> a !in t
    ensures NoDuplicates(s + t)
  {
    forall i, j | 0 <= i < j < |s + t| ensures (s + t)[i] != (s + t)[j] {
      if i < |s| <= j {
        assert (s + t)[i] in s && (s + t)[j] in t;
      }
    }
  }

  /** Over any run no address is returned twice; those returned are exactly the reported
      ones, and they have been scanned. */
  lemma {:induction false} ReportedExactlyOnce(calls: seq<Call>)
    ensures ExactlyOnce(Run(calls).0, Run(calls).1)
    ensures forall a :: a in Run(calls).1 ==> Run(calls).0.devices[a].scanned
  {
    if calls != [] {
      var front := calls[..|calls| - 1];
      ReportedExactlyOnce(front);
      CallKeepsExactlyOnce(Run(front).0, Run(front).1, calls[|calls| - 1]);
    }
  }

  /** After every call of a run, each known device that has a scan response or is older
      than the timeout has been returned. */
  lemma NothingDueIsMissed(calls: seq<Call>, a: Address)
    requires calls != [] && a in Run(calls).0.devices
    requires var d := Run(calls).0.devices[a]; d.gotScanRsp || TimedOut(d, calls[|calls| - 1].now)
    ensures a in Run(calls).1
  {
    var c := calls[|calls| - 1];
    CallReports(Run(calls[..|calls| - 1]).0, c.event, c.filter, c.now, a);
    ReportedExactlyOnce(calls);
  }

  /** The device has this scan response. */
  ghost predicate HasScanRsp(db: Db, a: Address, rsp: Option<Bytes>) {
    a in db.devices && db.devices[a].gotScanRsp && db.devices[a].rspData == rsp
  }

  lemma ScanRspKept(db: Db, e: Event, filter: Option<Address>, now: real, a: Address, rsp: Option<Bytes>)
    requires Valid(db) && HasScanRsp(db, a, rsp)
    ensures HasScanRsp(Found(db, e, filter, now).0, a, rsp)
  {
    assert HasScanRsp(Admit(db, e, filter, now), a, rsp);
  }

  lemma RunSnoc(calls: seq<Call>, c: Call)
    ensures Run(calls + [c]).0 == Found(Run(calls).0, c.event, c.filter, c.now).0
  {
    assert (calls + [c])[..|calls|] == calls;
  }

  /** The first scan response of a device is never overwritten. */
  lemma {:induction false} FirstScanRspKept(before: seq<Call>, after: seq<Call>, a: Address, rsp: Option<Bytes>)
    requires HasScanRsp(Run(before).0, a, rsp)
    ensures HasScanRsp(Run(before + after).0, a, rsp)
    decreases |after|
  {
    if after == [] {
      assert before + after == before;
    } else {
      var n := |after| - 1;
      assert before + after == (before + after[..n]) + [after[n]];
      RunSnoc(before + after[..n], after[n]);
      FirstScanRspKept(before, after[..n], a, rsp);
      ScanRspKept(Run(before + after[..n]).0, after[n].event, after[n].filter, after[n].now, a, rsp);
    }
  }

  // ----- Which devices are known, and what is known of them -----

  /** The packet is an advertisement of `a` that parses and passes the filter. */
  predicate Advertises(c: Call, a: Address) {
    && c.event.Advertisement? && c.event.address == a && c.event.data.Some?
    && (c.filter.None? || c.filter.value == a)
  }

  /** The packet is a scan response of `a` that parses. */
  predicate Responds(c: Call, a: Address) {
    c.event.ScanResponse? && c.event.address == a && c.event.data.Some?
  }

  /** After one call, a device is known exactly if it was before or has just been advertised. */
  lemma CallKnows(db: Db, c: Call, a: Address)
    requires Valid(db)
    ensures var db' := Found(db, c.event, c.filter, c.now).0;
            a in db'.devices <==> a in db.devices || Advertises(c, a)
  {
  }

  /** Devices keep their place, and a new one comes last. */
  lemma CallOrder(db: Db, c: Call)
    requires Valid(db)
    ensures var isNew := c.event.Advertisement? && Advertises(c, c.event.address) && c.event.address !in db.devices;
            Found(db, c.event, c.filter, c.now).0.order == db.order + if isNew then [c.event.address] else []
  {
  }

  /** A new device carries what was advertised, is not reported yet, and is as old as the
      call. */
  lemma CallRegisters(db: Db, c: Call, a: Address)
    requires Valid(db) && a !in db.devices && Advertises(c, a)
    ensures var d := Found(db, c.event, c.filter, c.now).0.devices[a];
            && d.rssi == c.event.rssi && d.connectable == c.event.connectable && Some(d.advData) == c.event.data
            && d.rspData == None && !d.gotScanRsp && !d.scanned && !d.reported
            && d.timestamp == c.now && d.lastSeen == c.now
  {
  }

  /** A known one keeps all of that, whatever is advertised later; being advertised again is
      noted, and the first scan response that parses is taken. */
  lemma CallKeeps(db: Db, c: Call, a: Address)
    requires Valid(db) && a in db.devices
    ensures a in Found(db, c.event, c.filter, c.now).0.devices
    ensures var d, d' := db.devices[a], Found(db, c.event, c.filter, c.now).0.devices[a];
            && d'.rssi == d.rssi && d'.connectable == d.connectable && d'.advData == d.advData && d'.timestamp == d.timestamp
            && d'.lastSeen == (if Advertises(c, a) then c.now else d.lastSeen)
            && (d'.gotScanRsp <==> d.gotScanRsp || Responds(c, a))
            && d'.rspData == (if Responds(c, a) && !d.gotScanRsp then c.event.data else d.rspData)
  {
    var d1 := Admit(db, c.event, c.filter, c.now).devices[a];
    assert d1 == if Advertises(c, a) then db.devices[a].(lastSeen := c.now)
                 else if Responds(c, a) && !db.devices[a].gotScanRsp
                 then db.devices[a].(rspData := c.event.data, gotScanRsp := true, scanned := true)
                 else db.devices[a];
    assert Found(db, c.event, c.filter, c.now).0.devices[a] == Checked(d1, c.now);
  }

  /** One call, with the database and all that has been returned before and after it. */
  ghost predicate Stepped(db: Db, out: seq<Address>, c: Call, db': Db, out': seq<Address>) {
    Settled(db) && db' == Found(db, c.event, c.filter, c.now).0 && out' == out + Found(db, c.event, c.filter, c.now).1
  }

  /** A run, with both after each number of calls. */
  ghost predicate History(calls: seq<Call>, dbs: seq<Db>, outs: seq<seq<Address>>) {
    && |dbs| == |outs| == |calls| + 1 && dbs[0] == EMPTY && outs[0] == []
    && forall k :: 0 <= k < |calls| ==> Stepped(dbs[k], outs[k], calls[k], dbs[k + 1], outs[k + 1])
  }

  lemma HistorySnoc(calls: seq<Call>, dbs: seq<Db>, outs: seq<seq<Address>>, c: Call, db: Db, out: seq<Address>)
    requires History(calls, dbs, outs) && Stepped(dbs[|calls|], outs[|calls|], c, db, out)
    ensures History(calls + [c], dbs + [db], outs + [out])
  {
    forall k | 0 <= k < |calls| + 1
      ensures Stepped((dbs + [db])[k], (outs + [out])[k], (calls + [c])[k], (dbs + [db])[k + 1], (outs + [out])[k + 1])
    {
    }
  }

  lemma LastCall(calls: seq<Call>)
    requires calls != []
    ensures var before := Run(calls[..|calls| - 1]);
            Stepped(before.0, before.1, calls[|calls| - 1], Run(calls).0, Run(calls).1)
  {
  }

  lemma {:induction false} HistoryOf(calls: seq<Call>) returns (dbs: seq<Db>, outs: seq<seq<Address>>)
    ensures History(calls, dbs, outs) && dbs[|calls|] == Run(calls).0 && outs[|calls|] == Run(calls).1
  {
    if calls == [] {
      dbs, outs := [EMPTY], [[]];
    } else {
      var front, c := calls[..|calls| - 1], calls[|calls| - 1];
      dbs, outs := HistoryOf(front);
      LastCall(calls);
      HistorySnoc(front, dbs, outs, c, Run(calls).0, Run(calls).1);
      assert calls == front + [c];
      dbs, outs := dbs + [Run(calls).0], outs + [Run(calls).1];
    }
  }

  /** A device with this advertisement and this age is known. */
  ghost predicate KnownAs(db: Db, a: Address, c: Call)
    requires c.event.Advertisement?
  {
    && a in db.devices
    && var d := db.devices[a];
       && d.rssi == c.event.rssi && d.connectable == c.event.connectable && Some(d.advData) == c.event.data
       && d.timestamp == c.now
  }

  lemma StepKnows(db: Db, out: seq<Address>, c: Call, db': Db, out': seq<Address>, a: Address)
    requires Stepped(db, out, c, db', out')
    ensures a in db'.devices <==> a in db.devices || Advertises(c, a)
    ensures a !in db.devices && Advertises(c, a) ==> KnownAs(db', a, c)
  {
    CallKnows(db, c, a);
    if a !in db.devices && Advertises(c, a) {
      CallRegisters(db, c, a);
    }
  }

  lemma StepKeeps(db: Db, out: seq<Address>, c: Call, db': Db, out': seq<Address>, a: Address, first: Call)
    requires Stepped(db, out, c, db', out') && first.event.Advertisement? && KnownAs(db, a, first)
    ensures KnownAs(db', a, first)
  {
    CallKeeps(db, c, a);
  }

  /** Over any run, a device is known exactly if some call advertised it. */
  lemma {:induction false} KnownIffAdvertised(calls: seq<Call>, dbs: seq<Db>, outs: seq<seq<Address>>, k: nat, a: Address)
    requires History(calls, dbs, outs) && k <= |calls|
    ensures a in dbs[k].devices <==> exists i :: 0 <= i < k && Advertises(calls[i], a)
  {
    if k > 0 {
      KnownIffAdvertised(calls, dbs, outs, k - 1, a);
      StepKnows(dbs[k - 1], outs[k - 1], calls[k - 1], dbs[k], outs[k], a);
    }
  }

  ghost predicate FirstAdvertised(calls: seq<Call>, i: nat, a: Address)
    requires i < |calls|
  {
    Advertises(calls[i], a) && forall j :: 0 <= j < i ==> !Advertises(calls[j], a)
  }

  /** It keeps what its first advertisement said. */
  lemma {:induction false} FirstAdvertisementKept(calls: seq<Call>, dbs: seq<Db>, outs: seq<seq<Address>>, i: nat, k: nat, a: Address)
    requires History(calls, dbs, outs) && i < k <= |calls| && FirstAdvertised(calls, i, a)
    ensures KnownAs(dbs[k], a, calls[i])
  {
    if k == i + 1 {
      KnownIffAdvertised(calls, dbs, outs, i, a);
      StepKnows(dbs[i], outs[i], calls[i], dbs[k], outs[k], a);
    } else {
      FirstAdvertisementKept(calls, dbs, outs, i, k - 1, a);
      StepKeeps(dbs[k - 1], outs[k - 1], calls[k - 1], dbs[k], outs[k], a, calls[i]);
    }
  }

  lemma {:induction false} ReturnedStays(calls: seq<Call>, dbs: seq<Db>, outs: seq<seq<Address>>, j: nat, k: nat, a: Address)
    requires History(calls, dbs, outs) && j <= k <= |calls| && a in outs[j]
    ensures a in outs[k]
  {
    if j < k {
      ReturnedStays(calls, dbs, outs, j, k - 1, a);
      assert Stepped(dbs[k - 1], outs[k - 1], calls[k - 1], dbs[k], outs[k]);
    }
  }

  lemma {:induction false} ExactlyOnceAt(calls: seq<Call>, dbs: seq<Db>, outs: seq<seq<Address>>, k: nat)
    requires History(calls, dbs, outs) && k <= |calls|
    ensures ExactlyOnce(dbs[k], outs[k])
  {
    if k > 0 {
      ExactlyOnceAt(calls, dbs, outs, k - 1);
      assert Stepped(dbs[k - 1], outs[k - 1], calls[k - 1], dbs[k], outs[k]);
      CallKeepsExactlyOnce(dbs[k - 1], outs[k - 1], calls[k - 1]);
    }
  }

  /** A call returns, if it was not returned before, each device that is due after it, and
      nothing else. */
  lemma ReturnedIffDue(calls: seq<Call>, dbs: seq<Db>, outs: seq<seq<Address>>, k: nat, a: Address)
    requires History(calls, dbs, outs) && k < |calls|
    ensures a in outs[k + 1] <==>
              || a in outs[k]
              || (a in dbs[k + 1].devices
                  && (dbs[k + 1].devices[a].gotScanRsp || TimedOut(dbs[k + 1].devices[a], calls[k].now)))
  {
    var c := calls[k];
    assert Stepped(dbs[k], outs[k], c, dbs[k + 1], outs[k + 1]);
    ExactlyOnceAt(calls, dbs, outs, k);
    ExactlyOnceAt(calls, dbs, outs, k + 1);
    CallReports(dbs[k], c.event, c.filter, c.now, a);
  }

  lemma OldIsDue(calls: seq<Call>, dbs: seq<Db>, outs: seq<seq<Address>>, i: nat, k: nat, a: Address)
    requires History(calls, dbs, outs) && i < k < |calls| && FirstAdvertised(calls, i, a)
    requires calls[k].now - calls[i].now > 0.5
    ensures a in outs[k + 1]
  {
    FirstAdvertisementKept(calls, dbs, outs, i, k + 1, a);
    assert TimedOut(dbs[k + 1].devices[a], calls[k].now);
    ReturnedIffDue(calls, dbs, outs, k, a);
  }

  lemma StepTakesScanRsp(db: Db, out: seq<Address>, c: Call, db': Db, out': seq<Address>, a: Address)
    requires Stepped(db, out, c, db', out') && a in db.devices && Responds(c, a)
    ensures a in db'.devices && db'.devices[a].gotScanRsp
  {
    CallKeeps(db, c, a);
  }

  lemma RespondedIsDue(calls: seq<Call>, dbs: seq<Db>, outs: seq<seq<Address>>, i: nat, k: nat, a: Address)
    requires History(calls, dbs, outs) && i < k < |calls| && Advertises(calls[i], a) && Responds(calls[k], a)
    ensures a in outs[k + 1]
  {
    KnownIffAdvertised(calls, dbs, outs, k, a);
    StepTakesScanRsp(dbs[k], outs[k], calls[k], dbs[k + 1], outs[k + 1], a);
    ReturnedIffDue(calls, dbs, outs, k, a);
  }

  /** An advertised device is returned, for good, once a call comes more than half a second
      after its first advertisement, or brings its scan response. */
  lemma AdvertisedIsReturned(calls: seq<Call>, i: nat, k: nat, a: Address)
    requires i < k < |calls|
    requires || (FirstAdvertised(calls, i, a) && calls[k].now - calls[i].now > 0.5)
             || (Advertises(calls[i], a) && Responds(calls[k], a))
    ensures a in Run(calls).1
  {
    var dbs, outs := HistoryOf(calls);
    if Advertises(calls[i], a) && Responds(calls[k], a) {
      RespondedIsDue(calls, dbs, outs, i, k, a);
    } else {
      OldIsDue(calls, dbs, outs, i, k, a);
    }
    ReturnedStays(calls, dbs, outs, k + 1, |calls|, a);
  }

  // ----- The objects -----

  class AdvertisingDevice {
    const address: Address
    var rssi: int
    var connectable: bool
    var advData: Bytes
    var rspData: Option<Bytes>
    var gotScanRsp: bool
    var scanned: bool
    var reported: bool
    var timestamp: real
    var lastSeen: real

    ghost function View(): Device
      reads this
    {
      Device(rssi, connectable, advData, rspData, gotScanRsp, scanned, reported, timestamp, lastSeen)
    }

    constructor (e: Event, now: real)
      requires e.Advertisement? && e.data.Some?
      ensures address == e.address && View() == NewDevice(e, now)
    {
      address := e.address;
      rssi, connectable, advData, rspData := e.rssi, e.connectable, e.data.value, None;
      gotScanRsp, scanned, reported := false, false, false;
      timestamp, lastSeen := now, now;
    }

    method Seen(now: real)
      modifies this
      ensures View() == old(View()).(lastSeen := now)
    {
      lastSeen := now;
    }

    method MarkReported()
      modifies this
      ensures View() == old(View()).(reported := true)
    {
      reported := true;
    }

    /** `update` as the sweep calls it, without new data. */
    method Update(now: real)
      modifies this
      ensures View() == if TimedOut(old(View()), now) then old(View()).(scanned := true) else old(View())
    {
      if !scanned {
        if now - timestamp > SCAN_RSP_TIMEOUT {
          scanned := true;
        }
      }
    }

    /** The body of the sweep: update, then mark as reported if due. */
    method Check(now: real) returns (due: bool)
      modifies this
      ensures View() == Checked(old(View()), now)
      ensures due <==> Due(old(View()), now)
    {
      if !scanned {
        Update(now);
      }
      due := scanned && !reported;
      if due {
        MarkReported();
      }
    }

    method SetScanRsp(scanRsp: Bytes)
      modifies this
      ensures View() == WithScanRsp(old(View()), scanRsp)
    {
      if !gotScanRsp {
        rspData := Some(scanRsp);
        gotScanRsp := true;
        scanned := true;
      }
    }
  }

  function AddressesOf(devices: seq<AdvertisingDevice>): (r: seq<Address>)
    ensures |r| == |devices|
  {
    seq(|devices|, i requires 0 <= i < |devices| => devices[i].address)
  }

  class AdvertisingDevicesDB {
    var order: seq<Address>
    var db: map<Address, AdvertisingDevice>
    ghost var view: Db

    ghost predicate Represents()
      reads this, db.Values
    {
      && view.order == order && view.devices.Keys == db.Keys
      && forall a :: a in db ==> db[a].address == a && db[a].View() == view.devices[a]
    }

    constructor ()
      ensures Represents() && view == EMPTY
    {
      order, db, view := [], map[], EMPTY;
    }

    method Reset()
      modifies this
      ensures Represents() && view == EMPTY
    {
      order, db, view := [], map[], EMPTY;
    }

    method RegisterDevice(device: AdvertisingDevice, now: real)
      requires Represents() && device !in db.Values
      modifies this, db.Values
      ensures Represents()
      ensures view == Register(old(view), device.address, device.View(), now)
      ensures device.View() == old(device.View())
      ensures db.Values <= old(db.Values) + {device}
    {
      var a := device.address;
      view := Register(view, a, device.View(), now);
      if a !in db {
        db := db[a := device];
        order := order + [a];
      } else {
        db[a].Seen(now);
      }
    }

    /** The sweep, for one device of the dictionary. */
    method CheckDevice(a: Address, now: real) returns (due: bool)
      requires Represents() && a in db
      modifies `view, db[a]
      ensures Represents()
      ensures view == old(view).(devices := old(view).devices[a := Checked(old(view).devices[a], now)])
      ensures due <==> Due(old(view).devices[a], now)
    {
      due := db[a].Check(now);
      view := view.(devices := view.devices[a := Checked(view.devices[a], now)]);
    }

    /** One round of the sweep. */
    method SweepOne(i: nat, now: real, ghost before: Db) returns (due: bool)
      requires Represents() && Valid(before) && i < |order| && order == before.order
      requires HalfSwept(before, view.devices, i, now)
      modifies `view, db[order[i]]
      ensures Represents() && view.order == before.order
      ensures HalfSwept(before, view.devices, i + 1, now)
      ensures order[i] in before.devices && (due <==> Due(before.devices[order[i]], now))
    {
      SweepOneMore(before, view.devices, i, now);
      due := CheckDevice(order[i], now);
    }

    /** The same, yielding the device if it is due. */
    method YieldOne(i: nat, due: seq<AdvertisingDevice>, now: real, ghost before: Db) returns (due': seq<AdvertisingDevice>)
      requires Represents() && Valid(before) && i < |order| && order == before.order
      requires HalfSwept(before, view.devices, i, now)
      modifies `view, db[order[i]]
      ensures Represents() && view.order == before.order
      ensures HalfSwept(before, view.devices, i + 1, now)
      ensures before.order[i] in before.devices
      ensures AddressesOf(due') ==
              AddressesOf(due) + if Due(before.devices[before.order[i]], now) then [before.order[i]] else []
    {
      var device := db[order[i]];
      assert device.address == before.order[i];
      AddressesSnoc(due, device);
      var isDue := SweepOne(i, now, before);
      due' := due;
      if isDue {
        due' := due + [device];
      }
    }

    /** The generator `__apply_scan_rsp_timeout`, run to its end. */
    method ApplyScanRspTimeout(now: real) returns (due: seq<AdvertisingDevice>)
      requires Represents() && Valid(view)
      modifies `view, db.Values
      ensures Represents()
      ensures view == Db(old(view).order, Sweep(old(view).devices, now))
      ensures AddressesOf(due) == DueList(old(view).order, old(view).devices, now)
    {
      due := [];
      ghost var before := view;
      var i := 0;
      while i < |order|
        invariant 0 <= i <= |order| && Represents() && view.order == before.order
        invariant HalfSwept(before, view.devices, i, now)
        invariant AddressesOf(due) == DueList(before.order[..i], before.devices, now)
      {
        DueOneMore(before, i, now);
        due := YieldOne(i, due, now, before);
        i := i + 1;
      }
      FullySwept(before, view.devices, now);
    }

    /** `on_device_found`. */
    method OnDeviceFound(e: Event, filter: Option<Address>, now: real)
      returns (devices: seq<AdvertisingDevice>)
      requires Represents() && Settled(view)
      modifies this, db.Values
      ensures Represents() && Settled(view)
      ensures (view, AddressesOf(devices)) == Found(old(view), e, filter, now)
    {
      FoundSettles(view, e, filter, now);
      AdmitValid(view, e, filter, now);
      TakeIn(e, filter, now);
      devices := ApplyScanRspTimeout(now);
    }

    /** The first half of `on_device_found`: what the packet itself changes. */
    method TakeIn(e: Event, filter: Option<Address>, now: real)
      requires Represents()
      modifies this, db.Values
      ensures Represents() && view == Admit(old(view), e, filter, now)
      ensures forall o :: o in db.Values ==> o in old(db.Values) || fresh(o)
    {
      match e {
        case Advertisement(a, _, _, data) =>
          if data.Some? {
            TakeAdvertisement(e, filter, now);
          }
        case ScanResponse(a, data) =>
          if data.Some? && a in db {
            var device := db[a];
            if !device.gotScanRsp {
              device.SetScanRsp(data.value);
            }
            view := Admit(view, e, filter, now);
          }
        case OtherPacket =>
      }
    }

    method TakeAdvertisement(e: Event, filter: Option<Address>, now: real)
      requires Represents() && e.Advertisement? && e.data.Some?
      modifies this, db.Values
      ensures Represents() && view == Admit(old(view), e, filter, now)
      ensures forall o :: o in db.Values ==> o in old(db.Values) || fresh(o)
    {
      var device := new AdvertisingDevice(e, now);
      if filter.None? || filter.value == e.address {
        RegisterDevice(device, now);
      }
    }
  }

  lemma AddressesSnoc(devices: seq<AdvertisingDevice>, device: AdvertisingDevice)
    ensures AddressesOf(devices + [device]) == AddressesOf(devices) + [device.address]
  {
  }

  /** The first `i` devices have been checked. */
  ghost predicate HalfSwept(before: Db, devices: map<Address, Device>, i: nat, now: real) {
    && i <= |before.order| && devices.Keys == before.devices.Keys
    && forall a :: a in devices ==>
         devices[a] == if a in before.order[..i] then Checked(before.devices[a], now) else before.devices[a]
  }

  lemma SweepOneMore(before: Db, devices: map<Address, Device>, i: nat, now: real)
    requires Valid(before) && i < |before.order| && HalfSwept(before, devices, i, now)
    ensures var a := before.order[i];
            && a in devices && devices[a] == before.devices[a]
            && HalfSwept(before, devices[a := Checked(devices[a], now)], i + 1, now)
  {
    var a := before.order[i];
    assert a in before.order && a !in before.order[..i];
    assert before.order[..i + 1] == before.order[..i] + [a];
  }

  lemma DueOneMore(db: Db, i: nat, now: real)
    requires Valid(db) && i < |db.order|
    ensures db.order[i] in db.devices
    ensures DueList(db.order[..i + 1], db.devices, now) ==
            DueList(db.order[..i], db.devices, now) + if Due(db.devices[db.order[i]], now) then [db.order[i]] else []
  {
    assert db.order[i] in db.order;
    assert db.order[..i + 1][..i] == db.order[..i];
  }

  lemma FullySwept(before: Db, devices: map<Address, Device>, now: real)
    requires Valid(before) && HalfSwept(before, devices, |before.order|, now)
    ensures devices == Sweep(before.devices, now)
    ensures before.order[..|before.order|] == before.order
  {
  }
}
