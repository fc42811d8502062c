/**
 * The peer/transfer manager (`PeerConnectionManager`): a map of fabricated
 * peers, the local identity, single-slot listeners, and a simulated file
 * send whose progress grows by a random amount on every timer tick.
 *
 * Timer firings are explicit method calls (`MockPeersArrive`, `Tick`), the
 * random numbers are parameters, and a registered callback is represented
 * by a `ListenerId`; every call of a callback is recorded in a log field.
 */
module PeerConnection {
  import opened Wrappers
  import opened Strings

  /** A peer. Its connection and data-channel handles are always null and are not modelled. */
  datatype PeerData = PeerData(id: string, name: string)

  /** The part of a browser `File` the manager uses. */
  datatype FileInfo = FileInfo(name: string, size: nat, mimeType: string)

  /** The record pushed to the progress listener. */
  datatype FileTransferProgress = FileTransferProgress(
    fileId: string, fileName: string, progress: real, complete: bool, error: bool, size: nat)

  /** What `getLocalPeerInfo()` returns. */
  datatype LocalPeerInfo = LocalPeerInfo(id: string, name: string)

  /** A plain JavaScript object with string-valued properties, keyed by property name. */
  type JsObject = map<string, string>

  /**
   * The object `init()` returns. Its properties are named `localPeerId` and
   * `localPeerName`, unlike the `id` and `name` of `getLocalPeerInfo()`.
   */
  function InitRecord(localPeerId: string, localPeerName: string): (r: JsObject)
    ensures "localPeerId" in r && r["localPeerId"] == localPeerId
    ensures "localPeerName" in r && r["localPeerName"] == localPeerName
    ensures "id" !in r && "name" !in r
  {
    map["localPeerId" := localPeerId, "localPeerName" := localPeerName]
  }

  /**
   * A JavaScript `Map` from peer id to peer: the entries, and the keys in
   * the order in which they were first inserted (the order `values()` yields).
   */
  datatype PeerTable = PeerTable(entries: map<string, PeerData>, order: seq<string>)
  {
    ghost predicate Valid()
    {
      && |order| == |entries|
      && (forall i, j :: 0 <= i < j < |order| ==> order[i] != order[j])
      && (forall k :: k in entries <==> k in order)
      && (forall k :: k in entries ==> entries[k].id == k)
    }

    /** `map.size` */
    function Size(): nat
    {
      |order|
    }

    /** `map.get(id)` */
    function Get(id: string): (r: Option<PeerData>)
      requires Valid()
      ensures r.Some? <==> id in order
      ensures r.Some? ==> r.value.id == id
    {
      if id in entries then Some(entries[id]) else None
    }

    /** `map.set(p.id, p)`: a new key goes last, an existing key keeps its place. */
    function Set(p: PeerData): (r: PeerTable)
      requires Valid()
      ensures r.Valid()
    {
      if p.id in entries then PeerTable(entries[p.id := p], order)
      else PeerTable(entries[p.id := p], order + [p.id])
    }

    /** `Array.from(map.values())` */
    function Values(): (r: seq<PeerData>)
      requires Valid()
      ensures |r| == Size()
      ensures forall i :: 0 <= i < |r| ==> r[i].id == order[i] && r[i] == entries[order[i]]
    {
      seq(|order|, i requires 0 <= i < |order| => entries[order[i]])
    }
  }

  const EmptyTable: PeerTable := PeerTable(map[], [])

  /** Sets every peer of `ps` in turn, as `mockPeers.forEach(peer => peers.set(...))` does. */
  function SetAll(t: PeerTable, ps: seq<PeerData>): (r: PeerTable)
    requires t.Valid()
    ensures r.Valid()
    decreases |ps|
  {
    if ps == [] then t else SetAll(t, ps[..|ps| - 1]).Set(ps[|ps| - 1])
  }

  /** One `set` adds its id to the keys and at most one entry to the table. */
  lemma SetKeys(t: PeerTable, p: PeerData)
    requires t.Valid()
    ensures t.Set(p).entries.Keys == t.entries.Keys + {p.id}
    ensures t.Set(p).Size() <= t.Size() + 1
  {
  }

  /** The `forEach` of sets keeps every key already present. */
  lemma {:induction false} SetAllKeepsKeys(t: PeerTable, ps: seq<PeerData>)
    requires t.Valid()
    ensures t.entries.Keys <= SetAll(t, ps).entries.Keys
    decreases |ps|
  {
    if ps != [] {
      SetAllKeepsKeys(t, ps[..|ps| - 1]);
      SetKeys(SetAll(t, ps[..|ps| - 1]), ps[|ps| - 1]);
    }
  }

  /** The `forEach` of sets adds the id of every peer given. */
  lemma {:induction false} SetAllAddsIds(t: PeerTable, ps: seq<PeerData>)
    requires t.Valid()
    ensures forall p :: p in ps ==> p.id in SetAll(t, ps).entries
    decreases |ps|
  {
    if ps != [] {
      var init := ps[..|ps| - 1];
      assert ps == init + [ps[|ps| - 1]];
      SetAllAddsIds(t, init);
      SetKeys(SetAll(t, init), ps[|ps| - 1]);
    }
  }

  /** The `forEach` of sets grows the table by at most one entry per peer. */
  lemma {:induction false} SetAllSize(t: PeerTable, ps: seq<PeerData>)
    requires t.Valid()
    ensures SetAll(t, ps).Size() <= t.Size() + |ps|
    decreases |ps|
  {
    if ps != [] {
      SetAllSize(t, ps[..|ps| - 1]);
      SetKeys(SetAll(t, ps[..|ps| - 1]), ps[|ps| - 1]);
    }
  }

  /** Setting the peers of a prefix one element longer sets one more peer. */
  lemma SetAllPrefix(t: PeerTable, ps: seq<PeerData>, i: nat)
    requires t.Valid() && i < |ps|
    ensures SetAll(t, ps[..i + 1]) == SetAll(t, ps[..i]).Set(ps[i])
  {
    assert ps[..i + 1][..i] == ps[..i];
  }

  /** After `set(p.id, p)` the table maps `p.id` to `p`; the other keys keep their values and places. */
  lemma SetLookup(t: PeerTable, p: PeerData, id: string)
    requires t.Valid()
    ensures t.Set(p).Get(id) == if id == p.id then Some(p) else t.Get(id)
  {
  }

  /**
   * Setting an id that is already present replaces its value in place and
   * does not grow the table; setting a new id appends its value at the end.
   */
  lemma SetSizeAndOrder(t: PeerTable, p: PeerData)
    requires t.Valid()
    ensures p.id in t.order ==> t.Set(p).Size() == t.Size() && t.Set(p).order == t.order
    ensures p.id !in t.order ==> t.Set(p).Size() == t.Size() + 1 && t.Set(p).Values() == t.Values() + [p]
  {
  }

  /** Setting a peer that is already stored with the same data changes nothing. */
  lemma SetPresent(t: PeerTable, p: PeerData)
    requires t.Valid() && t.Get(p.id) == Some(p)
    ensures t.Set(p) == t
  {
    assert t.entries[p.id := p] == t.entries;
  }

  /** After `SetAll`, the last peer of `ps` with a given id is the one stored under that id. */
  lemma {:induction false} SetAllStores(t: PeerTable, ps: seq<PeerData>, k: nat)
    requires t.Valid() && k < |ps|
    requires forall j :: k < j < |ps| ==> ps[j].id != ps[k].id
    ensures SetAll(t, ps).Get(ps[k].id) == Some(ps[k])
    decreases |ps|
  {
    var init := ps[..|ps| - 1];
    SetLookup(SetAll(t, init), ps[|ps| - 1], ps[k].id);
    if k < |ps| - 1 {
      SetAllStores(t, init, k);
    }
  }

  /** An id that none of the peers given carries keeps the peer it had, or stays absent. */
  lemma {:induction false} SetAllOthers(t: PeerTable, ps: seq<PeerData>, id: string)
    requires t.Valid()
    requires forall p :: p in ps ==> p.id != id
    ensures SetAll(t, ps).Get(id) == t.Get(id)
    decreases |ps|
  {
    if ps != [] {
      var init := ps[..|ps| - 1];
      assert ps == init + [ps[|ps| - 1]];
      SetAllOthers(t, init, id);
      SetLookup(SetAll(t, init), ps[|ps| - 1], id);
    }
  }

  /** One `set` keeps the existing keys in their places: the old order is a prefix of the new one. */
  lemma SetKeepsOrder(t: PeerTable, p: PeerData)
    requires t.Valid()
    ensures t.order <= t.Set(p).order
  {
  }

  /**
   * Keys already present keep their places in insertion order, so the old
   * order is a prefix of the new one; new keys only follow them.
   */
  lemma {:induction false} SetAllKeepsOrder(t: PeerTable, ps: seq<PeerData>)
    requires t.Valid()
    ensures t.order <= SetAll(t, ps).order
    decreases |ps|
  {
    if ps != [] {
      var prev := SetAll(t, ps[..|ps| - 1]);
      assert SetAll(t, ps) == prev.Set(ps[|ps| - 1]);
      SetAllKeepsOrder(t, ps[..|ps| - 1]);
      SetKeepsOrder(prev, ps[|ps| - 1]);
    }
  }

  /** Setting peers that are all already stored with the same data changes nothing. */
  lemma {:induction false} SetAllPresent(t: PeerTable, ps: seq<PeerData>)
    requires t.Valid()
    requires forall j :: 0 <= j < |ps| ==> t.Get(ps[j].id) == Some(ps[j])
    ensures SetAll(t, ps) == t
    decreases |ps|
  {
    if ps != [] {
      SetAllPresent(t, ps[..|ps| - 1]);
      SetPresent(t, ps[|ps| - 1]);
    }
  }

  /** The three peers the mock discovery inserts. */
  const MockPeers: seq<PeerData> := [
    PeerData("peer-abc123", "MacBook Pro"),
    PeerData("peer-def456", "Windows Desktop"),
    PeerData("peer-ghi789", "Android Phone")
  ]

  /** After the mock peers arrive, each of the three ids maps to its mock peer. */
  lemma MockPeersStored(t: PeerTable, k: nat)
    requires t.Valid() && k < |MockPeers|
    ensures SetAll(t, MockPeers).Get(MockPeers[k].id) == Some(MockPeers[k])
  {
    SetAllStores(t, MockPeers, k);
  }

  /** A second arrival of the mock peers overwrites them with the same data: the table does not change or grow. */
  lemma MockPeersArrivalIdempotent(t: PeerTable)
    requires t.Valid()
    ensures SetAll(SetAll(t, MockPeers), MockPeers) == SetAll(t, MockPeers)
  {
    var u := SetAll(t, MockPeers);
    forall j | 0 <= j < |MockPeers| ensures u.Get(MockPeers[j].id) == Some(MockPeers[j]) {
      MockPeersStored(t, j);
    }
    SetAllPresent(u, MockPeers);
  }

  /** The outcome of the promise `sendFile` returns. */
  datatype SendOutcome = Pending | Resolved | Rejected(reason: string)

  const PeerNotFound: string := "Peer not found"

  /** The simulated send after some ticks: the `progress` variable, whether the interval was cleared, and every event produced. */
  datatype SimState = SimState(progress: real, finished: bool, events: seq<FileTransferProgress>)

  const Start: SimState := SimState(0.0, false, [])

  /** A value `Math.random() * 10` can take. */
  predicate IsIncrement(x: real)
  {
    0.0 <= x < 10.0
  }

  predicate AreIncrements(xs: seq<real>)
  {
    forall i :: 0 <= i < |xs| ==> IsIncrement(xs[i])
  }

  /**
   * The event of one firing of the send interval, at progress `progress`
   * with random increment `inc`: progress reaching 100 is clamped to 100
   * and reported as complete.
   */
  function TickEvent(fileId: string, file: FileInfo, progress: real, inc: real): (e: FileTransferProgress)
    ensures e.fileId == fileId && e.fileName == file.name && e.size == file.size && !e.error
    ensures e.complete <==> progress + inc >= 100.0
    ensures e.complete ==> e.progress == 100.0
    ensures !e.complete ==> e.progress == progress + inc
  {
    if progress + inc >= 100.0 then FileTransferProgress(fileId, file.name, 100.0, true, false, file.size)
    else FileTransferProgress(fileId, file.name, progress + inc, false, false, file.size)
  }

  /** One firing of the send interval. A cleared interval does not fire. */
  function Step(fileId: string, file: FileInfo, s: SimState, inc: real): (r: SimState)
    ensures r.finished <==> s.finished || s.progress + inc >= 100.0
    ensures |s.events| <= |r.events| <= |s.events| + 1 && r.events[..|s.events|] == s.events
    ensures s.finished ==> r == s
  {
    if s.finished then s
    else
      var e := TickEvent(fileId, file, s.progress, inc);
      SimState(e.progress, e.complete, s.events + [e])
  }

  /** The state of a send after the interval fired once per element of `incs`. */
  function Run(fileId: string, file: FileInfo, incs: seq<real>): (r: SimState)
    ensures |r.events| <= |incs|
    ensures r.finished ==> r.events != [] && r.events[|r.events| - 1].complete
    decreases |incs|
  {
    if incs == [] then Start
    else Step(fileId, file, Run(fileId, file, incs[..|incs| - 1]), incs[|incs| - 1])
  }

  /** One more firing extends the run by one step. */
  lemma RunSnoc(fileId: string, file: FileInfo, incs: seq<real>, inc: real)
    ensures Run(fileId, file, incs + [inc]) == Step(fileId, file, Run(fileId, file, incs), inc)
  {
    assert (incs + [inc])[..|incs|] == incs;
  }

  /** Appending an increment keeps a sequence of increments. */
  lemma AreIncrementsSnoc(incs: seq<real>, inc: real)
    requires AreIncrements(incs) && IsIncrement(inc)
    ensures AreIncrements(incs + [inc])
  {
    forall i | 0 <= i < |incs| + 1
      ensures IsIncrement((incs + [inc])[i])
    {
      if i < |incs| {
        assert (incs + [inc])[i] == incs[i];
      }
    }
  }

  /** The sum of the increments, the progress a send would have without the clamp. */
  function Sum(xs: seq<real>): real
    decreases |xs|
  {
    if xs == [] then 0.0 else Sum(xs[..|xs| - 1]) + xs[|xs| - 1]
  }

  /** Every event of one send carries the send's file id, file name and size, and never the error flag. */
  ghost predicate EventsDescribe(events: seq<FileTransferProgress>, fileId: string, file: FileInfo)
  {
    forall i :: 0 <= i < |events| ==>
      events[i].fileId == fileId && events[i].fileName == file.name && events[i].size == file.size && !events[i].error
  }

  /**
   * The invariant of the progress simulation: progress stays in [0, 100];
   * the interval is cleared exactly when progress has been clamped to 100;
   * the events are non-decreasing in progress; only the last event can be
   * the terminal one, and it is there exactly when the send has finished,
   * with `complete` set and progress 100; every earlier event has
   * `complete` unset and progress below 100; and the last event reports
   * the current progress.
   */
  ghost predicate SimInvariant(fileId: string, file: FileInfo, s: SimState)
  {
    && 0.0 <= s.progress <= 100.0
    && (s.finished <==> s.progress == 100.0)
    && (s.events == [] ==> s.progress == 0.0)
    && (s.events != [] ==> s.events[|s.events| - 1].progress == s.progress)
    && EventsDescribe(s.events, fileId, file)
    && (forall i, j :: 0 <= i <= j < |s.events| ==> s.events[i].progress <= s.events[j].progress)
    && (forall i :: 0 <= i < |s.events| ==>
          (s.events[i].complete <==> (s.finished && i == |s.events| - 1)))
    && (forall i :: 0 <= i < |s.events| ==>
          (s.events[i].complete ==> s.events[i].progress == 100.0)
          && (!s.events[i].complete ==> 0.0 <= s.events[i].progress < 100.0))
  }

  /** One firing with a non-negative increment keeps the invariant. */
  lemma StepKeepsInvariant(fileId: string, file: FileInfo, s: SimState, inc: real)
    requires SimInvariant(fileId, file, s) && IsIncrement(inc)
    ensures SimInvariant(fileId, file, Step(fileId, file, s, inc))
  {
    if !s.finished {
      var e := TickEvent(fileId, file, s.progress, inc);
      var ev := s.events + [e];
      assert Step(fileId, file, s, inc) == SimState(e.progress, e.complete, ev);
      assert forall i :: 0 <= i < |s.events| ==> ev[i] == s.events[i];
      assert s.progress <= e.progress;
    }
  }

  /** Every reachable state of a send satisfies the invariant. */
  lemma {:induction false} RunInvariant(fileId: string, file: FileInfo, incs: seq<real>)
    requires AreIncrements(incs)
    ensures SimInvariant(fileId, file, Run(fileId, file, incs))
    decreases |incs|
  {
    if incs != [] {
      var init := incs[..|incs| - 1];
      assert AreIncrements(init) by {
        forall i | 0 <= i < |init| ensures IsIncrement(init[i]) { assert init[i] == incs[i]; }
      }
      RunInvariant(fileId, file, init);
      StepKeepsInvariant(fileId, file, Run(fileId, file, init), incs[|incs| - 1]);
    }
  }

  /** The interval is cleared exactly when the increments add up to 100; until then progress is their sum. */
  lemma {:induction false} RunFinishesAtHundred(fileId: string, file: FileInfo, incs: seq<real>)
    requires AreIncrements(incs)
    ensures Run(fileId, file, incs).finished <==> Sum(incs) >= 100.0
    ensures !Run(fileId, file, incs).finished ==> Run(fileId, file, incs).progress == Sum(incs)
    decreases |incs|
  {
    if incs != [] {
      RunFinishesAtHundred(fileId, file, incs[..|incs| - 1]);
    }
  }

  /** Once the terminal event has been emitted, further firings produce no event and change nothing. */
  lemma {:induction false} NoEventAfterTerminal(fileId: string, file: FileInfo, incs: seq<real>, more: seq<real>)
    requires Run(fileId, file, incs).finished
    ensures Run(fileId, file, incs + more) == Run(fileId, file, incs)
    decreases |more|
  {
    if more == [] {
      assert incs + more == incs;
    } else {
      var all := incs + more;
      assert all[..|all| - 1] == incs + more[..|more| - 1];
      NoEventAfterTerminal(fileId, file, incs, more[..|more| - 1]);
      assert Run(fileId, file, all) == Step(fileId, file, Run(fileId, file, incs + more[..|more| - 1]), all[|all| - 1]);
    }
  }

  /** A send that finishes emits exactly one terminal event, the last one, with progress 100. */
  lemma ExactlyOneTerminalEvent(fileId: string, file: FileInfo, incs: seq<real>)
    requires AreIncrements(incs) && Run(fileId, file, incs).finished
    ensures var ev := Run(fileId, file, incs).events;
      && ev != []
      && ev[|ev| - 1] == FileTransferProgress(fileId, file.name, 100.0, true, false, file.size)
      && (forall i :: 0 <= i < |ev| - 1 ==> !ev[i].complete)
  {
    RunInvariant(fileId, file, incs);
  }

  /** An identifier for a callback registered with the manager. */
  type ListenerId = nat

  /** One call of the peers listener, with the peers it was given. */
  datatype PeersDelivery = PeersDelivery(listener: ListenerId, peers: seq<PeerData>)

  /** One call of the progress listener, with the record it was given. */
  datatype ProgressDelivery = ProgressDelivery(listener: ListenerId, progress: FileTransferProgress)

  /**
   * One call of `sendFile`: its promise and, when the peer was found, its
   * running interval. `ticks` records the increment of every firing.
   */
  class Transfer {
    const peerId: string
    const fileId: string
    const file: FileInfo
    var progress: real
    var outcome: SendOutcome
    ghost var ticks: seq<real>

    ghost predicate Valid()
      reads this
    {
      && AreIncrements(ticks)
      && (outcome.Rejected? ==> outcome.reason == PeerNotFound && ticks == [] && progress == 0.0)
      && (!outcome.Rejected? ==>
            progress == Run(fileId, file, ticks).progress
            && (outcome == Resolved <==> Run(fileId, file, ticks).finished))
    }

    /** Every progress event this send has produced, delivered or not. */
    ghost function Events(): seq<FileTransferProgress>
      reads this
    {
      Run(fileId, file, ticks).events
    }

    constructor Refused(peerId: string, file: FileInfo)
      ensures Valid()
      ensures this.peerId == peerId && this.file == file && fileId == ""
      ensures outcome == Rejected(PeerNotFound) && ticks == []
    {
      this.peerId := peerId;
      this.fileId := "";
      this.file := file;
      progress := 0.0;
      outcome := Rejected(PeerNotFound);
      ticks := [];
    }

    constructor Begin(peerId: string, fileId: string, file: FileInfo)
      ensures Valid()
      ensures this.peerId == peerId && this.fileId == fileId && this.file == file
      ensures outcome == Pending && ticks == [] && progress == 0.0
    {
      this.peerId := peerId;
      this.fileId := fileId;
      this.file := file;
      progress := 0.0;
      outcome := Pending;
      ticks := [];
    }
  }

  class PeerConnectionManager {
    var peers: PeerTable
    var localPeerId: string
    var localPeerName: string
    var onPeersChange: Option<ListenerId>
    var onFileProgress: Option<ListenerId>
    /** How many `addMockPeers` timeouts are armed and have not fired yet. */
    var pendingMockArrivals: nat
    /** Every call of the peers listener, oldest first. */
    var peersLog: seq<PeersDelivery>
    /** Every call of the progress listener, oldest first. */
    var progressLog: seq<ProgressDelivery>

    /** The peer table is a well-formed `Map`, and the generated id is never empty. */
    ghost predicate Valid()
      reads this`peers, this`localPeerId
    {
      peers.Valid() && localPeerId != ""
    }

    /**
     * The constructor: the id is `peer-` followed by random text, the name
     * `User-` followed by a random integer below 1000.
     */
    constructor (idSuffix: string, nameNumber: nat)
      requires nameNumber < 1000
      ensures Valid()
      ensures localPeerId == "peer-" + idSuffix && localPeerName == "User-" + Decimal(nameNumber)
      ensures peers == EmptyTable && onPeersChange == None && onFileProgress == None
      ensures pendingMockArrivals == 0 && peersLog == [] && progressLog == []
    {
      peers := EmptyTable;
      localPeerId := "peer-" + idSuffix;
      localPeerName := "User-" + Decimal(nameNumber);
      onPeersChange := None;
      onFileProgress := None;
      pendingMockArrivals := 0;
      peersLog := [];
      progressLog := [];
    }

    /** `getPeers()`: every stored peer once, in the order its id was first inserted. */
    function GetPeers(): (r: seq<PeerData>)
      reads this`peers, this`localPeerId
      requires Valid()
      ensures |r| == peers.Size()
      ensures forall i :: 0 <= i < |r| ==> r[i] == peers.entries[peers.order[i]]
    {
      peers.Values()
    }

    /** `getLocalPeerInfo()` */
    function GetLocalPeerInfo(): (r: LocalPeerInfo)
      reads this
      ensures r.id == localPeerId && r.name == localPeerName
    {
      LocalPeerInfo(localPeerId, localPeerName)
    }

    /** `init()`: arms the mock-peer timeout and returns the local identity. */
    method Init() returns (info: JsObject)
      requires Valid()
      modifies this`pendingMockArrivals
      ensures Valid()
      ensures pendingMockArrivals == old(pendingMockArrivals) + 1
      ensures info == InitRecord(localPeerId, localPeerName)
    {
      pendingMockArrivals := pendingMockArrivals + 1;
      info := InitRecord(localPeerId, localPeerName);
    }

    /** `setLocalPeerName(name)`: only the reported name changes, never the id or the peers. */
    method SetLocalPeerName(name: string)
      requires Valid()
      modifies this`localPeerName
      ensures Valid()
      ensures localPeerName == name
      ensures GetLocalPeerInfo() == LocalPeerInfo(old(localPeerId), name)
    {
      localPeerName := name;
    }

    /** `setOnPeersChangeListener(l)`: replaces the slot and calls `l` at once if there are peers. */
    method SetOnPeersChangeListener(l: ListenerId)
      requires Valid()
      modifies this`onPeersChange, this`peersLog
      ensures Valid()
      ensures onPeersChange == Some(l)
      ensures peersLog == if peers.Size() > 0 then old(peersLog) + [PeersDelivery(l, GetPeers())] else old(peersLog)
    {
      onPeersChange := Some(l);
      if peers.Size() > 0 {
        peersLog := peersLog + [PeersDelivery(l, GetPeers())];
      }
    }

    /** `setOnFileProgressListener(l)`: replaces the slot. */
    method SetOnFileProgressListener(l: ListenerId)
      requires Valid()
      modifies this`onFileProgress
      ensures Valid()
      ensures onFileProgress == Some(l)
    {
      onFileProgress := Some(l);
    }

    /**
     * `sendFile(peerId, file)`: rejects with "Peer not found" when the id is
     * unknown; otherwise starts the interval for a file id `file-` followed
     * by random text. No listener is called here.
     */
    method SendFile(peerId: string, file: FileInfo, fileIdSuffix: string) returns (t: Transfer)
      requires Valid()
      ensures fresh(t) && t.Valid()
      ensures t.peerId == peerId && t.file == file && t.ticks == []
      ensures t.outcome == if peerId in peers.entries then Pending else Rejected(PeerNotFound)
      ensures t.outcome == Pending ==> t.fileId == "file-" + fileIdSuffix
    {
      var peer := peers.Get(peerId);
      if peer.None? {
        t := new Transfer.Refused(peerId, file);
        return;
      }
      t := new Transfer.Begin(peerId, "file-" + fileIdSuffix, file);
    }

    /**
     * One firing of a send's interval with random increment `inc`: the event
     * the simulation produces goes to the progress listener in the slot at
     * that moment, if any. A cleared interval, or a rejected send, does not fire.
     */
    method Tick(t: Transfer, inc: real)
      requires Valid() && t.Valid() && IsIncrement(inc)
      modifies t, this`progressLog
      ensures Valid() && t.Valid()
      ensures t.outcome == Pending ==> old(t.outcome) == Pending
      ensures old(t.outcome) == Pending ==> t.ticks == old(t.ticks) + [inc]
      ensures old(t.outcome) != Pending ==> t.ticks == old(t.ticks) && t.outcome == old(t.outcome)
      ensures old(t.outcome) == Pending ==>
        t.Events() == old(t.Events()) + [TickEvent(t.fileId, t.file, old(t.progress), inc)]
      ensures progressLog ==
        if old(t.outcome) == Pending && onFileProgress.Some? then
          old(progressLog) + [ProgressDelivery(onFileProgress.value, TickEvent(t.fileId, t.file, old(t.progress), inc))]
        else old(progressLog)
    {
      if t.outcome != Pending {
        return;
      }
      ghost var before := Run(t.fileId, t.file, t.ticks);
      assert before.progress == t.progress && !before.finished;
      RunSnoc(t.fileId, t.file, t.ticks, inc);
      AreIncrementsSnoc(t.ticks, inc);
      t.ticks := t.ticks + [inc];
      var p := t.progress + inc;
      var event;
      if p >= 100.0 {
        p := 100.0;
        // the interval is cleared and the promise resolves
        t.outcome := Resolved;
        event := FileTransferProgress(t.fileId, t.file.name, 100.0, true, false, t.file.size);
      } else {
        event := FileTransferProgress(t.fileId, t.file.name, p, false, false, t.file.size);
      }
      t.progress := p;
      assert event == TickEvent(t.fileId, t.file, old(t.progress), inc);
      assert Run(t.fileId, t.file, t.ticks) == Step(t.fileId, t.file, before, inc)
        == SimState(p, t.outcome == Resolved, before.events + [event]);
      if onFileProgress.Some? {
        progressLog := progressLog + [ProgressDelivery(onFileProgress.value, event)];
      }
    }

    /**
     * The `addMockPeers` timeout firing: the three mock peers are set by id,
     * then the peers listener, if any, is called with all peers.
     */
    method MockPeersArrive()
      requires Valid() && pendingMockArrivals > 0
      modifies this`peers, this`pendingMockArrivals, this`peersLog
      ensures Valid()
      ensures peers == SetAll(old(peers), MockPeers)
      ensures pendingMockArrivals == old(pendingMockArrivals) - 1
      ensures peersLog == if onPeersChange.Some? then old(peersLog) + [PeersDelivery(onPeersChange.value, GetPeers())] else old(peersLog)
    {
      pendingMockArrivals := pendingMockArrivals - 1;
      AddPeers(MockPeers);
    }

    /** The body of the `addMockPeers` timeout for the peers `ps`: set each, then notify. */
    method AddPeers(ps: seq<PeerData>)
      requires Valid()
      modifies this`peers, this`peersLog
      ensures Valid()
      ensures peers == SetAll(old(peers), ps)
      ensures peersLog == if onPeersChange.Some? then old(peersLog) + [PeersDelivery(onPeersChange.value, GetPeers())] else old(peersLog)
    {
      SetEach(ps);
      if onPeersChange.Some? {
        peersLog := peersLog + [PeersDelivery(onPeersChange.value, GetPeers())];
      }
    }

    /** `ps.forEach(peer => this.peers.set(peer.id, peer))` */
    method SetEach(ps: seq<PeerData>)
      requires Valid()
      modifies this`peers
      ensures Valid()
      ensures peers == SetAll(old(peers), ps)
    {
      for i := 0 to |ps|
        invariant peers.Valid()
        invariant peers == SetAll(old(peers), ps[..i])
      {
        SetAllPrefix(old(peers), ps, i);
        peers := peers.Set(ps[i]);
      }
      assert ps[..|ps|] == ps;
    }

    /** `destroy()`: clears the peers (closing connections is a no-op: they are always null). */
    method Destroy()
      requires Valid()
      modifies this`peers
      ensures Valid()
      ensures peers == EmptyTable && GetPeers() == []
    {
      peers := EmptyTable;
    }
  }

  /** `destroy()` followed by `sendFile`: the send is rejected whatever the peer id, and no listener is called. */
  method DestroyThenSend(m: PeerConnectionManager, peerId: string, file: FileInfo, fileIdSuffix: string)
    returns (t: Transfer)
    requires m.Valid()
    modifies m`peers
    ensures m.Valid() && m.GetPeers() == []
    ensures t.outcome == Rejected(PeerNotFound)
    ensures m.peersLog == old(m.peersLog) && m.progressLog == old(m.progressLog)
  {
    m.Destroy();
    t := m.SendFile(peerId, file, fileIdSuffix);
  }
}
