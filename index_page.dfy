/**
 * The page: its state, the two listeners it registers with the manager,
 * the transfer list it keeps (upserted by file id, pruned after a terminal
 * event), and the handlers of its controls.
 */
module IndexPage {
  import opened Wrappers
  import opened Strings
  import opened PeerConnection
  import opened FileTransfer

  /** `prev.findIndex(t => t.fileId === id)`: the first index with that file id, or -1. */
  function FindIndex(ts: seq<FileTransferProgress>, id: string): (r: int)
    ensures -1 <= r < |ts|
    ensures r == -1 <==> forall j :: 0 <= j < |ts| ==> ts[j].fileId != id
    ensures r >= 0 ==> ts[r].fileId == id && forall j :: 0 <= j < r ==> ts[j].fileId != id
  {
    if ts == [] then -1
    else if ts[0].fileId == id then 0
    else
      var k := FindIndex(ts[1..], id);
      if k < 0 then -1 else k + 1
  }

  /**
   * The progress listener's update of the transfer list: a record replaces
   * the first entry with its file id, or is appended when there is none.
   */
  function Upsert(ts: seq<FileTransferProgress>, p: FileTransferProgress): (r: seq<FileTransferProgress>)
    ensures p in r
    ensures forall j :: 0 <= j < |ts| && ts[j].fileId != p.fileId ==> ts[j] in r
    ensures FindIndex(ts, p.fileId) >= 0 ==>
      |r| == |ts| && r[FindIndex(ts, p.fileId)] == p &&
      forall j :: 0 <= j < |ts| && j != FindIndex(ts, p.fileId) ==> r[j] == ts[j]
    ensures FindIndex(ts, p.fileId) < 0 ==> |r| == |ts| + 1 && r[..|ts|] == ts && r[|ts|] == p
  {
    var k := FindIndex(ts, p.fileId);
    if k >= 0 then
      var r := ts[k := p];
      assert r[k] == p;
      assert forall j :: 0 <= j < |ts| && j != k ==> r[j] == ts[j];
      r
    else
      var r := ts + [p];
      assert r[|ts|] == p;
      assert forall j :: 0 <= j < |ts| ==> r[j] == ts[j];
      r
  }

  /** `prev.filter(t => t.fileId !== id)` */
  function RemoveTransfer(ts: seq<FileTransferProgress>, id: string): (r: seq<FileTransferProgress>)
    ensures |r| <= |ts|
    ensures forall t :: t in r <==> t in ts && t.fileId != id
  {
    if ts == [] then []
    else (if ts[0].fileId != id then [ts[0]] else []) + RemoveTransfer(ts[1..], id)
  }

  /** No two entries of the list share a file id. */
  predicate Unique(ts: seq<FileTransferProgress>)
  {
    forall i, j :: 0 <= i < j < |ts| ==> ts[i].fileId != ts[j].fileId
  }

  /** Filtering distributes over concatenation. */
  lemma {:induction false} RemoveAppend(a: seq<FileTransferProgress>, b: seq<FileTransferProgress>, id: string)
    ensures RemoveTransfer(a + b, id) == RemoveTransfer(a, id) + RemoveTransfer(b, id)
  {
    if a == [] {
      assert a + b == b;
    } else {
      assert (a + b)[1..] == a[1..] + b;
      RemoveAppend(a[1..], b, id);
    }
  }

  /** Replacing an entry by another with the same file id leaves that id's filter unchanged. */
  lemma {:induction false} RemoveReplaced(ts: seq<FileTransferProgress>, k: nat, p: FileTransferProgress)
    requires k < |ts| && ts[k].fileId == p.fileId
    ensures RemoveTransfer(ts[k := p], p.fileId) == RemoveTransfer(ts, p.fileId)
  {
    if k > 0 {
      assert ts[k := p][1..] == ts[1..][k - 1 := p];
      RemoveReplaced(ts[1..], k - 1, p);
    }
  }

  /** A file id that is absent is filtered away from nothing. */
  lemma {:induction false} RemoveAbsent(ts: seq<FileTransferProgress>, id: string)
    requires forall j :: 0 <= j < |ts| ==> ts[j].fileId != id
    ensures RemoveTransfer(ts, id) == ts
  {
    if ts != [] {
      RemoveAbsent(ts[1..], id);
    }
  }

  /**
   * The removal that follows a terminal record undoes the record's upsert:
   * what is left is the old list without that file id.
   */
  lemma RemoveAfterUpsert(ts: seq<FileTransferProgress>, p: FileTransferProgress)
    ensures RemoveTransfer(Upsert(ts, p), p.fileId) == RemoveTransfer(ts, p.fileId)
  {
    var k := FindIndex(ts, p.fileId);
    if k >= 0 {
      RemoveReplaced(ts, k, p);
    } else {
      RemoveAppend(ts, [p], p.fileId);
      assert RemoveTransfer([p], p.fileId) == [];
    }
  }

  /** Dismissing twice is dismissing once. */
  lemma RemoveIdempotent(ts: seq<FileTransferProgress>, id: string)
    ensures RemoveTransfer(RemoveTransfer(ts, id), id) == RemoveTransfer(ts, id)
  {
    var r := RemoveTransfer(ts, id);
    forall j | 0 <= j < |r|
      ensures r[j].fileId != id
    {
      assert r[j] in r;
    }
    RemoveAbsent(r, id);
  }

  /** The list keeps one entry per file id, and after an upsert that entry is the new record. */
  lemma UpsertUnique(ts: seq<FileTransferProgress>, p: FileTransferProgress)
    requires Unique(ts)
    ensures Unique(Upsert(ts, p))
    ensures forall j :: 0 <= j < |Upsert(ts, p)| && Upsert(ts, p)[j].fileId == p.fileId ==> Upsert(ts, p)[j] == p
  {
    var r := Upsert(ts, p);
    var k := FindIndex(ts, p.fileId);
    if k < 0 {
      forall i, j | 0 <= i < j < |r|
        ensures r[i].fileId != r[j].fileId
      {
        if j == |ts| {
          assert r[i] == ts[i];
        } else {
          assert r[i] == ts[i] && r[j] == ts[j];
        }
      }
    }
  }

  /** Without its head a list with distinct ids keeps them distinct, and none equals the head's. */
  lemma UniqueTail(ts: seq<FileTransferProgress>)
    requires ts != [] && Unique(ts)
    ensures Unique(ts[1..])
    ensures forall t :: t in ts[1..] ==> t.fileId != ts[0].fileId
  {
    forall i, j | 0 <= i < j < |ts[1..]|
      ensures ts[1..][i].fileId != ts[1..][j].fileId
    {
      assert ts[1..][i] == ts[i + 1] && ts[1..][j] == ts[j + 1];
    }
  }

  /** Putting an entry whose id is new in front of a list with distinct ids keeps them distinct. */
  lemma UniqueCons(x: FileTransferProgress, rest: seq<FileTransferProgress>)
    requires Unique(rest) && forall t :: t in rest ==> t.fileId != x.fileId
    ensures Unique([x] + rest)
  {
    var r := [x] + rest;
    forall i, j | 0 <= i < j < |r|
      ensures r[i].fileId != r[j].fileId
    {
      assert r[j] == rest[j - 1] && rest[j - 1] in rest;
      if i > 0 {
        assert r[i] == rest[i - 1];
      }
    }
  }

  /** Filtering keeps the ids distinct. */
  lemma {:induction false} RemoveUnique(ts: seq<FileTransferProgress>, id: string)
    requires Unique(ts)
    ensures Unique(RemoveTransfer(ts, id))
  {
    if ts != [] {
      UniqueTail(ts);
      RemoveUnique(ts[1..], id);
      var rest := RemoveTransfer(ts[1..], id);
      if ts[0].fileId != id {
        UniqueCons(ts[0], rest);
      } else {
        assert RemoveTransfer(ts, id) == [] + rest;
      }
    }
  }

  /** `peers.find(p => p.id === id)` */
  function FindPeer(peers: seq<PeerData>, id: string): (r: Option<PeerData>)
    ensures r.None? <==> forall j :: 0 <= j < |peers| ==> peers[j].id != id
    ensures r.Some? ==> r.value.id == id && r.value in peers
    ensures r.Some? ==> exists k :: 0 <= k < |peers| && peers[k] == r.value && forall j :: 0 <= j < k ==> peers[j].id != id
  {
    if peers == [] then None
    else if peers[0].id == id then Some(peers[0])
    else
      var r := FindPeer(peers[1..], id);
      if r.Some? then
        var k :| 0 <= k < |peers[1..]| && peers[1..][k] == r.value && forall j :: 0 <= j < k ==> peers[1..][j].id != id;
        assert peers[k + 1] == r.value;
        assert forall j :: 1 <= j < k + 1 ==> peers[j] == peers[1..][j - 1];
        r
      else r
  }

  /** The text of the Device ID box: `localPeerInfo?.id || "Generating..."`. */
  function DeviceIdText(info: Option<JsObject>): (r: string)
    ensures r == "Generating..." || (info.Some? && "id" in info.value && r == info.value["id"])
    ensures info.None? ==> r == "Generating..."
    ensures info.Some? && "id" in info.value && info.value["id"] != "" ==> r == info.value["id"]
  {
    if info.Some? && "id" in info.value && info.value["id"] != "" then info.value["id"] else "Generating..."
  }

  /** As written, the page stores the object `init()` returned, unchanged. */
  function StoredInfoAsWritten(init: JsObject): Option<JsObject>
  {
    Some(init)
  }

  /** That object has no `id` property, so the Device ID box never leaves its placeholder. */
  lemma DeviceIdNeverShownAsWritten(id: string, name: string)
    ensures DeviceIdText(StoredInfoAsWritten(InitRecord(id, name))) == "Generating..."
  {
    assert "id" !in InitRecord(id, name);
  }

  /** The corrected page stores the identity under the names the render reads. */
  function StoredInfo(init: JsObject): (r: Option<JsObject>)
    requires "localPeerId" in init && "localPeerName" in init
    ensures r.Some? && "id" in r.value && "name" in r.value
    ensures r.value["id"] == init["localPeerId"] && r.value["name"] == init["localPeerName"]
  {
    Some(map["id" := init["localPeerId"], "name" := init["localPeerName"]])
  }

  /** With the corrected page the Device ID box shows the generated id. */
  lemma DeviceIdShown(id: string, name: string)
    requires id != ""
    ensures DeviceIdText(StoredInfo(InitRecord(id, name))) == id
  {
  }

  /** The outcomes of a batch of sends, as they stand. */
  function Outcomes(sends: seq<Transfer>): (r: seq<SendOutcome>)
    reads set t | t in sends
    ensures |r| == |sends| && forall i :: 0 <= i < |sends| ==> r[i] == sends[i].outcome
  {
    seq(|sends|, i requires 0 <= i < |sends| reads sends => sends[i].outcome)
  }

  class IndexPage {
    var isConnected: bool
    var userName: string
    var peers: seq<PeerData>
    var selectedPeerId: string
    var filesToSend: seq<FileToSend>
    var transfers: seq<FileTransferProgress>
    var localPeerInfo: Option<JsObject>
    /** File ids whose 5-second removal timeout is armed and has not fired yet. */
    var pendingRemovals: seq<string>
    /** Whether the 2-second "connected" timeout is armed and has not fired yet. */
    var connectTimerPending: bool
    /** The module-level manager instance the page talks to. */
    const manager: PeerConnectionManager
    /** The tokens of the two listeners the page registers on mount. */
    const peersListener: ListenerId
    const progressListener: ListenerId

    ghost predicate Valid()
      reads this, manager
    {
      manager.Valid() && Unique(transfers)
    }

    /** The initial state of every `useState`. */
    constructor (manager: PeerConnectionManager, peersListener: ListenerId, progressListener: ListenerId)
      requires manager.Valid()
      ensures Valid()
      ensures this.manager == manager && this.peersListener == peersListener && this.progressListener == progressListener
      ensures !isConnected && userName == "" && peers == [] && selectedPeerId == ""
      ensures filesToSend == [] && transfers == [] && localPeerInfo == None
      ensures pendingRemovals == [] && !connectTimerPending
    {
      this.manager := manager;
      this.peersListener := peersListener;
      this.progressListener := progressListener;
      isConnected := false;
      userName := "";
      peers := [];
      selectedPeerId := "";
      filesToSend := [];
      transfers := [];
      localPeerInfo := None;
      pendingRemovals := [];
      connectTimerPending := false;
    }

    /**
     * The mount effect: initialise the manager, record the identity and the
     * name, register both listeners and arm the "connected" timeout.
     */
    method Mount()
      requires Valid()
      modifies this`localPeerInfo, this`userName, this`connectTimerPending
      modifies manager`pendingMockArrivals, manager`onPeersChange, manager`peersLog, manager`onFileProgress
      ensures Valid()
      ensures localPeerInfo == StoredInfo(InitRecord(manager.localPeerId, manager.localPeerName))
      ensures DeviceIdText(localPeerInfo) == manager.localPeerId
      ensures userName == manager.localPeerName
      ensures connectTimerPending
      ensures manager.pendingMockArrivals == old(manager.pendingMockArrivals) + 1
      ensures manager.onPeersChange == Some(peersListener) && manager.onFileProgress == Some(progressListener)
      ensures manager.peersLog ==
        if manager.peers.Size() > 0 then old(manager.peersLog) + [PeersDelivery(peersListener, manager.GetPeers())]
        else old(manager.peersLog)
    {
      ShowIdentity();
      Subscribe();
      connectTimerPending := true;
    }

    /** The first half of the mount effect: `init()`, then the identity shown and the user name set. */
    method ShowIdentity()
      requires Valid()
      modifies this`localPeerInfo, this`userName, manager`pendingMockArrivals
      ensures Valid()
      ensures localPeerInfo == StoredInfo(InitRecord(manager.localPeerId, manager.localPeerName))
      ensures DeviceIdText(localPeerInfo) == manager.localPeerId
      ensures userName == manager.localPeerName
      ensures manager.pendingMockArrivals == old(manager.pendingMockArrivals) + 1
    {
      var info := manager.Init();
      localPeerInfo := StoredInfo(info);
      DeviceIdShown(manager.localPeerId, manager.localPeerName);
      userName := info["localPeerName"];
    }

    /** The second half of the mount effect: both listeners registered with the manager. */
    method Subscribe()
      requires Valid()
      modifies manager`onPeersChange, manager`peersLog, manager`onFileProgress
      ensures Valid()
      ensures manager.onPeersChange == Some(peersListener) && manager.onFileProgress == Some(progressListener)
      ensures manager.peersLog ==
        if manager.peers.Size() > 0 then old(manager.peersLog) + [PeersDelivery(peersListener, manager.GetPeers())]
        else old(manager.peersLog)
    {
      manager.SetOnPeersChangeListener(peersListener);
      manager.SetOnFileProgressListener(progressListener);
    }

    /** The peer listener: store the snapshot and show the page as connected. */
    method OnPeersChange(newPeers: seq<PeerData>)
      modifies this`peers, this`isConnected
      ensures peers == newPeers && isConnected
    {
      peers := newPeers;
      isConnected := true;
    }

    /**
     * The progress listener: upsert the record by file id, and arm a
     * removal timeout when the record is terminal.
     */
    method OnFileProgress(p: FileTransferProgress)
      requires Valid()
      modifies this`transfers, this`pendingRemovals
      ensures Valid()
      ensures transfers == Upsert(old(transfers), p)
      ensures pendingRemovals == old(pendingRemovals) + if p.complete || p.error then [p.fileId] else []
    {
      UpsertUnique(transfers, p);
      transfers := Upsert(transfers, p);
      if p.complete || p.error {
        pendingRemovals := pendingRemovals + [p.fileId];
      }
    }

    /** The removal timeout of `pendingRemovals[i]` fires: every entry with that id goes. */
    method RemovalTimerFires(i: nat)
      requires Valid() && i < |pendingRemovals|
      modifies this`transfers, this`pendingRemovals
      ensures Valid()
      ensures transfers == RemoveTransfer(old(transfers), old(pendingRemovals[i]))
      ensures pendingRemovals == old(pendingRemovals[..i] + pendingRemovals[i + 1..])
    {
      RemoveUnique(transfers, pendingRemovals[i]);
      transfers := RemoveTransfer(transfers, pendingRemovals[i]);
      pendingRemovals := pendingRemovals[..i] + pendingRemovals[i + 1..];
    }

    /** The 2-second timeout fires: the page shows itself connected, with or without peers. */
    method ConnectTimerFires()
      requires connectTimerPending
      modifies this`isConnected, this`connectTimerPending
      ensures isConnected && !connectTimerPending
    {
      isConnected := true;
      connectTimerPending := false;
    }

    /** The effect's cleanup: destroy the manager. */
    method Unmount()
      requires Valid()
      modifies manager`peers
      ensures Valid() && manager.GetPeers() == []
    {
      manager.Destroy();
    }

    /** `handleUserNameChange` */
    method ChangeUserName(value: string)
      modifies this`userName
      ensures userName == value
    {
      userName := value;
    }

    /**
     * `handleUserNameSubmit`: a name that is not blank once trimmed is
     * passed on untrimmed; a blank one changes nothing.
     */
    method SubmitUserName() returns (updated: bool)
      requires Valid()
      modifies manager`localPeerName
      ensures Valid()
      ensures updated <==> Trim(userName) != ""
      ensures manager.localPeerName == if updated then userName else old(manager.localPeerName)
    {
      updated := Trim(userName) != "";
      if updated {
        manager.SetLocalPeerName(userName);
      }
    }

    /**
     * `handleSelectPeer`: the id is selected whether or not it names a
     * known peer; the peer found, if any, is the one the toast names.
     */
    method SelectPeer(peerId: string) returns (found: Option<PeerData>)
      modifies this`selectedPeerId
      ensures selectedPeerId == peerId
      ensures found == FindPeer(peers, peerId)
    {
      selectedPeerId := peerId;
      found := FindPeer(peers, peerId);
    }

    /**
     * `handleFilesSelected`: append the descriptors, send them, and report
     * whether the batch's promise rejects, which shows the failure toast.
     */
    method FilesSelected(files: seq<FileToSend>, fileIdSuffix: nat -> string)
      returns (sends: seq<Transfer>, failed: bool)
      requires Valid()
      modifies this`filesToSend
      ensures Valid()
      ensures filesToSend == old(filesToSend) + files
      ensures |sends| == |files|
      ensures forall i :: 0 <= i < |files| ==> fresh(sends[i]) && sends[i].Valid() && sends[i].file == files[i].file
      ensures failed <==> exists i :: 0 <= i < |files| && files[i].peerId !in manager.peers.entries
    {
      filesToSend := filesToSend + files;
      sends := SendFiles(manager, files, fileIdSuffix);
      var outcomes := Outcomes(sends);
      failed := AllOutcome(outcomes).Rejected?;
      AllOutcomeIff(outcomes);
      if failed {
        var i :| 0 <= i < |outcomes| && outcomes[i].Rejected?;
        assert files[i].peerId !in manager.peers.entries;
      } else {
        forall i | 0 <= i < |files|
          ensures files[i].peerId in manager.peers.entries
        {
          assert !outcomes[i].Rejected?;
        }
      }
    }

    /** `handleDismissTransfer` */
    method DismissTransfer(fileId: string)
      requires Valid()
      modifies this`transfers
      ensures Valid()
      ensures transfers == RemoveTransfer(old(transfers), fileId)
    {
      RemoveUnique(transfers, fileId);
      transfers := RemoveTransfer(transfers, fileId);
    }

    /** The list section is shown only when there is a transfer. */
    function ShowsTransfers(): bool
      reads this
    {
      |transfers| > 0
    }
  }
}
