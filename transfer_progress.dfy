/**
 * The transfer list: which entries have been faded in (`visible`), the
 * icon of each entry, and when the list is rendered at all.
 */
module TransferProgress {
  import opened Strings
  import opened PeerConnection
  import opened FileTransfer

  datatype Icon = FileTextIcon | FileSpreadsheetIcon | ImageIcon | VideoIcon | MusicIcon | ArchiveIcon | DefaultFileIcon

  /** The `switch` in `getIcon`: six tags have their own icon, every other tag the default one. */
  function IconForTag(tag: string): Icon
  {
    match tag
    case "file-text" => FileTextIcon
    case "file-spreadsheet" => FileSpreadsheetIcon
    case "image" => ImageIcon
    case "video" => VideoIcon
    case "music" => MusicIcon
    case "archive" => ArchiveIcon
    case _ => DefaultFileIcon
  }

  /** `getIcon(fileName)` */
  function GetIcon(fileName: string): (r: Icon)
    ensures r == DefaultFileIcon <==> FileTypeIcon(fileName) in {GenericFile, FilePresentation}
  {
    var tag := FileTypeIcon(fileName);
    DefaultIconIff(tag);
    IconForTag(tag)
  }

  /**
   * Of the tags `getFileTypeIcon` returns, exactly 'file' and
   * 'file-presentation' get the default icon: presentations have a tag but
   * no icon of their own.
   */
  lemma DefaultIconIff(tag: string)
    requires tag in {FileText, FileSpreadsheet, FilePresentation, ImageTag, VideoTag, MusicTag, ArchiveTag, GenericFile}
    ensures IconForTag(tag) == DefaultFileIcon <==> tag == GenericFile || tag == FilePresentation
  {
  }

  /** A presentation, whatever its case, is shown with the default icon. */
  lemma PresentationGetsDefaultIcon(base: string, ext: string)
    requires ToLower(ext) in {"ppt", "pptx"}
    ensures GetIcon(base + "." + ext) == DefaultFileIcon
  {
    FileTypeIconOfExtension(base, ext);
  }

  /**
   * The `visible` record after the effect's `forEach`: every file id of
   * `transfers` missing from `visible` is added as false, in order.
   */
  function Synced(visible: map<string, bool>, transfers: seq<FileTransferProgress>): (r: map<string, bool>)
    ensures forall k :: k in visible ==> k in r && r[k] == visible[k]
    ensures forall i :: 0 <= i < |transfers| ==> transfers[i].fileId in r
    ensures forall k :: k in r && k !in visible ==> !r[k]
    ensures forall k :: k in r ==> k in visible || exists i :: 0 <= i < |transfers| && transfers[i].fileId == k
  {
    if transfers == [] then visible
    else
      var prev := Synced(visible, transfers[..|transfers| - 1]);
      var id := transfers[|transfers| - 1].fileId;
      if id in prev then prev else prev[id := false]
  }

  /** The file ids whose fade-in timeout the effect arms, in order: one per id it added. */
  function NewIds(visible: map<string, bool>, transfers: seq<FileTransferProgress>): (r: seq<string>)
    ensures |r| <= |transfers|
    ensures forall k :: k in r ==> k !in visible
  {
    if transfers == [] then []
    else
      var init := transfers[..|transfers| - 1];
      var id := transfers[|transfers| - 1].fileId;
      NewIds(visible, init) + (if id in Synced(visible, init) then [] else [id])
  }

  /** The armed timeouts are for exactly the added ids, each once. */
  lemma {:induction false} NewIdsAreAdded(visible: map<string, bool>, transfers: seq<FileTransferProgress>)
    ensures forall k :: k in NewIds(visible, transfers) <==> k in Synced(visible, transfers) && k !in visible
    ensures forall i, j :: 0 <= i < j < |NewIds(visible, transfers)| ==> NewIds(visible, transfers)[i] != NewIds(visible, transfers)[j]
  {
    if transfers != [] {
      NewIdsAreAdded(visible, transfers[..|transfers| - 1]);
    }
  }

  /** The list component's fade-in state. */
  class TransferProgressView {
    var visible: map<string, bool>
    /** The file ids whose 50 ms fade-in timeout is armed and has not fired yet. */
    var pendingReveals: seq<string>

    constructor ()
      ensures visible == map[] && pendingReveals == []
    {
      visible := map[];
      pendingReveals := [];
    }

    /** The effect that runs when `transfers` changes. */
    method SyncVisible(transfers: seq<FileTransferProgress>)
      modifies this
      ensures visible == Synced(old(visible), transfers)
      ensures pendingReveals == old(pendingReveals) + NewIds(old(visible), transfers)
    {
      var newVisible := visible;
      var armed := [];
      for i := 0 to |transfers|
        invariant newVisible == Synced(old(visible), transfers[..i])
        invariant armed == NewIds(old(visible), transfers[..i])
      {
        assert transfers[..i + 1][..i] == transfers[..i];
        var id := transfers[i].fileId;
        if id !in newVisible {
          newVisible := newVisible[id := false];
          armed := armed + [id];
        }
      }
      assert transfers[..|transfers|] == transfers;
      visible := newVisible;
      pendingReveals := pendingReveals + armed;
    }

    /** The fade-in timeout of `pendingReveals[i]` fires: only that id becomes true. */
    method RevealFires(i: nat)
      requires i < |pendingReveals|
      modifies this
      ensures visible == old(visible)[old(pendingReveals)[i] := true]
      ensures forall k :: k in old(visible) && k != old(pendingReveals)[i] ==> k in visible && visible[k] == old(visible)[k]
      ensures pendingReveals == old(pendingReveals[..i] + pendingReveals[i + 1..])
    {
      var id := pendingReveals[i];
      visible := visible[id := true];
      pendingReveals := pendingReveals[..i] + pendingReveals[i + 1..];
    }
  }

  /** Nothing is rendered for an empty list. */
  function IsRendered(transfers: seq<FileTransferProgress>): bool
  {
    |transfers| != 0
  }

  /** The list heading, with the number of transfers. */
  function HeaderText(transfers: seq<FileTransferProgress>): (r: string)
    ensures |r| >= 18 && r[..16] == "File Transfers (" && r[|r| - 1] == ')'
  {
    "File Transfers (" + Decimal(|transfers|) + ")"
  }

  /** The number in the heading, read back, is the number of transfers. */
  lemma HeaderCountsTransfers(transfers: seq<FileTransferProgress>)
    ensures var h := HeaderText(transfers);
      |h| >= 18 && DecimalValue(h[16..|h| - 1]) == |transfers|
  {
    var h := HeaderText(transfers);
    assert h[16..|h| - 1] == Decimal(|transfers|);
    DecimalRoundTrip(|transfers|);
  }
}
