/** The drop zone: the drag highlight, the no-peer guard, and what is forwarded to the page. */
module FileTransferZone {
  import opened Wrappers
  import opened PeerConnection
  import opened FileTransfer

  class FileTransferZone {
    var isDragging: bool
    /** The `selectedPeerId` prop; the empty string means no peer is selected. */
    var selectedPeerId: string

    constructor (selectedPeerId: string)
      ensures !isDragging && this.selectedPeerId == selectedPeerId
    {
      isDragging := false;
      this.selectedPeerId := selectedPeerId;
    }

    /** A new `selectedPeerId` prop from the page; the drag highlight is kept. */
    method SetSelectedPeer(selectedPeerId: string)
      modifies this`selectedPeerId
      ensures this.selectedPeerId == selectedPeerId
    {
      this.selectedPeerId := selectedPeerId;
    }

    /** `handleDragOver` */
    method DragOver()
      modifies this`isDragging
      ensures isDragging
    {
      isDragging := true;
    }

    /** `handleDragLeave` */
    method DragLeave()
      modifies this`isDragging
      ensures !isDragging
    {
      isDragging := false;
    }

    /**
     * `handleDrop`: without a selected peer nothing is forwarded; otherwise
     * the descriptors of `handleFileDrop` are forwarded when there are any.
     * Either way the highlight is turned off.
     */
    method Drop(dt: DataTransfer, idSuffix: nat -> string) returns (forwarded: Option<seq<FileToSend>>)
      modifies this`isDragging
      ensures !isDragging
      ensures selectedPeerId == "" ==> forwarded == None
      ensures selectedPeerId != "" ==>
        var files := Descriptors(DroppedFiles(dt), selectedPeerId, idSuffix);
        forwarded == if |files| > 0 then Some(files) else None
      ensures forwarded.Some? ==> |forwarded.value| > 0
      ensures forwarded.Some? ==> forall k :: 0 <= k < |forwarded.value| ==>
        forwarded.value[k].peerId == selectedPeerId && forwarded.value[k].progress == 0 &&
        forwarded.value[k].status == StatusPending
    {
      if selectedPeerId == "" {
        isDragging := false;
        return None;
      }
      var files := HandleFileDrop(dt, selectedPeerId, idSuffix);
      isDragging := false;
      forwarded := if |files| > 0 then Some(files) else None;
    }

    /**
     * `handleFileInputChange`: without a selected peer nothing is forwarded;
     * otherwise one pending descriptor per chosen file, in order, when at
     * least one file was chosen.
     */
    method FileInputChange(chosen: Option<seq<FileInfo>>, idSuffix: nat -> string)
      returns (forwarded: Option<seq<FileToSend>>)
      ensures selectedPeerId == "" || chosen.None? || chosen.value == [] <==> forwarded == None
      ensures forwarded.Some? ==>
        |forwarded.value| == |chosen.value| &&
        forall k :: 0 <= k < |forwarded.value| ==>
          forwarded.value[k] == FileToSend("file-" + idSuffix(k), chosen.value[k], selectedPeerId, 0, StatusPending)
    {
      if selectedPeerId == "" {
        return None;
      }
      if chosen.Some? && |chosen.value| > 0 {
        return Some(Descriptors(chosen.value, selectedPeerId, idSuffix));
      }
      return None;
    }

    /** A click on the zone opens the file picker only when a peer is selected. */
    method Click() returns (opensPicker: bool)
      ensures opensPicker <==> selectedPeerId != ""
    {
      opensPicker := selectedPeerId != "";
    }
  }
}
