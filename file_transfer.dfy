/**
 * File helpers: the file-type tag of a file name, the human-readable size
 * of a byte count, the descriptors built from a drop, and the fan-out of
 * one `sendFile` per descriptor.
 */
module FileTransfer {
  import opened Wrappers
  import opened Strings
  import opened PeerConnection

  datatype TransferStatus = StatusPending | Transferring | Completed | Failed

  /** A file the user asked to send (`FileToSend`). */
  datatype FileToSend = FileToSend(id: string, file: FileInfo, peerId: string, progress: nat, status: TransferStatus)

  // ---------------------------------------------------------------------------
  // formatFileSize

  function Pow1024(i: nat): (r: nat)
    ensures r >= 1
  {
    if i == 0 then 1 else 1024 * Pow1024(i - 1)
  }

  lemma {:induction false} Pow1024Monotone(i: nat, j: nat)
    requires i < j
    ensures Pow1024(i + 1) <= Pow1024(j)
    decreases j
  {
    if i + 1 < j {
      Pow1024Monotone(i, j - 1);
    }
  }

  /**
   * `Math.floor(Math.log(bytes) / Math.log(1024))` in exact arithmetic:
   * the `i` with 1024^i <= bytes < 1024^(i+1).
   */
  function UnitIndex(bytes: nat): (i: nat)
    requires bytes > 0
    ensures Pow1024(i) <= bytes < Pow1024(i + 1)
  {
    if bytes < 1024 then 0
    else
      var i := 1 + UnitIndex(bytes / 1024);
      assert 1024 * (bytes / 1024) <= bytes < 1024 * (bytes / 1024 + 1);
      i
  }

  /** The unit index is the only index whose power bracket holds `bytes`. */
  lemma UnitIndexUnique(bytes: nat, i: nat)
    requires bytes > 0 && Pow1024(i) <= bytes < Pow1024(i + 1)
    ensures UnitIndex(bytes) == i
  {
    var j := UnitIndex(bytes);
    if i < j {
      Pow1024Monotone(i, j);
    } else if j < i {
      Pow1024Monotone(j, i);
    }
  }

  const Sizes: seq<string> := ["Bytes", "KB", "MB", "GB", "TB"]

  /** `sizes[i]`; past the end of the table JavaScript reads `undefined`. */
  function UnitName(i: nat): string
  {
    if i < |Sizes| then Sizes[i] else "undefined"
  }

  /** Integer division rounds down: the quotient brackets the dividend. */
  lemma DivBracket(a: nat, b: nat)
    requires b > 0
    ensures b * (a / b) <= a < b * (a / b + 1)
  {
    var q, r := a / b, a % b;
    assert a == b * q + r;
    assert b * (q + 1) == b * q + b;
  }

  /** The multiple of `d` nearest to `a`, counted in steps of `d`: the larger one on a tie. */
  function Nearest(a: nat, d: nat): (h: nat)
    requires d > 0
    ensures 2 * d * h <= 2 * a + d < 2 * d * (h + 1)
  {
    DivBracket(2 * a + d, 2 * d);
    (2 * a + d) / (2 * d)
  }

  lemma MulLe(c: nat, x: nat, y: nat)
    requires x <= y
    ensures c * x <= c * y
  {
  }

  /** When `a` is itself a multiple `q` of `d`, the nearest multiple is `q`. */
  lemma NearestOfMultiple(d: nat, h: nat, q: nat)
    requires d > 0
    requires 2 * d * h <= 2 * d * q + d < 2 * d * (h + 1)
    ensures h == q
  {
    if h > q {
      MulLe(2 * d, q + 1, h);
    } else if h < q {
      MulLe(2 * d, h + 1, q);
    }
  }

  /**
   * `(bytes / 1024^i).toFixed(2)` as a number of hundredths: the nearest
   * hundredth of the exact quotient, the larger one on a tie.
   */
  function Hundredths(bytes: nat, i: nat): nat
  {
    Nearest(100 * bytes, Pow1024(i))
  }

  /** `parseFloat(...)` printed back: a number of hundredths without trailing zeros in its fraction. */
  function TwoDecimalText(h: nat): string
  {
    var whole := Decimal(h / 100);
    var frac := h % 100;
    if frac == 0 then whole
    else if frac % 10 == 0 then whole + "." + [DigitChar(frac / 10)]
    else whole + "." + [DigitChar(frac / 10), DigitChar(frac % 10)]
  }

  /** `formatFileSize(bytes)` */
  function FormatFileSize(bytes: nat): string
  {
    if bytes == 0 then "0 Bytes"
    else
      var i := UnitIndex(bytes);
      TwoDecimalText(Hundredths(bytes, i)) + " " + UnitName(i)
  }

  function DigitValue(c: char): nat
  {
    if '0' <= c <= '9' then c as int - '0' as int else 0
  }

  /** The position of the first '.' of `s`. */
  function DotIndex(s: string): (k: nat)
    requires '.' in s
    ensures k < |s| && s[k] == '.' && '.' !in s[..k]
  {
    if s[0] == '.' then 0
    else
      var k := 1 + DotIndex(s[1..]);
      assert s[..k] == [s[0]] + s[1..][..k - 1];
      k
  }

  /** Reads a number printed by `TwoDecimalText` back as a number of hundredths. */
  function ParseHundredths(s: string): nat
  {
    if '.' in s then
      var k := DotIndex(s);
      var f := s[k + 1..];
      100 * DecimalValue(s[..k])
        + (if |f| >= 1 then 10 * DigitValue(f[0]) else 0)
        + (if |f| >= 2 then DigitValue(f[1]) else 0)
    else 100 * DecimalValue(s)
  }

  lemma NoDotInDecimal(n: nat)
    ensures '.' !in Decimal(n)
  {
    var s := Decimal(n);
    assert forall k :: 0 <= k < |s| ==> s[k] != '.';
  }

  /** A number with a fraction is read as its whole part and up to two fraction digits. */
  lemma ParseWithFraction(whole: string, f: string)
    requires '.' !in whole
    ensures ParseHundredths(whole + "." + f)
      == 100 * DecimalValue(whole)
        + (if |f| >= 1 then 10 * DigitValue(f[0]) else 0)
        + (if |f| >= 2 then DigitValue(f[1]) else 0)
  {
    var s := whole + "." + f;
    assert s[|whole|] == '.';
    var k := DotIndex(s);
    assert s[..k] == whole && s[k + 1..] == f;
  }

  /** Reading back the printed number gives the hundredths it was printed from. */
  lemma TwoDecimalRoundTrip(h: nat)
    ensures ParseHundredths(TwoDecimalText(h)) == h
  {
    var whole := Decimal(h / 100);
    var frac := h % 100;
    NoDotInDecimal(h / 100);
    DecimalRoundTrip(h / 100);
    if frac != 0 {
      var f := if frac % 10 == 0 then [DigitChar(frac / 10)] else [DigitChar(frac / 10), DigitChar(frac % 10)];
      assert TwoDecimalText(h) == whole + "." + f;
      ParseWithFraction(whole, f);
    }
  }

  /** `formatFileSize(0)` is exactly "0 Bytes". */
  lemma FormatZero()
    ensures FormatFileSize(0) == "0 Bytes"
  {
  }

  /** A byte count below 1024 is printed as the integer followed by " Bytes". */
  lemma FormatBytes(bytes: nat)
    requires 1 <= bytes < 1024
    ensures FormatFileSize(bytes) == Decimal(bytes) + " Bytes"
  {
    UnitIndexUnique(bytes, 0);
    FormatExactMultiple(bytes, 0);
  }

  /**
   * For 1024^i <= bytes < 1024^(i+1) the label ends in " " + sizes[i]
   * ("undefined" past the five-entry table), and its number, read back
   * and scaled by 1024^i, is within half a hundredth of the exact size.
   */
  lemma FormatWithinRounding(bytes: nat, i: nat)
    requires bytes > 0 && Pow1024(i) <= bytes < Pow1024(i + 1)
    ensures var text := TwoDecimalText(Hundredths(bytes, i));
      && FormatFileSize(bytes) == text + " " + UnitName(i)
      && (i < 5 ==> UnitName(i) == Sizes[i])
      && 2 * Pow1024(i) * ParseHundredths(text) <= 200 * bytes + Pow1024(i)
      && 200 * bytes + Pow1024(i) < 2 * Pow1024(i) * (ParseHundredths(text) + 1)
  {
    UnitIndexUnique(bytes, i);
    TwoDecimalRoundTrip(Hundredths(bytes, i));
  }

  /** An exact multiple m * 1024^i with 1 <= m < 1024 lies in the bracket of unit i. */
  lemma MultipleInUnit(m: nat, i: nat)
    requires 1 <= m < 1024
    ensures Pow1024(i) <= m * Pow1024(i) < Pow1024(i + 1)
  {
    var d := Pow1024(i);
    MulLe(d, 1, m);
    MulLe(d, m + 1, 1024);
    assert Pow1024(i + 1) == 1024 * d;
  }

  /** The exact multiple m * 1024^i is m units, with no hundredths to round. */
  lemma HundredthsOfMultiple(m: nat, i: nat)
    ensures Hundredths(m * Pow1024(i), i) == 100 * m
  {
    var d := Pow1024(i);
    var h := Hundredths(m * d, i);
    assert 2 * (100 * (m * d)) == 2 * d * (100 * m);
    NearestOfMultiple(d, h, 100 * m);
  }

  /** A whole number of units is printed without a fraction. */
  lemma WholeText(m: nat)
    ensures TwoDecimalText(100 * m) == Decimal(m)
  {
    assert (100 * m) / 100 == m && (100 * m) % 100 == 0;
  }

  /** An exact multiple m * 1024^i with 1 <= m < 1024 is printed as m and the unit of i. */
  lemma FormatExactMultiple(m: nat, i: nat)
    requires 1 <= m < 1024
    ensures FormatFileSize(m * Pow1024(i)) == Decimal(m) + " " + UnitName(i)
  {
    MultipleInUnit(m, i);
    UnitIndexUnique(m * Pow1024(i), i);
    HundredthsOfMultiple(m, i);
    WholeText(m);
  }

  /** One kilobyte exactly reads "1 KB". */
  lemma FormatOneKB()
    ensures FormatFileSize(1024) == "1 KB"
  {
    assert Pow1024(1) == 1024 && Pow1024(2) == 1048576;
    UnitIndexUnique(1024, 1);
    assert Hundredths(1024, 1) == 100;
    WholeText(1);
    assert Decimal(1) == "1";
  }

  /** Half a kilobyte more reads "1.5 KB": the trailing zero of "1.50" is dropped. */
  lemma FormatOneAndAHalfKB()
    ensures FormatFileSize(1536) == "1.5 KB"
  {
    assert Pow1024(1) == 1024 && Pow1024(2) == 1048576;
    UnitIndexUnique(1536, 1);
    assert Hundredths(1536, 1) == 150;
    assert Decimal(1) == "1";
    assert TwoDecimalText(150) == "1.5";
  }

  /** One byte short of a megabyte is still in kilobytes, and rounds up to "1024 KB". */
  lemma FormatJustBelowOneMB()
    ensures FormatFileSize(1048575) == "1024 KB"
  {
    assert Pow1024(1) == 1024 && Pow1024(2) == 1048576;
    UnitIndexUnique(1048575, 1);
    HundredthsJustBelowOneMB();
    WholeText(1024);
    DecimalOf1024();
  }

  /** 1048575 bytes are 102399.90... hundredths of a kilobyte, which round up to 102400. */
  lemma HundredthsJustBelowOneMB()
    ensures Hundredths(1048575, 1) == 102400
  {
    assert Pow1024(1) == 1024;
    var h := Hundredths(1048575, 1);
    assert 2 * 1024 * h <= 2 * 104857500 + 1024 < 2 * 1024 * (h + 1);
  }

  lemma DecimalOf1024()
    ensures Decimal(1024) == "1024"
  {
    assert Decimal(1) == "1";
    assert Decimal(10) == "10";
    assert Decimal(102) == "102";
  }

  // ---------------------------------------------------------------------------
  // getFileTypeIcon

  /** `name.split('.').pop()`: the text after the last '.', or the whole name when it has none. */
  function LastSegment(s: string): (r: string)
    ensures |r| <= |s| && r == s[|s| - |r|..]
    ensures '.' !in r
    ensures |r| < |s| ==> s[|s| - |r| - 1] == '.'
  {
    if s == [] then []
    else if s[|s| - 1] == '.' then []
    else
      var r := LastSegment(s[..|s| - 1]) + [s[|s| - 1]];
      assert s[..|s| - 1][|s| - |r|..] + [s[|s| - 1]] == s[|s| - |r|..];
      r
  }

  const FileText := "file-text"
  const FileSpreadsheet := "file-spreadsheet"
  const FilePresentation := "file-presentation"
  const ImageTag := "image"
  const VideoTag := "video"
  const MusicTag := "music"
  const ArchiveTag := "archive"
  const GenericFile := "file"

  /** The `switch` on the lower-cased extension: the exact extension table, anything else 'file'. */
  function IconForExtension(ext: string): (r: string)
    ensures r in {FileText, FileSpreadsheet, FilePresentation, ImageTag, VideoTag, MusicTag, ArchiveTag, GenericFile}
    ensures r == FileText <==> ext in {"pdf", "doc", "docx"}
    ensures r == FileSpreadsheet <==> ext in {"xls", "xlsx"}
    ensures r == FilePresentation <==> ext in {"ppt", "pptx"}
    ensures r == ImageTag <==> ext in {"jpg", "jpeg", "png", "gif", "bmp", "webp"}
    ensures r == VideoTag <==> ext in {"mp4", "mov", "avi", "mkv"}
    ensures r == MusicTag <==> ext in {"mp3", "wav", "ogg"}
    ensures r == ArchiveTag <==> ext in {"zip", "rar", "7z", "tar", "gz"}
  {
    match ext
    case "pdf" => FileText
    case "doc" => FileText
    case "docx" => FileText
    case "xls" => FileSpreadsheet
    case "xlsx" => FileSpreadsheet
    case "ppt" => FilePresentation
    case "pptx" => FilePresentation
    case "jpg" => ImageTag
    case "jpeg" => ImageTag
    case "png" => ImageTag
    case "gif" => ImageTag
    case "bmp" => ImageTag
    case "webp" => ImageTag
    case "mp4" => VideoTag
    case "mov" => VideoTag
    case "avi" => VideoTag
    case "mkv" => VideoTag
    case "mp3" => MusicTag
    case "wav" => MusicTag
    case "ogg" => MusicTag
    case "zip" => ArchiveTag
    case "rar" => ArchiveTag
    case "7z" => ArchiveTag
    case "tar" => ArchiveTag
    case "gz" => ArchiveTag
    case _ => GenericFile
  }

  /** `getFileTypeIcon(fileName)` */
  function FileTypeIcon(fileName: string): (r: string)
    ensures r in {FileText, FileSpreadsheet, FilePresentation, ImageTag, VideoTag, MusicTag, ArchiveTag, GenericFile}
  {
    IconForExtension(ToLower(LastSegment(fileName)))
  }

  /** Appending a character either ends the last segment at a '.' or extends it. */
  lemma LastSegmentSnoc(p: string, c: char)
    ensures LastSegment(p + [c]) == if c == '.' then [] else LastSegment(p) + [c]
  {
    assert (p + [c])[..|p|] == p;
  }

  /** Lower-casing keeps every '.' where it is, so it commutes with taking the last segment. */
  lemma {:induction false} LastSegmentToLower(s: string)
    ensures LastSegment(ToLower(s)) == ToLower(LastSegment(s))
    decreases |s|
  {
    if s != [] {
      var p, c := s[..|s| - 1], s[|s| - 1];
      assert s == p + [c];
      ToLowerConcat(p, [c]);
      var lc := LowerChar(c);
      assert ToLower(s) == ToLower(p) + [lc];
      LastSegmentSnoc(p, c);
      LastSegmentSnoc(ToLower(p), lc);
      if c != '.' {
        LastSegmentToLower(p);
        ToLowerConcat(LastSegment(p), [c]);
      }
    }
  }

  /** Classification ignores letter case: "A.PDF" and "a.pdf" get the same tag. */
  lemma FileTypeIconCaseInsensitive(fileName: string)
    ensures FileTypeIcon(ToLower(fileName)) == FileTypeIcon(fileName)
  {
    LastSegmentToLower(fileName);
    ToLowerIdempotent(LastSegment(fileName));
  }

  /** A name ending in "." + ext, with no '.' in ext, is classified by ext lower-cased. */
  lemma {:induction false} FileTypeIconOfExtension(base: string, ext: string)
    requires '.' !in ext
    ensures FileTypeIcon(base + "." + ext) == IconForExtension(ToLower(ext))
  {
    var s := base + "." + ext;
    var r := LastSegment(s);
    assert s[|s| - |ext| - 1] == '.';
    assert s[|s| - |ext|..] == ext;
    assert r == ext;
  }

  /** A name without any '.' is classified by the whole name lower-cased. */
  lemma FileTypeIconNoDot(fileName: string)
    requires '.' !in fileName
    ensures FileTypeIcon(fileName) == IconForExtension(ToLower(fileName))
  {
    assert LastSegment(fileName) == fileName;
  }

  // ---------------------------------------------------------------------------
  // handleFileDrop

  /** A `DataTransferItem`: its `kind`, and what `getAsFile()` returns. */
  datatype DataTransferItem = DataTransferItem(kind: string, asFile: Option<FileInfo>)

  /** The drop's `dataTransfer`: `items` and `files` are each either absent or a list. */
  datatype DataTransfer = DataTransfer(items: Option<seq<DataTransferItem>>, files: Option<seq<FileInfo>>)

  /** The files of the items whose kind is 'file' and whose `getAsFile()` is not null, in order. */
  function FileItems(items: seq<DataTransferItem>): (r: seq<FileInfo>)
    ensures |r| <= |items|
  {
    if items == [] then []
    else
      var last := items[|items| - 1];
      FileItems(items[..|items| - 1]) + (if last.kind == "file" && last.asFile.Some? then [last.asFile.value] else [])
  }

  /** The item is of kind 'file' and `getAsFile()` returns `f`. */
  predicate Yields(item: DataTransferItem, f: FileInfo)
  {
    item.kind == "file" && item.asFile == Some(f)
  }

  /** A file is kept exactly when some item of kind 'file' yields it. */
  lemma {:induction false} FileItemsMembership(items: seq<DataTransferItem>, f: FileInfo)
    ensures f in FileItems(items) <==> exists i :: 0 <= i < |items| && Yields(items[i], f)
  {
    if items != [] {
      var init := items[..|items| - 1];
      var last := items[|items| - 1];
      FileItemsMembership(init, f);
      var tail := if last.kind == "file" && last.asFile.Some? then [last.asFile.value] else [];
      assert FileItems(items) == FileItems(init) + tail;
      assert f in tail <==> Yields(last, f);
      if exists i :: 0 <= i < |init| && Yields(init[i], f) {
        var i :| 0 <= i < |init| && Yields(init[i], f);
        assert items[i] == init[i];
      }
      if exists i :: 0 <= i < |items| && Yields(items[i], f) {
        var i :| 0 <= i < |items| && Yields(items[i], f);
        if i < |init| {
          assert init[i] == items[i];
        }
      }
    }
  }

  /** Taking the files of a list of items keeps their order: it distributes over concatenation. */
  lemma {:induction false} FileItemsAppend(a: seq<DataTransferItem>, b: seq<DataTransferItem>)
    ensures FileItems(a + b) == FileItems(a) + FileItems(b)
    decreases |b|
  {
    if b == [] {
      assert a + b == a;
    } else {
      var init := b[..|b| - 1];
      assert (a + b)[..|a + b| - 1] == a + init;
      assert (a + b)[|a + b| - 1] == b[|b| - 1];
      FileItemsAppend(a, init);
    }
  }

  /** The files a drop yields: from `items` when present, otherwise every entry of `files`. */
  function DroppedFiles(dt: DataTransfer): (r: seq<FileInfo>)
    ensures dt.items.Some? ==> |r| <= |dt.items.value|
    ensures dt.items.None? && dt.files.Some? ==> r == dt.files.value
    ensures dt.items.None? && dt.files.None? ==> r == []
  {
    match dt.items
    case Some(items) => FileItems(items)
    case None => if dt.files.Some? then dt.files.value else []
  }

  /** One pending descriptor per file, in order; the k-th gets the random id `file-` + `idSuffix(k)`. */
  function Descriptors(files: seq<FileInfo>, peerId: string, idSuffix: nat -> string): (r: seq<FileToSend>)
    ensures |r| == |files|
    ensures forall k :: 0 <= k < |r| ==>
      r[k] == FileToSend("file-" + idSuffix(k), files[k], peerId, 0, StatusPending)
  {
    seq(|files|, k requires 0 <= k < |files| => FileToSend("file-" + idSuffix(k), files[k], peerId, 0, StatusPending))
  }

  /**
   * `handleFileDrop(e, selectedPeerId)`: walks `items` (or, without them,
   * `files`) and pushes a pending descriptor for the selected peer for each
   * file it keeps.
   */
  method HandleFileDrop(dt: DataTransfer, selectedPeerId: string, idSuffix: nat -> string)
    returns (filesToSend: seq<FileToSend>)
    ensures filesToSend == Descriptors(DroppedFiles(dt), selectedPeerId, idSuffix)
    ensures dt.items.Some? ==> |filesToSend| <= |dt.items.value|
    ensures dt.items.None? && dt.files.Some? ==> |filesToSend| == |dt.files.value|
  {
    filesToSend := [];
    if dt.items.Some? {
      var items := dt.items.value;
      for i := 0 to |items|
        invariant filesToSend == Descriptors(FileItems(items[..i]), selectedPeerId, idSuffix)
      {
        assert items[..i + 1][..i] == items[..i];
        if items[i].kind == "file" {
          var file := items[i].asFile;
          if file.Some? {
            filesToSend := filesToSend + [FileToSend("file-" + idSuffix(|filesToSend|), file.value, selectedPeerId, 0, StatusPending)];
          }
        }
      }
      assert items[..|items|] == items;
    } else if dt.files.Some? {
      var files := dt.files.value;
      for i := 0 to |files|
        invariant filesToSend == Descriptors(files[..i], selectedPeerId, idSuffix)
      {
        filesToSend := filesToSend + [FileToSend("file-" + idSuffix(i), files[i], selectedPeerId, 0, StatusPending)];
      }
      assert files[..|files|] == files;
    }
  }

  // ---------------------------------------------------------------------------
  // sendFiles

  /**
   * The outcome of `Promise.all` over the sends: rejected with the first
   * rejection (every rejection happens at once, in order), resolved when
   * all are resolved, pending otherwise.
   */
  function AllOutcome(outcomes: seq<SendOutcome>): (r: SendOutcome)
    ensures r.Rejected? ==> exists i :: 0 <= i < |outcomes| && outcomes[i] == r && forall j :: 0 <= j < i ==> !outcomes[j].Rejected?
  {
    if outcomes == [] then Resolved
    else if outcomes[0].Rejected? then outcomes[0]
    else
      var rest := AllOutcome(outcomes[1..]);
      if rest.Rejected? then
        var i :| 0 <= i < |outcomes[1..]| && outcomes[1..][i] == rest && forall j :: 0 <= j < i ==> !outcomes[1..][j].Rejected?;
        assert outcomes[i + 1] == rest;
        assert forall j :: 1 <= j < i + 1 ==> outcomes[j] == outcomes[1..][j - 1];
        rest
      else if outcomes[0] == Resolved && rest == Resolved then Resolved
      else Pending
  }

  /** `Promise.all` rejects iff some send rejects, and resolves iff every send resolves. */
  lemma {:induction false} AllOutcomeIff(outcomes: seq<SendOutcome>)
    ensures AllOutcome(outcomes).Rejected? <==> exists i :: 0 <= i < |outcomes| && outcomes[i].Rejected?
    ensures AllOutcome(outcomes) == Resolved <==> forall i :: 0 <= i < |outcomes| ==> outcomes[i] == Resolved
  {
    if outcomes != [] {
      AllOutcomeIff(outcomes[1..]);
      assert forall i :: 1 <= i < |outcomes| ==> outcomes[i] == outcomes[1..][i - 1];
      if exists i :: 1 <= i < |outcomes| && outcomes[i].Rejected? {
        var i :| 1 <= i < |outcomes| && outcomes[i].Rejected?;
        assert outcomes[1..][i - 1].Rejected?;
      }
    }
  }

  /**
   * `sendFiles(files)`: no send for an empty list (the result resolves to
   * []); otherwise one `sendFile(f.peerId, f.file)` per descriptor, in order.
   * Each send draws its own random file id.
   */
  method SendFiles(manager: PeerConnectionManager, files: seq<FileToSend>, fileIdSuffix: nat -> string)
    returns (sends: seq<Transfer>)
    requires manager.Valid()
    ensures |sends| == |files|
    ensures forall i :: 0 <= i < |files| ==>
      && fresh(sends[i]) && sends[i].Valid() && sends[i].ticks == []
      && sends[i].peerId == files[i].peerId && sends[i].file == files[i].file
      && sends[i].outcome == (if files[i].peerId in manager.peers.entries then Pending else Rejected(PeerNotFound))
      && (sends[i].outcome == Pending ==> sends[i].fileId == "file-" + fileIdSuffix(i))
  {
    sends := [];
    if |files| == 0 {
      return;
    }
    for i := 0 to |files|
      invariant |sends| == i
      invariant forall j :: 0 <= j < i ==>
        && fresh(sends[j]) && sends[j].Valid() && sends[j].ticks == []
        && sends[j].peerId == files[j].peerId && sends[j].file == files[j].file
        && sends[j].outcome == (if files[j].peerId in manager.peers.entries then Pending else Rejected(PeerNotFound))
        && (sends[j].outcome == Pending ==> sends[j].fileId == "file-" + fileIdSuffix(j))
    {
      var t := manager.SendFile(files[i].peerId, files[i].file, fileIdSuffix(i));
      sends := sends + [t];
    }
  }
}
