/**
 * The destination side of the recovery engine: the directory the user
 * picked, as a map from document name to content, and the repair
 * strategies that write into it (`createDestFile`, `safeCopyWithDigest`,
 * `repairImageToJpeg`, `remuxVideoMp4`, `remuxAudioContainer`,
 * `repairPdfBasic`, `salvageZipLike`, `repairBestEffort`).
 *
 * Each operation is a method of `DestDir` that changes the map, and is
 * specified by a function from the old map and the platform's answers to an
 * `Outcome`: the new map and the document handle returned (`None` for a
 * null `Uri`). A handle is the name of the document in the directory.
 */
module Destination {
  import opened Common
  import opened Text
  import opened Classify
  import opened Engine
  import opened Streams
  import opened Zip

  /** The content of a document: plain bytes, or the entries of a written archive. */
  datatype Body = Bytes(data: seq<byte>) | ZipBody(entries: seq<OutEntry>)

  /** The directory after an operation, and the handle it returned. */
  datatype Outcome = Outcome(files: map<string, Body>, result: Option<string>)

  /** What `renameDocument` does: returns the renamed handle, returns null, or throws. */
  datatype Rename = Renamed | RenameNull | RenameThrows

  /**
   * The platform's answers to the calls a copy makes: whether `createFile`
   * returns a document, whether `openOutputStream` returns a stream, and
   * what the rename does.
   */
  datatype CopyIo = CopyIo(createOk: bool, outStreamOk: bool, rename: Rename)

  /**
   * What the muxer leaves behind: the bytes written to the output and
   * whether `remuxVideoMp4` reached its end without an exception.
   */
  datatype Remux = Remux(written: seq<byte>, ok: bool)

  /** Every name outside `names` is equally present, with equal content, in both maps. */
  ghost predicate SameExcept(a: map<string, Body>, b: map<string, Body>, names: set<string>) {
    forall n :: n !in names ==> (n in a <==> n in b) && (n in a ==> a[n] == b[n])
  }

  // ---------------------------------------------------------------------
  // Specification functions

  /**
   * `createDestFile`: nothing happens when the tree cannot be opened;
   * otherwise a document of that name is deleted, and a new empty one is
   * created unless `createFile` fails.
   */
  function Create(reachable: bool, files: map<string, Body>, name: string, createOk: bool): Outcome {
    if !reachable then Outcome(files, None)
    else if createOk then Outcome(files[name := Bytes([])], Some(name))
    else Outcome(files - {name}, None)
  }

  /**
   * `safeCopyWithDigest`: the bytes are copied into `outName.part`, which is
   * then renamed to `outName`. A missing input or output stream skips the
   * copy and leaves the part file empty; a failing read ends the call with
   * null and leaves the bytes copied so far in the part file. The digest is
   * computed and never compared with anything.
   */
  function SafeCopy(reachable: bool, files: map<string, Body>, src: Option<seq<Read>>,
                    outName: string, io: CopyIo): Outcome
  {
    var part := PartName(outName);
    var c := Create(reachable, files, part, io.createOk);
    if c.result.None? then c
    else
      var copied := src.Some? && io.outStreamOk;
      var data := if copied then Delivered(src.value) else [];
      var written := c.files[part := Bytes(data)];
      if copied && Fail in src.value then Outcome(written, None)
      else match io.rename
        case Renamed => Outcome((written - {part})[outName := Bytes(data)], Some(outName))
        case RenameNull => Outcome(written, Some(part))
        case RenameThrows => Outcome(written, None)
  }

  /**
   * `repairImageToJpeg`: `jpeg` is the output of decoding the source and
   * compressing it to JPEG, `None` when the source stream is missing or does
   * not decode; then the empty output file stays and the result is null.
   */
  function RepairImage(reachable: bool, files: map<string, Body>, displayName: Option<string>,
                       createOk: bool, jpeg: Option<seq<byte>>, outStreamOk: bool): Outcome
  {
    var name := FixedName(ReencodeJpeg, displayName);
    var c := Create(reachable, files, name, createOk);
    if c.result.None? then c
    else if jpeg.None? then Outcome(c.files, None)
    else Outcome(c.files[name := Bytes(if outStreamOk then jpeg.value else [])], Some(name))
  }

  /** `remuxVideoMp4`: the output keeps what the muxer wrote, even when it failed. */
  function RemuxVideo(reachable: bool, files: map<string, Body>, displayName: Option<string>,
                      createOk: bool, remux: Remux): Outcome
  {
    var name := FixedName(RemuxMp4, displayName);
    var c := Create(reachable, files, name, createOk);
    if c.result.None? then c
    else Outcome(c.files[name := Bytes(remux.written)], if remux.ok then Some(name) else None)
  }

  /** `remuxAudioContainer`: null when the audio probe fails, else a copy under `*_fixed.m4a`. */
  function RemuxAudio(reachable: bool, files: map<string, Body>, displayName: Option<string>,
                      audioOk: bool, src: Option<seq<Read>>, io: CopyIo): Outcome
  {
    if !audioOk then Outcome(files, None)
    else SafeCopy(reachable, files, src, FixedName(RelabelAudio, displayName), io)
  }

  /** `repairPdfBasic`: null when the PDF probe fails, else a copy under `*_fixed.pdf`. */
  function RepairPdf(reachable: bool, files: map<string, Body>, displayName: Option<string>,
                     pdfOk: bool, src: Option<seq<Read>>, io: CopyIo): Outcome
  {
    if !pdfOk then Outcome(files, None)
    else SafeCopy(reachable, files, src, FixedName(CheckPdf, displayName), io)
  }

  /** Whether the salvage loop runs to its normal end. */
  predicate SalvageCompletes(src: ZipSource) {
    !src.endFails && forall j :: 0 <= j < |src.entries| ==> !src.entries[j].closeFails
  }

  /**
   * `salvageZipLike`: a missing input or output stream leaves an empty
   * output and still returns it. Otherwise the output archive holds the
   * entries salvaged up to the point the loop stopped, and the call returns
   * null unless the loop ran to its end.
   */
  function Salvage(reachable: bool, files: map<string, Body>, displayName: Option<string>,
                   src: Option<ZipSource>, createOk: bool, outStreamOk: bool): Outcome
  {
    var name := FixedName(SalvageZip, displayName);
    var c := Create(reachable, files, name, createOk);
    if c.result.None? || src.None? || !outStreamOk then c
    else
      var es := src.value.entries;
      Outcome(c.files[name := ZipBody(Salvaged(es[..SalvageStop(es)]))],
              if SalvageCompletes(src.value) then Some(name) else None)
  }

  /** Everything the platform answers during one repair. */
  datatype Platform = Platform(
    displayName: Option<string>,  // queryName(src)
    source: Option<seq<Read>>,    // openInputStream(src): the reads, or null
    zipSource: Option<ZipSource>, // the same stream seen through ZipInputStream
    io: CopyIo,
    jpeg: Option<seq<byte>>,
    remux: Remux,
    audioOk: bool,                // probeAudio
    pdfOk: bool)                  // probePdf

  /** `repairBestEffort`: the outcome of the strategy chosen for the item. */
  function Repair(reachable: bool, files: map<string, Body>, item: Item, pf: Platform): Outcome {
    match StrategyFor(item)
    case ReencodeJpeg => RepairImage(reachable, files, pf.displayName, pf.io.createOk, pf.jpeg, pf.io.outStreamOk)
    case RemuxMp4 => RemuxVideo(reachable, files, pf.displayName, pf.io.createOk, pf.remux)
    case RelabelAudio => RemuxAudio(reachable, files, pf.displayName, pf.audioOk, pf.source, pf.io)
    case CheckPdf => RepairPdf(reachable, files, pf.displayName, pf.pdfOk, pf.source, pf.io)
    case SalvageZip => Salvage(reachable, files, pf.displayName, pf.zipSource, pf.io.createOk, pf.io.outStreamOk)
    case PlainCopy => SafeCopy(reachable, files, pf.source, item.name, pf.io)
  }

  /** The name a strategy writes its result under. */
  function OutputName(item: Item, pf: Platform): string {
    var s := StrategyFor(item);
    if s == PlainCopy then item.name else FixedName(s, pf.displayName)
  }

  // ---------------------------------------------------------------------
  // Properties of the specification

  /**
   * `createDestFile` removes any document of the target name, leaves every
   * other document alone, and returns a handle exactly when it created the
   * (empty) document.
   */
  lemma CreateSpec(reachable: bool, files: map<string, Body>, name: string, createOk: bool)
    ensures var c := Create(reachable, files, name, createOk);
      SameExcept(files, c.files, {name})
      && (c.result.Some? <==> reachable && createOk)
      && (c.result.Some? ==> c.result.value == name && c.files[name] == Bytes([]))
      && (reachable && !createOk ==> name !in c.files)
      && (!reachable ==> c.files == files)
  {
  }

  /** A copy touches only `outName` and its part file. */
  lemma SafeCopyFrame(reachable: bool, files: map<string, Body>, src: Option<seq<Read>>,
                      outName: string, io: CopyIo)
    ensures SameExcept(files, SafeCopy(reachable, files, src, outName, io).files,
                       {outName, PartName(outName)})
  {
  }

  /**
   * A returned handle names a document holding every byte the source
   * delivered (nothing when there was no source stream or no output
   * stream), and the source had no failing read.
   */
  lemma SafeCopyResult(reachable: bool, files: map<string, Body>, src: Option<seq<Read>>,
                       outName: string, io: CopyIo)
    requires SafeCopy(reachable, files, src, outName, io).result.Some?
    ensures var o := SafeCopy(reachable, files, src, outName, io);
      o.result.value in {outName, PartName(outName)}
      && o.result.value in o.files
      && (src.Some? && io.outStreamOk ==> Fail !in src.value && o.files[o.result.value] == Bytes(Delivered(src.value)))
      && (src.None? || !io.outStreamOk ==> o.files[o.result.value] == Bytes([]))
      && (o.result.value == outName ==> PartName(outName) !in o.files)
  {
  }

  /**
   * When the copy does not end under `outName`, a document already named
   * `outName` is left exactly as it was.
   */
  lemma SafeCopyKeepsOutNameOnFailure(reachable: bool, files: map<string, Body>, src: Option<seq<Read>>,
                                      outName: string, io: CopyIo)
    requires SafeCopy(reachable, files, src, outName, io).result != Some(outName)
    ensures var o := SafeCopy(reachable, files, src, outName, io);
      (outName in o.files <==> outName in files) && (outName in files ==> o.files[outName] == files[outName])
  {
  }

  /** A failing read leaves the bytes before it in the part file and returns null. */
  lemma SafeCopyFailureKeepsPartial(reachable: bool, files: map<string, Body>, src: seq<Read>,
                                    outName: string, io: CopyIo)
    requires reachable && io.createOk && io.outStreamOk && Fail in src
    ensures var o := SafeCopy(reachable, files, Some(src), outName, io);
      o.result == None && o.files[PartName(outName)] == Bytes(Delivered(src))
  {
  }

  /** Without a source stream the copy still renames an empty file into place. */
  lemma SafeCopyWithoutSource(files: map<string, Body>, outName: string, outStreamOk: bool)
    ensures SafeCopy(true, files, None, outName, CopyIo(true, outStreamOk, Renamed)) ==
      Outcome((files - {PartName(outName)})[outName := Bytes([])], Some(outName))
  {
  }

  /** A failed probe makes the audio and PDF strategies return null without touching the directory. */
  lemma ProbeFailureChangesNothing(reachable: bool, files: map<string, Body>, displayName: Option<string>,
                                   src: Option<seq<Read>>, io: CopyIo)
    ensures RemuxAudio(reachable, files, displayName, false, src, io) == Outcome(files, None)
    ensures RepairPdf(reachable, files, displayName, false, src, io) == Outcome(files, None)
  {
  }

  /** With a passing probe, the audio and PDF strategies are copies under their fixed names. */
  lemma ProbePassIsCopy(reachable: bool, files: map<string, Body>, displayName: Option<string>,
                        src: Option<seq<Read>>, io: CopyIo)
    ensures RemuxAudio(reachable, files, displayName, true, src, io) ==
      SafeCopy(reachable, files, src, FixedName(RelabelAudio, displayName) , io)
    ensures RepairPdf(reachable, files, displayName, true, src, io) ==
      SafeCopy(reachable, files, src, FixedName(CheckPdf, displayName), io)
    ensures EndsWith(FixedName(RelabelAudio, displayName), "_fixed.m4a")
    ensures EndsWith(FixedName(CheckPdf, displayName), "_fixed.pdf")
  {
    FixedNameShape(RelabelAudio, displayName);
    FixedNameShape(CheckPdf, displayName);
  }

  /**
   * A salvage returns null exactly when the directory or the output
   * document cannot be had, or the entry loop was cut short by an error; in
   * the last case the entries salvaged before the error stay in the output.
   */
  lemma SalvageResult(reachable: bool, files: map<string, Body>, displayName: Option<string>,
                      src: Option<ZipSource>, createOk: bool, outStreamOk: bool)
    ensures var o := Salvage(reachable, files, displayName, src, createOk, outStreamOk);
      var name := FixedName(SalvageZip, displayName);
      SameExcept(files, o.files, {name})
      && (o.result.Some? <==>
            reachable && createOk && (src.None? || !outStreamOk || SalvageCompletes(src.value)))
      && (o.result.Some? ==> o.result.value == name)
      && (reachable && createOk && src.Some? && outStreamOk ==>
            o.files[name] == ZipBody(Salvaged(src.value.entries[..SalvageStop(src.value.entries)])))
  {
  }

  /**
   * A complete salvage of an archive with distinct entry names keeps every
   * entry, in order, each with the bytes read before its data ended or its
   * first failing read.
   */
  lemma SalvageKeepsEveryEntry(files: map<string, Body>, displayName: Option<string>, src: ZipSource)
    requires SalvageCompletes(src)
    requires forall a, b :: 0 <= a < b < |src.entries| ==> src.entries[a].name != src.entries[b].name
    ensures var o := Salvage(true, files, displayName, Some(src), true, true);
      var name := FixedName(SalvageZip, displayName);
      o.result == Some(name)
      && o.files[name].ZipBody?
      && |o.files[name].entries| == |src.entries|
      && forall i :: 0 <= i < |src.entries| ==>
           o.files[name].entries[i] == OutEntry(src.entries[i].name, EntryBytes(src.entries[i].data))
  {
    var es := src.entries;
    NoStop(es);
    assert es[..SalvageStop(es)] == es;
    SalvagedKeepsDistinctEntries(es);
  }

  /**
   * A repair changes at most its output document and that document's part
   * file, and a returned handle names a document of the directory.
   */
  lemma RepairFrame(reachable: bool, files: map<string, Body>, item: Item, pf: Platform)
    ensures var o := Repair(reachable, files, item, pf);
      SameExcept(files, o.files, {OutputName(item, pf), PartName(OutputName(item, pf))})
      && (o.result.Some? ==> o.result.value in o.files)
      && (o.result.Some? ==> o.result.value in {OutputName(item, pf), PartName(OutputName(item, pf))})
  {
    var s := StrategyFor(item);
    var out := OutputName(item, pf);
    if s == RelabelAudio || s == CheckPdf || s == PlainCopy {
      SafeCopyFrame(reachable, files, pf.source, out, pf.io);
      if Repair(reachable, files, item, pf).result.Some? {
        SafeCopyResult(reachable, files, pf.source, out, pf.io);
      }
    }
  }

  /**
   * Documents and unknown files are copied under the item's own name; a
   * successful copy is a byte-exact copy of the source.
   */
  lemma PlainCopyUnderOwnName(reachable: bool, files: map<string, Body>, item: Item, pf: Platform)
    requires item.kind == Other || (item.kind == Doc && !EndsWithIgnoreCase(item.name, ".pdf"))
    requires Repair(reachable, files, item, pf).result == Some(item.name)
    requires pf.source.Some? && pf.io.outStreamOk
    ensures Repair(reachable, files, item, pf).files[item.name] == Bytes(Delivered(pf.source.value))
    ensures Fail !in pf.source.value
  {
    SafeCopyResult(reachable, files, pf.source, item.name, pf.io);
  }

  // ---------------------------------------------------------------------
  // The directory

  /** The destination tree: `reachable` is whether `DocumentFile.fromTreeUri` opens it. */
  class DestDir {
    const reachable: bool
    var files: map<string, Body>

    constructor (reachable: bool, files: map<string, Body>)
      ensures this.reachable == reachable && this.files == files
    {
      this.reachable := reachable;
      this.files := files;
    }

    /** `createDestFile(destDir, mime, name)`. */
    method CreateDestFile(name: string, createOk: bool) returns (r: Option<string>)
      modifies this
      ensures Outcome(files, r) == Create(reachable, old(files), name, createOk)
    {
      if !reachable {
        return None;
      }
      if name in files {
        files := files - {name};
      }
      if !createOk {
        return None;
      }
      files := files[name := Bytes([])];
      return Some(name);
    }

    /** `safeCopyWithDigest(src, destDir, outName)`. */
    method SafeCopyWithDigest(src: Option<seq<Read>>, outName: string, io: CopyIo) returns (r: Option<string>)
      modifies this
      ensures Outcome(files, r) == SafeCopy(reachable, old(files), src, outName, io)
    {
      var part := PartName(outName);
      var tmp := CreateDestFile(part, io.createOk);
      if tmp.None? {
        return None;
      }
      var md := new Digest();
      var data: seq<byte> := [];
      if src.Some? && io.outStreamOk {
        var out := new Sink();
        var failed := CopyStreamDigest(src.value, out, md);
        data := out.written;
        assert data == Delivered(src.value);
        files := files[part := Bytes(data)];
        assert files == Create(reachable, old(files), part, io.createOk).files[part := Bytes(data)];
        if failed {
          return None;
        }
      }
      assert files == files[part := Bytes(data)];
      ghost var copied := src.Some? && io.outStreamOk;
      assert data == if copied then Delivered(src.value) else [];
      assert files == Create(reachable, old(files), part, io.createOk).files[part := Bytes(data)];
      match io.rename
      case Renamed =>
        files := (files - {part})[outName := Bytes(data)];
        return Some(outName);
      case RenameNull =>
        return Some(part);
      case RenameThrows =>
        return None;
    }

    /** `repairImageToJpeg(src, destDir)`. */
    method RepairImageToJpeg(displayName: Option<string>, createOk: bool, jpeg: Option<seq<byte>>,
                             outStreamOk: bool) returns (r: Option<string>)
      modifies this
      ensures Outcome(files, r) == RepairImage(reachable, old(files), displayName, createOk, jpeg, outStreamOk)
    {
      var name := BaseName(displayName.GetOr("image")) + "_fixed.jpg";
      ImageNameForm(displayName);
      var outDoc := CreateDestFile(name, createOk);
      if outDoc.None? || jpeg.None? {
        return None;
      }
      if outStreamOk {
        files := files[name := Bytes(jpeg.value)];
      }
      return outDoc;
    }

    /** `remuxVideoMp4(src, destDir)`. */
    method RemuxVideoMp4(displayName: Option<string>, createOk: bool, remux: Remux) returns (r: Option<string>)
      modifies this
      ensures Outcome(files, r) == RemuxVideo(reachable, old(files), displayName, createOk, remux)
    {
      var name := FixedName(RemuxMp4, displayName);
      var outDoc := CreateDestFile(name, createOk);
      if outDoc.None? {
        return None;
      }
      files := files[name := Bytes(remux.written)];
      if !remux.ok {
        return None;
      }
      return outDoc;
    }

    /** `remuxAudioContainer(src, destDir)`. */
    method RemuxAudioContainer(displayName: Option<string>, audioOk: bool, src: Option<seq<Read>>,
                               io: CopyIo) returns (r: Option<string>)
      modifies this
      ensures Outcome(files, r) == RemuxAudio(reachable, old(files), displayName, audioOk, src, io)
    {
      if !audioOk {
        return None;
      }
      r := SafeCopyWithDigest(src, FixedName(RelabelAudio, displayName), io);
    }

    /** `repairPdfBasic(src, destDir)`. */
    method RepairPdfBasic(displayName: Option<string>, pdfOk: bool, src: Option<seq<Read>>,
                          io: CopyIo) returns (r: Option<string>)
      modifies this
      ensures Outcome(files, r) == RepairPdf(reachable, old(files), displayName, pdfOk, src, io)
    {
      if !pdfOk {
        return None;
      }
      r := SafeCopyWithDigest(src, FixedName(CheckPdf, displayName), io);
    }

    /** `salvageZipLike(src, destDir)`. */
    method SalvageZipLike(displayName: Option<string>, src: Option<ZipSource>, createOk: bool,
                          outStreamOk: bool) returns (r: Option<string>)
      modifies this
      ensures Outcome(files, r) == Salvage(reachable, old(files), displayName, src, createOk, outStreamOk)
    {
      var name := FixedName(SalvageZip, displayName);
      var out := CreateDestFile(name, createOk);
      if out.None? {
        return None;
      }
      if src.Some? && outStreamOk {
        var zos := new ZipSink();
        var ok := SalvageEntries(src.value, zos);
        files := files[name := ZipBody(zos.written)];
        if !ok {
          return None;
        }
      }
      return out;
    }

    /** `repairBestEffort(src, destDir)`. */
    method RepairBestEffort(item: Item, pf: Platform) returns (r: Option<string>)
      modifies this
      ensures Outcome(files, r) == Repair(reachable, old(files), item, pf)
    {
      match StrategyFor(item)
      case ReencodeJpeg =>
        r := RepairImageToJpeg(pf.displayName, pf.io.createOk, pf.jpeg, pf.io.outStreamOk);
      case RemuxMp4 =>
        r := RemuxVideoMp4(pf.displayName, pf.io.createOk, pf.remux);
      case RelabelAudio =>
        r := RemuxAudioContainer(pf.displayName, pf.audioOk, pf.source, pf.io);
      case CheckPdf =>
        r := RepairPdfBasic(pf.displayName, pf.pdfOk, pf.source, pf.io);
      case SalvageZip =>
        r := SalvageZipLike(pf.displayName, pf.zipSource, pf.io.createOk, pf.io.outStreamOk);
      case PlainCopy =>
        r := SafeCopyWithDigest(pf.source, item.name, pf.io);
    }
  }
}
