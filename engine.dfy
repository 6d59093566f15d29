/**
 * The pure decision logic of the recovery engine: the `Item` record, the
 * volume-id parser for tree URIs, the health report of `detectCorruption`
 * (with `probeDocument`'s dispatch by extension), the choice of repair
 * strategy in `repairBestEffort`, and the output names the strategies write.
 * The platform probes themselves (bitmap bounds, extractor, metadata, PDF
 * renderer, zip walk, bounded reads) are boolean inputs.
 */
module Engine {
  import opened Common
  import opened Text
  import opened Classify

  /** A recovered-file descriptor; `uri` is the URI's string form. */
  datatype Item = Item(
    uri: string,
    name: string,
    mime: Option<string>,
    size: int,
    volumeId: Option<string>,
    kind: Kind,
    isTrashed: bool)

  // ---------------------------------------------------------------------
  // extractVolumeId

  const TreeMarker: string := "documents/tree/"

  /** What follows the first `documents/tree/` in `s` (requires that it occurs). */
  function TreeTail(s: string): string
    requires Contains(s, TreeMarker)
  {
    s[IndexOf(s, TreeMarker) + |TreeMarker|..]
  }

  /** The tail cut at the first `%3A`, then at the first `:`. */
  function VolumeCandidate(tail: string): string {
    SubstringBefore(SubstringBefore(tail, "%3A"), ":")
  }

  /**
   * `extractVolumeId`: the volume id named by a tree URI, or `None` when the
   * URI has no `documents/tree/` or the candidate holds no `-`.
   */
  function ExtractVolumeId(s: string): (r: Option<string>)
    ensures !Contains(s, TreeMarker) ==> r == None
    ensures Contains(s, TreeMarker) ==>
      (r.Some? <==> '-' in VolumeCandidate(TreeTail(s)))
    ensures r.Some? ==> Contains(s, TreeMarker) && r.value == VolumeCandidate(TreeTail(s))
    ensures r.Some? ==> '-' in r.value
  {
    var idx := IndexOf(s, TreeMarker);
    if idx >= 0 then
      var tail := s[idx + |TreeMarker|..];
      var vol := SubstringBefore(SubstringBefore(tail, "%3A"), ":");
      ContainsChar(vol, '-');
      if Contains(vol, "-") then Some(vol) else None
    else None
  }

  /**
   * The volume id is what follows the marker up to the first `%3A` or `:`,
   * whichever comes first: a prefix of the tail holding neither, which is
   * followed by `:`, by `%3A`, or by nothing at all.
   */
  lemma {:induction false} VolumeIdShape(s: string)
    requires ExtractVolumeId(s).Some?
    ensures Contains(s, TreeMarker)
    ensures var t, id := TreeTail(s), ExtractVolumeId(s).value;
      StartsWith(t, id)
      && !Contains(id, "%3A") && ':' !in id
      && (forall j :: 0 <= j < |id| ==> !OccursAt(t, "%3A", j) && t[j] != ':')
      && (|id| == |t| || t[|id|] == ':' || OccursAt(t, "%3A", |id|))
  {
    var tail := TreeTail(s);
    var first := SubstringBefore(tail, "%3A");
    var vol := SubstringBefore(first, ":");
    assert ExtractVolumeId(s).value == vol;
    SubstringBeforeSpec(tail, "%3A");
    SubstringBeforeSpec(first, ":");
    ContainsChar(vol, ':');
    ContainsChar(first, ':');
    AbsentFromPrefix(first, "%3A", |vol|);
    assert first[..|vol|] == vol;
    assert tail[..|first|] == first;
    forall j | 0 <= j < |vol| ensures !OccursAt(tail, "%3A", j) && tail[j] != ':' {
      assert tail[j] == first[j] == vol[j];
    }
    if ':' in first {
      assert first[|vol|..|vol| + 1] == ":";
      assert tail[|vol|] == first[|vol|];
    } else if Contains(tail, "%3A") {
      assert vol == first;
    } else {
      assert vol == first == tail;
    }
  }

  // ---------------------------------------------------------------------
  // detectCorruption, probeDocument

  /** The outcome of each platform probe for one file. */
  datatype Probes = Probes(
    image: bool,    // probeImage: bitmap bounds both positive
    video: bool,    // probeVideo: a track exists and its first sample reads
    audio: bool,    // probeAudio: duration metadata is present
    pdf: bool,      // probePdf: the renderer reports a page
    text: bool,     // probeText: a bounded read succeeds
    zip: bool,      // probeZipLike: the entries walk to the end
    generic: bool)  // probeGeneric: a bounded read succeeds

  /** Which probe `probeDocument` runs for a document. */
  datatype DocProbe = PdfProbe | TextProbe | ZipProbe | GenericProbe

  /** `probeDocument`'s dispatch on the lower-cased name. */
  function DocProbeFor(name: string): (p: DocProbe)
    ensures p == PdfProbe <==> EndsWith(Lower(name), ".pdf")
    ensures p == TextProbe <==>
      !EndsWith(Lower(name), ".pdf") && (EndsWith(Lower(name), ".txt") || EndsWith(Lower(name), ".csv"))
    ensures p == ZipProbe <==>
      !EndsWith(Lower(name), ".pdf") && !(EndsWith(Lower(name), ".txt") || EndsWith(Lower(name), ".csv"))
      && (EndsWith(Lower(name), ".docx") || EndsWith(Lower(name), ".xlsx") || EndsWith(Lower(name), ".pptx"))
    ensures p == GenericProbe <==>
      !EndsWith(Lower(name), ".pdf") && !(EndsWith(Lower(name), ".txt") || EndsWith(Lower(name), ".csv"))
      && !(EndsWith(Lower(name), ".docx") || EndsWith(Lower(name), ".xlsx") || EndsWith(Lower(name), ".pptx"))
  {
    var n := Lower(name);
    if EndsWith(n, ".pdf") then PdfProbe
    else if EndsWith(n, ".txt") || EndsWith(n, ".csv") then TextProbe
    else if EndsWith(n, ".docx") || EndsWith(n, ".xlsx") || EndsWith(n, ".pptx") then ZipProbe
    else GenericProbe
  }

  /** `probeDocument`: the outcome of the probe chosen for the item's name. */
  function ProbeDocument(item: Item, p: Probes): bool {
    match DocProbeFor(item.name)
    case PdfProbe => p.pdf
    case TextProbe => p.text
    case ZipProbe => p.zip
    case GenericProbe => p.generic
  }

  /** Whether the probe for the item's kind passes. */
  function ProbePasses(item: Item, p: Probes): bool {
    match item.kind
    case Image => p.image
    case Video => p.video
    case Audio => p.audio
    case Doc => ProbeDocument(item, p)
    case Archive => p.zip
    case Other => p.generic
  }

  /** `CorruptReport`; `volumeId` defaults to the item's. */
  datatype CorruptReport = CorruptReport(
    item: Item,
    reason: string,
    fixable: bool,
    volumeId: Option<string>)

  /** The constructor call with `volumeId` left to its default. */
  function Report(item: Item, reason: string, fixable: bool): (r: CorruptReport)
    ensures r.item == item && r.reason == reason && r.fixable == fixable
    ensures r.volumeId == item.volumeId
  {
    CorruptReport(item, reason, fixable, item.volumeId)
  }

  const ImageReason: string := "อ่านรูปไม่ได้/ข้อมูลไม่ครบ"
  const VideoReason: string := "วิดีโออ่าน track ไม่ได้หรือข้อมูลผิดรูป"
  const AudioReason: string := "เสียงอ่าน metadata/สตรีมไม่ได้"
  const DocReason: string := "เอกสารเสียหรือเปิดไม่ได้"
  const ArchiveReason: string := "ไฟล์บีบอัดเสีย/entry เสียหาย"
  const OtherReason: string := "ไฟล์อาจเสีย (อ่านไม่ได้)"
  const CheckErrorReason: string := "ข้อผิดพลาดขณะตรวจสอบ"

  /** Kinds for which the repair dispatcher has a strategy beyond a plain copy. */
  predicate IsFixableKind(k: Kind) {
    k in {Image, Video, Audio, Archive}
  }

  /**
   * `detectCorruption`: `None` when the kind's probe passes, otherwise a
   * report with the kind's reason. `threw` stands for a throwable escaping
   * the probing, which yields the "error during check" report.
   */
  function DetectCorruption(item: Item, p: Probes, threw: bool): (r: Option<CorruptReport>)
    ensures threw ==> r == Some(Report(item, CheckErrorReason, false))
    ensures !threw ==> (r.None? <==> ProbePasses(item, p))
    ensures r.Some? ==> r.value.item == item && r.value.volumeId == item.volumeId
    ensures !threw && r.Some? ==> r.value.fixable == IsFixableKind(item.kind)
  {
    if threw then Some(Report(item, CheckErrorReason, false))
    else match item.kind
      case Image => if !p.image then Some(Report(item, ImageReason, true)) else None
      case Video => if !p.video then Some(Report(item, VideoReason, true)) else None
      case Audio => if !p.audio then Some(Report(item, AudioReason, true)) else None
      case Doc => if !ProbeDocument(item, p) then Some(Report(item, DocReason, false)) else None
      case Archive => if !p.zip then Some(Report(item, ArchiveReason, true)) else None
      case Other => if !p.generic then Some(Report(item, OtherReason, false)) else None
  }

  /** A report is fixable only for the four kinds with a real repair strategy. */
  lemma FixableOnlyForRepairableKinds(item: Item, p: Probes, threw: bool)
    requires DetectCorruption(item, p, threw).Some?
    ensures DetectCorruption(item, p, threw).value.fixable ==>
      item.kind !in {Doc, Other} && !threw
  {
  }

  /** A healthy verdict is never produced when the probing threw. */
  lemma ThrowIsNeverHealthy(item: Item, p: Probes)
    ensures DetectCorruption(item, p, true).Some?
    ensures !DetectCorruption(item, p, true).value.fixable
  {
  }

  // ---------------------------------------------------------------------
  // repairBestEffort dispatch and output names

  /** The strategy `repairBestEffort` runs. */
  datatype Strategy =
    | ReencodeJpeg   // repairImageToJpeg
    | RemuxMp4       // remuxVideoMp4
    | RelabelAudio   // remuxAudioContainer
    | CheckPdf       // repairPdfBasic
    | SalvageZip     // salvageZipLike
    | PlainCopy      // safeCopyWithDigest under the item's own name

  /** `repairBestEffort`'s choice of strategy. */
  function StrategyFor(item: Item): (s: Strategy)
    ensures s == PlainCopy <==>
      item.kind == Other || (item.kind == Doc && !EndsWithIgnoreCase(item.name, ".pdf"))
    ensures s == CheckPdf <==> item.kind == Doc && EndsWithIgnoreCase(item.name, ".pdf")
    ensures s == ReencodeJpeg <==> item.kind == Image
    ensures s == RemuxMp4 <==> item.kind == Video
    ensures s == RelabelAudio <==> item.kind == Audio
    ensures s == SalvageZip <==> item.kind == Archive
  {
    match item.kind
    case Image => ReencodeJpeg
    case Video => RemuxMp4
    case Audio => RelabelAudio
    case Doc => if EndsWithIgnoreCase(item.name, ".pdf") then CheckPdf else PlainCopy
    case Archive => SalvageZip
    case Other => PlainCopy
  }

  /**
   * The PDF test of the dispatcher (`endsWith(".pdf", true)`) and the one of
   * `probeDocument` (`lowercase().endsWith(".pdf")`) agree, so a DOC item
   * goes to PDF repair exactly when its health check uses the PDF probe.
   */
  lemma PdfDispatchAgreesWithProbe(item: Item)
    requires item.kind == Doc
    ensures StrategyFor(item) == CheckPdf <==> DocProbeFor(item.name) == PdfProbe
  {
    assert Lower(".pdf") == ".pdf";
    EndsWithIgnoreCaseLower(item.name, ".pdf");
  }

  /** The name used when the source's display name cannot be queried. */
  function DefaultBase(s: Strategy): string
    requires s != PlainCopy
  {
    match s
    case ReencodeJpeg => "image"
    case RemuxMp4 => "video"
    case RelabelAudio => "audio"
    case CheckPdf => "doc"
    case SalvageZip => "archive"
  }

  /** The fixed suffix of each strategy's output name. */
  function FixedSuffix(s: Strategy): string
    requires s != PlainCopy
  {
    match s
    case ReencodeJpeg => "_fixed.jpg"
    case RemuxMp4 => "_fixed.mp4"
    case RelabelAudio => "_fixed.m4a"
    case CheckPdf => "_fixed.pdf"
    case SalvageZip => "_fixed.zip"
  }

  /** `name.substringBeforeLast(".")`. */
  function BaseName(name: string): string {
    SubstringBeforeLast(name, '.')
  }

  /**
   * The output name of a repair strategy:
   * `(queryName(src)?.substringBeforeLast(".") ?: default) + suffix`.
   */
  function FixedName(s: Strategy, displayName: Option<string>): string
    requires s != PlainCopy
  {
    (match displayName
     case Some(n) => BaseName(n)
     case None => DefaultBase(s)) + FixedSuffix(s)
  }

  /**
   * Output names: the display name up to its last `.` (all of it when it
   * has none) followed by the strategy's suffix; a missing display name
   * gives the default base.
   */
  lemma {:induction false} FixedNameShape(s: Strategy, displayName: Option<string>)
    requires s != PlainCopy
    ensures EndsWith(FixedName(s, displayName), FixedSuffix(s))
    ensures displayName.None? ==> FixedName(s, displayName) == DefaultBase(s) + FixedSuffix(s)
    ensures displayName.Some? && '.' !in displayName.value ==>
      FixedName(s, displayName) == displayName.value + FixedSuffix(s)
    ensures displayName.Some? && '.' in displayName.value ==>
      var n := displayName.value;
      var b := |FixedName(s, displayName)| - |FixedSuffix(s)|;
      b < |n| && FixedName(s, displayName)[..b] == n[..b] && n[b] == '.' && '.' !in n[b + 1..]
  {
    var f := FixedName(s, displayName);
    var suffix := FixedSuffix(s);
    if displayName.Some? {
      var n := displayName.value;
      SubstringBeforeLastSpec(n, '.');
      assert f == BaseName(n) + suffix;
      assert f[..|BaseName(n)|] == BaseName(n);
    }
    assert f[|f| - |suffix|..] == suffix;
  }

  /**
   * The image strategy writes its name as
   * `(queryName(src) ?: "image").substringBeforeLast(".")`, cutting after the
   * default is applied; since the default has no `.`, this is `FixedName`.
   */
  lemma ImageNameForm(displayName: Option<string>)
    ensures BaseName(displayName.GetOr("image")) + "_fixed.jpg" == FixedName(ReencodeJpeg, displayName)
  {
    assert '.' !in "image";
    SubstringBeforeLastSpec("image", '.');
  }

  /** Examples of output names. */
  lemma ExampleNames()
    ensures FixedName(ReencodeJpeg, Some("IMG_01.old.jpeg")) == "IMG_01.old_fixed.jpg"
    ensures FixedName(SalvageZip, None) == "archive_fixed.zip"
    ensures FixedName(RelabelAudio, Some("voice")) == "voice_fixed.m4a"
  {
    var n := "IMG_01.old.jpeg";
    assert n[10] == '.' && '.' !in n[11..];
    assert LastIndexOf(n, '.') == 10;
    assert '.' !in "voice";
  }

  /** The temporary name a verified copy writes to before renaming. */
  function PartName(outName: string): (p: string)
    ensures EndsWith(p, ".part") && p != outName
  {
    assert (outName + ".part")[|outName|..] == ".part";
    outName + ".part"
  }
}
