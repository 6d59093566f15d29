/**
 * The classifier of the recovery engine (`guessKind`): a total function
 * from a display name and an optional MIME type to one of six kinds. Its
 * clauses are tried in the fixed order IMAGE, VIDEO, AUDIO, DOC, ARCHIVE;
 * when none matches, the kind is OTHER. Extensions are matched on the
 * lower-cased name; MIME prefixes are matched as given.
 */
module Classify {
  import opened Common
  import opened Text

  datatype Kind = Image | Video | Audio | Doc | Archive | Other

  const ImageExtensions: seq<string> :=
    [".jpg", ".jpeg", ".png", ".webp", ".heic", ".heif", ".avif", ".gif"]
  const VideoExtensions: seq<string> := [".mp4", ".mov", ".m4v", ".3gp", ".mkv"]
  const AudioExtensions: seq<string> :=
    [".mp3", ".m4a", ".aac", ".wav", ".flac", ".ogg", ".opus"]
  const DocExtensions: seq<string> :=
    [".pdf", ".txt", ".csv", ".doc", ".docx", ".xls", ".xlsx", ".ppt", ".pptx"]
  const ArchiveExtensions: seq<string> := [".zip", ".rar", ".7z", ".tar", ".gz"]

  /** The order in which the classifier tries its clauses. */
  const ClauseOrder: seq<Kind> := [Image, Video, Audio, Doc, Archive, Other]

  /** Position of a kind's clause in `ClauseOrder`. */
  function Rank(k: Kind): (r: nat)
    ensures r < |ClauseOrder| && ClauseOrder[r] == k
  {
    match k
    case Image => 0
    case Video => 1
    case Audio => 2
    case Doc => 3
    case Archive => 4
    case Other => 5
  }

  predicate EndsWithAny(n: string, extensions: seq<string>) {
    exists e :: e in extensions && EndsWith(n, e)
  }

  /** `mime?.startsWith(prefix) == true`. */
  predicate MimeStartsWith(mime: Option<string>, prefix: string) {
    mime.Some? && StartsWith(mime.value, prefix)
  }

  /** The MIME type names one of the three media families. */
  predicate IsMediaMime(mime: Option<string>) {
    MimeStartsWith(mime, "image/") || MimeStartsWith(mime, "video/") || MimeStartsWith(mime, "audio/")
  }

  /**
   * Whether the clause of kind `k` accepts the lower-cased name `n` and the
   * MIME type, on its own and regardless of the clauses before it.
   */
  predicate ClauseMatches(k: Kind, n: string, mime: Option<string>) {
    match k
    case Image => MimeStartsWith(mime, "image/") || EndsWithAny(n, ImageExtensions)
    case Video => MimeStartsWith(mime, "video/") || EndsWithAny(n, VideoExtensions)
    case Audio => MimeStartsWith(mime, "audio/") || EndsWithAny(n, AudioExtensions)
    case Doc => EndsWithAny(n, DocExtensions)
    case Archive => EndsWithAny(n, ArchiveExtensions)
    case Other => true
  }

  /**
   * `guessKind`: the kind of the first clause, in `ClauseOrder`, that
   * accepts the lower-cased name and the MIME type.
   */
  function GuessKind(name: string, mime: Option<string>): (k: Kind)
    ensures ClauseMatches(k, Lower(name), mime)
    ensures forall j :: 0 <= j < Rank(k) ==> !ClauseMatches(ClauseOrder[j], Lower(name), mime)
  {
    var n := Lower(name);
    if MimeStartsWith(mime, "image/") || EndsWithAny(n, ImageExtensions) then Image
    else if MimeStartsWith(mime, "video/") || EndsWithAny(n, VideoExtensions) then Video
    else if MimeStartsWith(mime, "audio/") || EndsWithAny(n, AudioExtensions) then Audio
    else if EndsWithAny(n, DocExtensions) then Doc
    else if EndsWithAny(n, ArchiveExtensions) then Archive
    else Other
  }

  /**
   * The first-match description determines the kind: any kind whose clause
   * matches and whose predecessors all fail is the one `GuessKind` returns.
   */
  lemma FirstMatchIsUnique(name: string, mime: Option<string>, k: Kind)
    requires ClauseMatches(k, Lower(name), mime)
    requires forall j :: 0 <= j < Rank(k) ==> !ClauseMatches(ClauseOrder[j], Lower(name), mime)
    ensures GuessKind(name, mime) == k
  {
    var g := GuessKind(name, mime);
    if Rank(g) < Rank(k) {
      assert false;
    } else if Rank(k) < Rank(g) {
      assert false;
    }
  }

  /** Extensions are matched without regard to case. */
  lemma IgnoresCase(name: string, mime: Option<string>)
    ensures GuessKind(name, mime) == GuessKind(Lower(name), mime)
  {
    LowerIdempotent(name);
  }

  /** An image extension beats a `video/` or `audio/` MIME type. */
  lemma ImageExtensionWins(name: string, mime: Option<string>)
    requires EndsWithAny(Lower(name), ImageExtensions)
    ensures GuessKind(name, mime) == Image
  {
  }

  /**
   * DOC and ARCHIVE are decided by the extension alone: a DOC result comes
   * from a document extension, an ARCHIVE result from an archive extension,
   * and any two MIME types outside the media families classify a name alike.
   */
  lemma DocAndArchiveByExtension(name: string, mime: Option<string>, other: Option<string>)
    requires !IsMediaMime(mime) && !IsMediaMime(other)
    ensures GuessKind(name, mime) == Doc ==> EndsWithAny(Lower(name), DocExtensions)
    ensures GuessKind(name, mime) == Archive ==> EndsWithAny(Lower(name), ArchiveExtensions)
    ensures GuessKind(name, mime) == GuessKind(name, other)
  {
  }

  /** A result of DOC or ARCHIVE never came from a media MIME type. */
  lemma DocOrArchiveMeansNoMediaMime(name: string, mime: Option<string>)
    requires GuessKind(name, mime) in {Doc, Archive}
    ensures !IsMediaMime(mime)
    ensures GuessKind(name, mime) == GuessKind(name, None)
  {
  }

  /** A media MIME type decides even when the extension is unknown. */
  lemma ExampleMimeDecides()
    ensures GuessKind("x.bin", Some("image/jpeg")) == Image
  {
    assert StartsWith("image/jpeg", "image/");
  }

  /** Without a MIME type the extension decides, in either case. */
  lemma ExampleExtensionDecides()
    ensures GuessKind("x.jpg", None) == Image
    ensures GuessKind("X.JPG", None) == Image
  {
    assert EndsWith(Lower("x.jpg"), ".jpg");
    assert EndsWith(Lower("X.JPG"), ".jpg");
  }

  /** An image extension beats a video MIME type. */
  lemma ExampleImageBeatsVideoMime()
    ensures GuessKind("clip.png", Some("video/mp4")) == Image
  {
    assert EndsWith(Lower("clip.png"), ".png");
  }

  /** An unknown extension without a MIME type is OTHER. */
  lemma ExampleUnknown()
    ensures GuessKind("x.unknown", None) == Other
  {
    var u := Lower("x.unknown");
    assert u == "x.unknown";
    assert !EndsWithAny(u, ImageExtensions);
    assert !EndsWithAny(u, VideoExtensions);
    assert !EndsWithAny(u, AudioExtensions);
    assert !EndsWithAny(u, DocExtensions);
    assert !EndsWithAny(u, ArchiveExtensions);
  }
}
