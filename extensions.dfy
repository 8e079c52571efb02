/**
  The extension tables of the relay: the upload allow-list, the
  image/audio/video dispatch that labels an uploaded file, and the icon shown
  next to a file name. All three look only at the text after the last '.',
  lower-cased.
 */
module Extensions {
  import opened Text

  /** Extensions accepted for upload: documents, images, audio, video, archives. */
  const AllowedExtensions: set<string> := {
    "txt", "pdf", "doc", "docx", "xls", "xlsx", "ppt", "pptx",
    "png", "jpg", "jpeg", "gif", "bmp", "webp",
    "mp3", "wav", "ogg", "flac", "m4a",
    "mp4", "avi", "mkv", "mov", "wmv",
    "zip", "rar", "7z", "tar", "gz"
  }

  /** Every allowed extension has two to four characters. */
  lemma AllowedLengths()
    ensures forall e :: e in AllowedExtensions ==> 2 <= |e| <= 4
  {
  }

  /**
    The upload check: the name has a '.' and its lower-cased extension is
    allowed. An accepted name ends with a '.' and an extension of two to
    four characters.
   */
  predicate AllowedFile(filename: string): (ok: bool)
    ensures ok ==> |LastSegment(filename)| < |filename|
    ensures ok ==> 2 <= |LastSegment(filename)| <= 4
  {
    AllowedLengths();
    '.' in filename && Lower(LastSegment(filename)) in AllowedExtensions
  }

  /**
    AllowedFile accepts a name exactly when some '.' in it is followed by a
    dot-free, allowed (after lower-casing) extension; a name with no '.' is
    always rejected.
   */
  lemma AllowedFileIff(filename: string)
    ensures AllowedFile(filename) <==>
      exists i :: 0 <= i < |filename| && filename[i] == '.' && '.' !in filename[i + 1..]
                  && Lower(filename[i + 1..]) in AllowedExtensions
    ensures '.' !in filename ==> !AllowedFile(filename)
  {
    var f := filename;
    var r := LastSegment(f);
    if AllowedFile(f) {
      var j :| 0 <= j < |f| && f[j] == '.';
      assert f[j] in f && f[0..] == f;
      var i := |f| - |r| - 1;
      assert f[i] == '.' && f[i + 1..] == r;
    }
    if exists i :: 0 <= i < |f| && f[i] == '.' && '.' !in f[i + 1..] && Lower(f[i + 1..]) in AllowedExtensions {
      var i :| 0 <= i < |f| && f[i] == '.' && '.' !in f[i + 1..] && Lower(f[i + 1..]) in AllowedExtensions;
      LastSegmentAfterDot(f, i);
      assert f[i] in f;
    }
  }

  /** The label an uploaded file gets in its message record. */
  datatype FileKind = Image | Audio | Video | File

  const ImageTypes: set<string> := {"png", "jpg", "jpeg", "gif", "bmp", "webp"}
  const AudioTypes: set<string> := {"mp3", "wav", "ogg", "flac", "m4a"}
  const VideoTypes: set<string> := {"mp4", "avi", "mkv", "mov", "wmv"}

  /**
    The if/elif chain of the upload handler: the last '.'-separated piece of
    the lower-cased name (all of it when there is no '.') picks the kind.
   */
  function Classify(filename: string): (k: FileKind)
    ensures k != File ==> LastSegment(Lower(filename)) in AllowedExtensions
  {
    ListsDisjoint();
    var ext := LastSegment(Lower(filename));
    if ext in ImageTypes then Image
    else if ext in AudioTypes then Audio
    else if ext in VideoTypes then Video
    else File
  }

  /** Kind of a lower-cased extension, read off the three lists. */
  function KindOf(ext: string): (k: FileKind)
    ensures k == Image <==> ext in ImageTypes
    ensures k == Audio <==> ext in AudioTypes
    ensures k == Video <==> ext in VideoTypes
    ensures k == File <==> ext !in ImageTypes + AudioTypes + VideoTypes
  {
    ListsDisjoint();
    if ext in ImageTypes then Image
    else if ext in AudioTypes then Audio
    else if ext in VideoTypes then Video
    else File
  }

  /** No extension is on two of the dispatch lists, and all of them are allowed. */
  lemma ListsDisjoint()
    ensures ImageTypes !! AudioTypes && ImageTypes !! VideoTypes && AudioTypes !! VideoTypes
    ensures ImageTypes + AudioTypes + VideoTypes <= AllowedExtensions
  {
  }

  /** No list entry is longer than four characters, so a longer extension is a plain file. */
  lemma LongExtensionIsFile(ext: string)
    requires |ext| > 4
    ensures KindOf(ext) == File
  {
    ListsDisjoint();
    AllowedLengths();
  }

  /**
    The kind is decided by the lower-cased text after the last '.' of the
    name, each list exactly: image for the image list, audio and video
    likewise, file for everything else.
   */
  lemma {:induction false} ClassifyByExtension(filename: string)
    ensures Classify(filename) == KindOf(Lower(LastSegment(filename)))
  {
    LastSegmentLower(filename);
  }

  /** Any text put in front of a '.' leaves the kind unchanged. */
  lemma {:induction false} ClassifyIgnoresPrefix(prefix: string, rest: string)
    requires '.' in rest
    ensures Classify(prefix + rest) == Classify(rest)
  {
    ClassifyByExtension(prefix + rest);
    ClassifyByExtension(rest);
    LastSegmentAppend(prefix, rest);
  }

  // Icons, as code points of the emoji in the icon table.
  const Memo: string := "\U{1F4DD}"
  const PageFacingUp: string := "\U{1F4C4}"
  const PageWithCurl: string := "\U{1F4C3}"
  const BarChart: string := "\U{1F4CA}"
  const Television: string := "\U{1F4FA}"
  const FramedPicture: string := "\U{1F5BC}\U{FE0F}"
  const MusicalNote: string := "\U{1F3B5}"
  const MovieCamera: string := "\U{1F3A5}"
  const Package: string := "\U{1F4E6}"

  /** The icon shown for a name whose extension has no entry. */
  const DefaultIcon: string := PageFacingUp

  const Icons: map<string, string> := map[
    "txt" := Memo, "pdf" := PageFacingUp, "doc" := PageWithCurl, "docx" := PageWithCurl,
    "xls" := BarChart, "xlsx" := BarChart, "ppt" := Television, "pptx" := Television,
    "png" := FramedPicture, "jpg" := FramedPicture, "jpeg" := FramedPicture,
    "gif" := FramedPicture, "bmp" := FramedPicture, "webp" := FramedPicture,
    "mp3" := MusicalNote, "wav" := MusicalNote, "ogg" := MusicalNote,
    "flac" := MusicalNote, "m4a" := MusicalNote,
    "mp4" := MovieCamera, "avi" := MovieCamera, "mkv" := MovieCamera,
    "mov" := MovieCamera, "wmv" := MovieCamera,
    "zip" := Package, "rar" := Package, "7z" := Package, "tar" := Package, "gz" := Package
  ]

  /**
    The template filter: icon of the lower-cased extension, or the default.
    Every icon it shows is one from the table, and a name without '.'
    always gets the default.
   */
  function FileIcon(filename: string): (icon: string)
    ensures icon in Icons.Values
    ensures '.' !in filename ==> icon == DefaultIcon
  {
    assert "pdf" in Icons && Icons["pdf"] == DefaultIcon;
    assert "" !in Icons;
    var ext := if '.' in filename then Lower(LastSegment(filename)) else "";
    if ext in Icons then Icons[ext] else DefaultIcon
  }

  /** Exactly the allowed extensions have an icon of their own. */
  lemma IconsCoverAllowList()
    ensures Icons.Keys == AllowedExtensions
  {
  }

  /** The picture, note and camera rows of the table, entry by entry. */
  lemma PictureEntries()
    ensures "png" in Icons && "jpg" in Icons && "jpeg" in Icons
    ensures "gif" in Icons && "bmp" in Icons && "webp" in Icons
    ensures Icons["png"] == Icons["jpg"] == Icons["jpeg"] == FramedPicture
    ensures Icons["gif"] == Icons["bmp"] == Icons["webp"] == FramedPicture
  {
  }

  lemma SoundEntries()
    ensures "mp3" in Icons && "wav" in Icons && "ogg" in Icons && "flac" in Icons && "m4a" in Icons
    ensures Icons["mp3"] == Icons["wav"] == Icons["ogg"] == MusicalNote
    ensures Icons["flac"] == Icons["m4a"] == MusicalNote
  {
  }

  lemma MovieEntries()
    ensures "mp4" in Icons && "avi" in Icons && "mkv" in Icons && "mov" in Icons && "wmv" in Icons
    ensures Icons["mp4"] == Icons["avi"] == Icons["mkv"] == MovieCamera
    ensures Icons["mov"] == Icons["wmv"] == MovieCamera
  {
  }

  /** Each dispatch list has one icon for all its extensions. */
  lemma ImageIcons(e: string)
    requires e in ImageTypes
    ensures e in Icons && Icons[e] == FramedPicture
  {
    PictureEntries();
  }

  lemma AudioIcons(e: string)
    requires e in AudioTypes
    ensures e in Icons && Icons[e] == MusicalNote
  {
    SoundEntries();
  }

  lemma VideoIcons(e: string)
    requires e in VideoTypes
    ensures e in Icons && Icons[e] == MovieCamera
  {
    MovieEntries();
  }

  /**
    The icon is the table entry for the lower-cased extension of a name
    that is allowed for upload, and the default for every other name; in
    particular for a name without '.'.
   */
  lemma FileIconTable(filename: string)
    ensures AllowedFile(filename) ==> FileIcon(filename) == Icons[Lower(LastSegment(filename))]
    ensures !AllowedFile(filename) ==> FileIcon(filename) == DefaultIcon
  {
    IconsCoverAllowList();
    assert "" !in AllowedExtensions;
  }

  /**
    For a name with a '.', the icon agrees with the kind the upload handler
    assigns: a picture for images, a note for audio, a camera for video.
   */
  lemma {:induction false} IconMatchesKind(filename: string)
    requires '.' in filename
    ensures Classify(filename) == Image ==> FileIcon(filename) == FramedPicture
    ensures Classify(filename) == Audio ==> FileIcon(filename) == MusicalNote
    ensures Classify(filename) == Video ==> FileIcon(filename) == MovieCamera
  {
    ClassifyByExtension(filename);
    var ext := Lower(LastSegment(filename));
    if ext in ImageTypes { ImageIcons(ext); }
    if ext in AudioTypes { AudioIcons(ext); }
    if ext in VideoTypes { VideoIcons(ext); }
  }
}
