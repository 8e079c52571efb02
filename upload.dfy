/**
  The upload handler: the checks on the request, the loop that finds a
  free name in the upload folder, the kind given to the stored file and the
  message record saved for it. The folder is the set of names it holds;
  secure_filename's output, the record's id and timestamp, and the image
  preview are inputs.
 */
module Upload {
  import opened Wrappers
  import opened Text
  import opened Extensions
  import opened MessageLog

  /** Python's s.rfind(c): the last index holding c, or -1. */
  function RFind(s: string, c: char): (i: int)
    ensures -1 <= i < |s|
    ensures i >= 0 ==> s[i] == c
    ensures forall j :: i < j < |s| ==> s[j] != c
    decreases |s|
  {
    if s == [] then -1
    else if s[|s| - 1] == c then |s| - 1
    else RFind(s[..|s| - 1], c)
  }

  /**
    os.path.splitext on a POSIX path: the extension runs from the last '.'
    of the last path component, unless that component is only dots before
    it (a leading-dot name such as ".bashrc" has no extension).
   */
  function SplitExt(p: string): (parts: (string, string))
    ensures parts.0 + parts.1 == p
    ensures parts.1 != [] ==> |parts.0| == RFind(p, '.') > RFind(p, '/')
    ensures parts.1 == [] || (parts.1[0] == '.' && '.' !in parts.1[1..] && '/' !in parts.1)
  {
    var sep := RFind(p, '/');
    var dot := RFind(p, '.');
    if dot > sep && exists j :: sep + 1 <= j < dot && p[j] != '.' then
      assert p[..dot] + p[dot..] == p;
      (p[..dot], p[dot..])
    else
      (p, [])
  }

  /**
    The extension is non-empty exactly when the last '.' comes after the
    last '/' and some character between them is not a '.': leading dots of
    the last path component stay in the root.
   */
  lemma SplitExtWhen(p: string)
    ensures SplitExt(p).1 != [] <==>
      && RFind(p, '.') > RFind(p, '/')
      && exists j :: RFind(p, '/') < j < RFind(p, '.') && p[j] != '.'
  {
  }

  /** Characters after the last c do not move it. */
  lemma {:induction false} RFindAppend(a: string, b: string, c: char)
    requires c !in b
    ensures RFind(a + b, c) == RFind(a, c)
    decreases |b|
  {
    if b == [] {
      assert a + b == a;
    } else {
      var ab, init := a + b, b[..|b| - 1];
      assert ab[|ab| - 1] == b[|b| - 1] && b[|b| - 1] in b;
      assert ab[..|ab| - 1] == a + init;
      assert forall x :: x in init ==> x in b;
      RFindAppend(a, init, c);
    }
  }

  /**
    Joining a root and an extension with '.' and splitting again gives both
    back, provided the root's last path component has a character other
    than '.' and the extension holds no '.' or '/'.
   */
  lemma SplitExtRoundTrip(base: string, ext: string)
    requires '.' !in ext && '/' !in ext
    requires exists j :: RFind(base, '/') < j < |base| && base[j] != '.'
    ensures SplitExt(base + "." + ext) == (base, "." + ext)
  {
    var p := base + "." + ext;
    JoinedLastDot(base, ext);
    JoinedLastSep(base, ext);
    JoinedParts(base, ext);
    var j :| RFind(base, '/') < j < |base| && base[j] != '.';
    SplitExtAtLastDot(p, j);
  }

  /** The '.' put between base and a dot-free ext is the last one. */
  lemma JoinedLastDot(base: string, ext: string)
    requires '.' !in ext
    ensures RFind(base + "." + ext, '.') == |base|
  {
    assert base + "." + ext == (base + ".") + ext;
    RFindAppend(base + ".", ext, '.');
  }

  /** The last '/' of base + "." + ext is the last '/' of base. */
  lemma JoinedLastSep(base: string, ext: string)
    requires '/' !in ext
    ensures RFind(base + "." + ext, '/') == RFind(base, '/')
  {
    assert base + "." + ext == (base + ".") + ext;
    RFindAppend(base + ".", ext, '/');
    RFindAppend(base, ".", '/');
  }

  /** Cutting base + "." + ext at |base| gives base and "." + ext. */
  lemma JoinedParts(base: string, ext: string)
    ensures (base + "." + ext)[..|base|] == base && (base + "." + ext)[|base|..] == "." + ext
    ensures forall j :: 0 <= j < |base| ==> (base + "." + ext)[j] == base[j]
  {
  }

  /** With a non-dot character between the last '/' and the last '.', the split falls at that '.'. */
  lemma SplitExtAtLastDot(p: string, j: int)
    requires RFind(p, '/') < j < RFind(p, '.') && p[j] != '.'
    ensures SplitExt(p) == (p[..RFind(p, '.')], p[RFind(p, '.')..])
  {
  }

  /** A name whose only '.' leads it, such as ".bashrc", has no extension. */
  lemma SplitExtHiddenName(name: string)
    requires '/' !in name && name != [] && name[0] == '.' && '.' !in name[1..]
    ensures SplitExt(name) == (name, [])
  {
    assert forall j :: 0 < j < |name| ==> name[j] == name[1..][j - 1];
    assert RFind(name, '.') == 0;
  }

  /**
    The n-th name the loop tries: the name itself, then base_1.ext,
    base_2.ext, ... Only the first try is the name itself; every later one
    is at least two characters longer.
   */
  function WithSuffix(name: string, n: nat): (candidate: string)
    ensures (candidate == name) == (n == 0)
    ensures n > 0 ==> |candidate| >= |name| + 2
  {
    if n == 0 then name else SplitExt(name).0 + "_" + Decimal(n) + SplitExt(name).1
  }

  /** Different counters give different names. */
  lemma WithSuffixInjective(name: string, a: nat, b: nat)
    requires WithSuffix(name, a) == WithSuffix(name, b)
    ensures a == b
  {
    var base, ext := SplitExt(name).0, SplitExt(name).1;
    if a != 0 && b != 0 {
      var s := WithSuffix(name, a);
      var da, db := Decimal(a), Decimal(b);
      assert s == base + "_" + da + ext;
      assert |da| == |db|;
      assert da == s[|base| + 1..|base| + 1 + |da|];
      assert db == s[|base| + 1..|base| + 1 + |db|];
      DecimalInjective(a, b);
    }
  }

  /** The names the loop tries for name, by counter. */
  function Candidates(name: string): nat -> string {
    (n: nat) => WithSuffix(name, n)
  }

  /** f never gives the same value for two counters. */
  ghost predicate Injective(f: nat -> string) {
    forall a: nat, b: nat :: a != b ==> f(a) != f(b)
  }

  /** The loop never tries the same name twice. */
  lemma CandidatesInjective(name: string)
    ensures Injective(Candidates(name))
  {
    forall a: nat, b: nat | a != b
      ensures Candidates(name)(a) != Candidates(name)(b)
    {
      if WithSuffix(name, a) == WithSuffix(name, b) {
        WithSuffixInjective(name, a, b);
      }
    }
  }

  /** The names the loop has found taken before it tries counter k. */
  ghost function Tried(f: nat -> string, k: nat): set<string> {
    if k == 0 then {} else Tried(f, k - 1) + {f(k - 1)}
  }

  /** A counter not yet reached names a name not yet tried. */
  lemma {:induction false} NotTriedYet(f: nat -> string, k: nat, j: nat)
    requires Injective(f) && k <= j
    ensures f(j) !in Tried(f, k)
  {
    if k > 0 {
      NotTriedYet(f, k - 1, j);
    }
  }

  /** The loop tries a new name every round, so after k rounds it has seen k names. */
  lemma {:induction false} TriedSize(f: nat -> string, k: nat)
    requires Injective(f)
    ensures |Tried(f, k)| == k
  {
    if k > 0 {
      TriedSize(f, k - 1);
      NotTriedYet(f, k - 1, k - 1);
      AddNewSize(Tried(f, k - 1), f(k - 1));
    }
  }

  /** Adding an element not yet in a set grows it by one. */
  lemma AddNewSize<T>(s: set<T>, x: T)
    requires x !in s
    ensures |s + {x}| == |s| + 1
  {
  }

  /**
    One more round, on a name found taken: the tried names stay within the
    folder and the untried part of the folder shrinks.
   */
  lemma TriedStep(f: nat -> string, existing: set<string>, k: nat)
    requires Injective(f) && Tried(f, k) <= existing && f(k) in existing
    ensures Tried(f, k + 1) <= existing
    ensures existing - Tried(f, k + 1) < existing - Tried(f, k)
  {
    NotTriedYet(f, k, k);
    assert f(k) in existing - Tried(f, k);
  }

  /** Names found taken are in the folder. */
  lemma {:induction false} TriedWithin(f: nat -> string, existing: set<string>, k: nat)
    requires forall c: nat :: c < k ==> f(c) in existing
    ensures Tried(f, k) <= existing
  {
    if k > 0 {
      TriedWithin(f, existing, k - 1);
    }
  }

  /**
    n is the counter the loop stops at: its name is free and every earlier
    one (the unchanged name first) is taken.
   */
  ghost predicate IsFirstFree(name: string, existing: set<string>, n: nat) {
    && WithSuffix(name, n) !in existing
    && forall c :: 0 <= c < n ==> WithSuffix(name, c) in existing
  }

  /**
    What the stopping counter gives: a free name, the name itself exactly
    when that is free, and otherwise base_n.ext with n >= 1.
   */
  lemma FirstFreeName(name: string, existing: set<string>, n: nat)
    requires IsFirstFree(name, existing, n)
    ensures WithSuffix(name, n) !in existing
    ensures name !in existing <==> n == 0
    ensures n > 0 ==> WithSuffix(name, n) == SplitExt(name).0 + "_" + Decimal(n) + SplitExt(name).1
  {
    if n > 0 {
      assert WithSuffix(name, 0) in existing;
    }
  }

  /** The stopping counter is determined by the name and the folder. */
  lemma FirstFreeUnique(name: string, existing: set<string>, m: nat, n: nat)
    requires IsFirstFree(name, existing, m) && IsFirstFree(name, existing, n)
    ensures m == n
  {
  }

  /** The loop runs at most once per file already in the folder. */
  lemma {:induction false} FirstFreeBound(name: string, existing: set<string>, n: nat)
    requires IsFirstFree(name, existing, n)
    ensures n <= |existing|
  {
    var f := Candidates(name);
    CandidatesInjective(name);
    TriedSize(f, n);
    assert forall c: nat :: c < n ==> f(c) in existing;
    TriedWithin(f, existing, n);
    var tried := Tried(f, n);
    assert existing == tried + (existing - tried);
    assert |existing| == |tried| + |existing - tried|;
  }

  /**
    The naming loop of the upload handler: keep the sanitized name if it is
    free, otherwise try base_1.ext, base_2.ext, ... and take the first free
    one. suffix is the counter used (0 when the name was kept).
   */
  method UniqueName(name: string, existing: set<string>) returns (chosen: string, suffix: nat)
    ensures IsFirstFree(name, existing, suffix) && chosen == WithSuffix(name, suffix)
    ensures chosen !in existing
    ensures name !in existing ==> chosen == name
    ensures name in existing ==>
      chosen == SplitExt(name).0 + "_" + Decimal(suffix) + SplitExt(name).1
  {
    var parts := SplitExt(name);
    var baseName, extension := parts.0, parts.1;
    chosen := name;
    var counter := 1;
    ghost var f := Candidates(name);
    CandidatesInjective(name);
    while chosen in existing
      invariant counter >= 1
      invariant chosen == WithSuffix(name, counter - 1)
      invariant forall c :: 0 <= c < counter - 1 ==> WithSuffix(name, c) in existing
      invariant Tried(f, counter - 1) <= existing
      decreases existing - Tried(f, counter - 1)
    {
      TriedStep(f, existing, counter - 1);
      chosen := baseName + "_" + Decimal(counter) + extension;
      counter := counter + 1;
    }
    suffix := counter - 1;
    FirstFreeName(name, existing, suffix);
  }

  /**
    The first three names the loop picks: the name itself in an empty
    folder, the first suffixed name when only the name is taken, and the
    second suffixed name when the first is taken too.
   */
  lemma NamingSequence(name: string)
    ensures IsFirstFree(name, {}, 0)
    ensures IsFirstFree(name, {name}, 1)
    ensures IsFirstFree(name, {name, WithSuffix(name, 1)}, 2)
  {
    var one, two := WithSuffix(name, 1), WithSuffix(name, 2);
    if one == two {
      WithSuffixInjective(name, 1, 2);
    }
    forall c | 0 <= c < 2
      ensures WithSuffix(name, c) in {name, one}
    {
    }
  }

  /**
    With "a.txt" already in the folder the next upload of that name is
    stored as "a_1.txt", and with both taken, as "a_2.txt".
   */
  lemma ExampleNaming()
    ensures IsFirstFree("a.txt", {"a.txt"}, 1) && WithSuffix("a.txt", 1) == "a_1.txt"
    ensures IsFirstFree("a.txt", {"a.txt", "a_1.txt"}, 2) && WithSuffix("a.txt", 2) == "a_2.txt"
  {
    NamingSequence("a.txt");
    ExampleCandidates();
  }

  /** For base.ext the counter goes between the root and the '.'. */
  lemma SuffixedName(base: string, ext: string, n: nat)
    requires '.' !in ext && '/' !in ext
    requires exists j :: RFind(base, '/') < j < |base| && base[j] != '.'
    requires n > 0
    ensures WithSuffix(base + "." + ext, n) == base + "_" + Decimal(n) + "." + ext
  {
    SplitExtRoundTrip(base, ext);
    assert base + "_" + Decimal(n) + ("." + ext) == base + "_" + Decimal(n) + "." + ext;
  }

  lemma ExampleSplit()
    ensures SplitExt("a.txt") == ("a", ".txt")
  {
    assert "a.txt" == "a" + "." + "txt";
    assert RFind("a", '/') == -1 && "a"[0] != '.';
    SplitExtRoundTrip("a", "txt");
  }

  /** With "a.txt" taken the loop tries "a_1.txt", then "a_2.txt". */
  lemma ExampleCandidates()
    ensures WithSuffix("a.txt", 1) == "a_1.txt" && WithSuffix("a.txt", 2) == "a_2.txt"
  {
    ExampleSplit();
    assert Decimal(1) == "1" && Decimal(2) == "2";
    assert WithSuffix("a.txt", 1) == "a" + "_" + "1" + ".txt";
    assert WithSuffix("a.txt", 2) == "a" + "_" + "2" + ".txt";
  }

  /**
    When the sanitized name has an extension, the suffix goes in front of
    it and the kind of the file stays the same.
   */
  lemma SuffixKeepsKind(name: string, n: nat)
    requires SplitExt(name).1 != []
    ensures Classify(WithSuffix(name, n)) == Classify(name)
  {
    var base, ext := SplitExt(name).0, SplitExt(name).1;
    if n > 0 {
      assert ext[0] in ext;
      assert WithSuffix(name, n) == (base + "_" + Decimal(n)) + ext;
      ClassifyIgnoresPrefix(base + "_" + Decimal(n), ext);
      ClassifyIgnoresPrefix(base, ext);
    }
  }

  /** A name without '.' has no extension. */
  lemma SplitExtNoDot(p: string)
    requires '.' !in p
    ensures SplitExt(p) == (p, [])
  {
    assert RFind(p, '.') == -1;
  }

  /** A name without '.' is classified by the whole of it. */
  lemma ClassifyNoDot(name: string)
    requires '.' !in name
    ensures Classify(name) == KindOf(Lower(name))
  {
    LastSegmentNoDot(name);
    ClassifyByExtension(name);
  }

  /**
    Without an extension the suffix lands at the end: a second "png" is
    stored as "png_1", which is classified as a plain file, not an image.
   */
  lemma SuffixChangesKind()
    ensures SplitExt("png") == ("png", [])
    ensures WithSuffix("png", 1) == "png_1"
    ensures Classify("png") == Image && Classify("png_1") == File
  {
    PngRenamed();
    PngIsImage();
    RenamedPngIsFile();
  }

  lemma PngRenamed()
    ensures SplitExt("png") == ("png", [])
    ensures WithSuffix("png", 1) == "png_1"
  {
    assert '.' !in "png";
    SplitExtNoDot("png");
    assert Decimal(1) == "1";
  }

  lemma PngIsImage()
    ensures Classify("png") == Image
  {
    var name := "png";
    assert Lower(name) == name by { LowerUnchanged(name); }
    assert Classify(name) == KindOf(Lower(name)) by {
      assert '.' !in name;
      ClassifyNoDot(name);
    }
    assert KindOf(name) == Image;
  }

  lemma RenamedPngIsFile()
    ensures Classify("png_1") == File
  {
    var name := "png_1";
    assert Lower(name) == name by { LowerUnchanged(name); }
    assert Classify(name) == KindOf(Lower(name)) by {
      assert '.' !in name;
      ClassifyNoDot(name);
    }
    LongExtensionIsFile(name);
  }

  /** The upload folder, as the set of names it holds. */
  class UploadFolder {
    /** The folder's own path. */
    const root: string
    var files: set<string>

    constructor (root: string, files: set<string>)
      ensures this.root == root && this.files == files
    {
      this.root := root;
      this.files := files;
    }

    /**
      os.path.join of the folder and a name from secure_filename: the path
      starts with the folder and a '/', and the name can be read back from it.
     */
    function PathOf(name: string): (path: string)
      ensures |path| == |root| + 1 + |name|
      ensures path[..|root|] == root && path[|root|] == '/' && path[|root| + 1..] == name
    {
      root + "/" + name
    }

    /** file.save: the name is now taken. */
    method Save(name: string)
      modifies this
      ensures files == old(files) + {name}
    {
      files := files + {name};
    }

    /**
      The naming loop followed by file.save: the file is stored under the
      first free candidate name, which the folder did not hold before.
     */
    method SaveUnique(sanitized: string) returns (stored: string)
      modifies this
      ensures stored !in old(files) && files == old(files) + {stored}
      ensures exists n :: IsFirstFree(sanitized, old(files), n) && stored == WithSuffix(sanitized, n)
      ensures sanitized !in old(files) ==> stored == sanitized
    {
      var n;
      stored, n := UniqueName(sanitized, files);
      Save(stored);
    }
  }

  /** Why a request is answered with status 400. */
  datatype Rejection = NoFilePart | NoFileSelected | UnsupportedType

  /** The handler's answer: success, a 400 with its reason, or the 500 of a caught exception. */
  datatype Response = Uploaded | Rejected(reason: Rejection) | Failed

  /**
    The checks before anything is written, given the client's file name
    (None: no 'file' part in the request). A request passes exactly when
    its file name is allowed; an empty name is reported as not selected.
   */
  function Screen(upload: Option<string>): (rejection: Option<Rejection>)
    ensures rejection == None <==> upload.Some? && AllowedFile(upload.value)
    ensures rejection == Some(NoFilePart) <==> upload == None
    ensures rejection == Some(NoFileSelected) <==> upload == Some("")
  {
    match upload
    case None => Some(NoFilePart)
    case Some(raw) =>
      if raw == "" then Some(NoFileSelected)
      else if AllowedFile(raw) then None
      else Some(UnsupportedType)
  }

  /**
    The handler as written. The kind is taken from the stored (renamed)
    name, and for an image the record reads img_str, which the image branch
    never sets: the handler fails after the file was written, and no record
    is saved.
   */
  method UploadFile(folder: UploadFolder, store: MessageStore, upload: Option<string>,
                    sanitized: string, id: IdValue, timestamp: string)
    returns (resp: Response, saved: Option<string>)
    modifies folder, store
    ensures Screen(upload).Some? ==>
      && resp == Rejected(Screen(upload).value) && saved == None
      && folder.files == old(folder.files) && store.log == old(store.log)
    ensures Screen(upload).None? ==>
      && saved.Some? && saved.value !in old(folder.files)
      && folder.files == old(folder.files) + {saved.value}
      && (exists n :: IsFirstFree(sanitized, old(folder.files), n) && saved.value == WithSuffix(sanitized, n))
      && (sanitized !in old(folder.files) ==> saved.value == sanitized)
    ensures Screen(upload).None? && Classify(saved.value) == Image ==>
      resp == Failed && store.log == old(store.log)
    ensures Screen(upload).None? && Classify(saved.value) != Image ==>
      && resp == Uploaded
      && store.log == Saved(old(store.log), FileMessage(id, Classify(saved.value), saved.value,
                                                         folder.PathOf(saved.value), None, timestamp))
  {
    var rejection := Screen(upload);
    if rejection.Some? {
      return Rejected(rejection.value), None;
    }
    var filename := folder.SaveUnique(sanitized);
    var filePath := folder.PathOf(filename);
    saved := Some(filename);
    var fileType := Classify(filename);
    if fileType == Image {
      // building the record reads img_str, unbound on this branch
      return Failed, saved;
    }
    store.Append(FileMessage(id, fileType, filename, filePath, None, timestamp));
    resp := Uploaded;
    assert saved.value == filename && folder.PathOf(filename) == filePath;
    assert store.log == Saved(old(store.log), FileMessage(id, fileType, filename, filePath, None, timestamp));
  }

  /**
    The handler as evidently intended: the kind is that of the sanitized
    name, whatever suffix the loop adds, and an image is saved with its
    preview like any other file.
   */
  method UploadFileFixed(folder: UploadFolder, store: MessageStore, upload: Option<string>,
                         sanitized: string, id: IdValue, timestamp: string, preview: Option<string>)
    returns (resp: Response, saved: Option<string>)
    modifies folder, store
    ensures Screen(upload).Some? ==>
      && resp == Rejected(Screen(upload).value) && saved == None
      && folder.files == old(folder.files) && store.log == old(store.log)
    ensures Screen(upload).None? ==>
      && resp == Uploaded && saved.Some? && saved.value !in old(folder.files)
      && folder.files == old(folder.files) + {saved.value}
      && (exists n :: IsFirstFree(sanitized, old(folder.files), n) && saved.value == WithSuffix(sanitized, n))
      && (sanitized !in old(folder.files) ==> saved.value == sanitized)
      && store.log == Saved(old(store.log),
           FileMessage(id, Classify(sanitized), saved.value, folder.PathOf(saved.value),
                       if Classify(sanitized) == Image then preview else None, timestamp))
  {
    var rejection := Screen(upload);
    if rejection.Some? {
      return Rejected(rejection.value), None;
    }
    var fileType := Classify(sanitized);
    var filename := folder.SaveUnique(sanitized);
    var filePath := folder.PathOf(filename);
    saved := Some(filename);
    var imageData := if fileType == Image then preview else None;
    store.Append(FileMessage(id, fileType, filename, filePath, imageData, timestamp));
    resp := Uploaded;
    assert saved.value == filename && folder.PathOf(filename) == filePath;
    assert store.log == Saved(old(store.log), FileMessage(id, fileType, filename, filePath, imageData, timestamp));
  }

  /** A plain image name passes the checks and is classified as an image. */
  lemma PhotoIsImage()
    ensures Screen(Some("photo.png")) == None && Classify("photo.png") == Image
  {
    var name := "photo.png";
    assert LastSegment(name) == "png" by {
      LastSegmentAfterDot(name, 5);
      assert name[6..] == "png";
    }
    assert Lower("png") == "png" by { LowerUnchanged("png"); }
    assert '.' in name by { assert name[5] == '.'; }
    assert Classify(name) == KindOf("png") by { ClassifyByExtension(name); }
    assert "png" in AllowedExtensions;
  }

  /** An image uploaded into an empty folder, as written: stored, then a failure. */
  method ImageUploadFails(name: string) returns (resp: Response, stored: set<string>, log: seq<Record>)
    requires Screen(Some(name)) == None && Classify(name) == Image
    ensures resp == Failed && stored == {name} && log == []
  {
    var folder := new UploadFolder("uploads", {});
    var store := new MessageStore.Open(None);
    var saved;
    resp, saved := UploadFile(folder, store, Some(name), name, TextId("1"), "t");
    stored := folder.files;
    log := store.log;
  }

  /** Uploading "photo.png" into an empty folder, as written. */
  method PhotoUploadFails() returns (resp: Response, stored: set<string>, log: seq<Record>)
    ensures resp == Failed && stored == {"photo.png"} && log == []
  {
    PhotoIsImage();
    resp, stored, log := ImageUploadFails("photo.png");
  }
}
