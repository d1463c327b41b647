/**
 * The filesystem store: pastes and comments as protected JSON files in a
 * two-level directory tree, one-time conversion of legacy files, the
 * key/value files of the purge and traffic limiters and the salt, and the
 * walk over all pastes that finds expired ones.
 */
module FilesystemStore {
  import opened Strings
  import opened Records
  import opened FilesystemLayout
  import opened ExpirySweep

  /** The medium as a store finds it: files with their contents, directories, the two limiter arrays. */
  datatype Disk = Disk(
    files: map<string, string>,
    dirs: set<string>,
    purgeLimiter: Option<string>,
    trafficLimiter: Option<map<string, string>>)

  /** `read` on a paste file's content: an empty array is falsy and reads as false. */
  function Outcome(codec: Codec, upgrade: Record -> Record, content: string): ReadOutcome {
    match codec.decode(Unprotect(content))
    case None => Corrupt
    case Some(p) => if p == map[] then NotFound else Found(upgrade(p))
  }

  /** What `_store` writes reads back, upgraded; a version 2 paste reads back unchanged. */
  lemma StoredPasteReadsBack(codec: Codec, upgrade: Record -> Record, paste: Record)
    requires RoundTrips(codec) && KeepsV2(upgrade)
    requires codec.encode(paste).Some? && paste != map[]
    ensures Outcome(codec, upgrade, Protect(codec.encode(paste).value)) == Found(upgrade(paste))
    ensures IsV2(paste) ==> Outcome(codec, upgrade, Protect(codec.encode(paste).value)) == Found(paste)
  {
    UnprotectProtect(codec.encode(paste).value);
  }

  /** `$data['meta']` is an array, so that `array_key_exists` on it does not throw a TypeError. */
  predicate HasMeta(p: Record) {
    "meta" in p && p["meta"].Arr?
  }

  /** `$data['meta']['expire_date'] < $time`, with PHP 8's comparison of the stored value with an integer. */
  predicate Expires(p: Record, time: int) {
    "expire_date" in Meta(p) && LessThanInt(Meta(p)["expire_date"], time)
  }

  /**
   * What `_getExpiredPastes` makes of an existing paste's `read`: a paste
   * that does not decode, or reads as `false`, or has no `meta` array,
   * makes the expiry test throw.
   */
  function Judge(outcome: ReadOutcome, time: int): Status {
    match outcome
    case Corrupt => Unreadable
    case NotFound => Unreadable
    case Found(p) => if !HasMeta(p) then Unreadable else if Expires(p, time) then Expired else Live
  }

  /** A paste whose `expire_date` was stored as an integer or as its decimal string expires exactly before `time`. */
  lemma JudgeStoredExpiry(p: Record, e: PhpInt, time: int)
    requires HasMeta(p) && "expire_date" in Meta(p)
    requires Meta(p)["expire_date"] == Int(e) || Meta(p)["expire_date"] == Str(IntToString(e))
    ensures Judge(Found(p), time) == (if e < time then Expired else Live)
  {
    LessThanStoredInt(e, time);
  }

  /** A paste without `expire_date` never expires; one without a `meta` array, or read as false, ends the sweep. */
  lemma JudgeWithoutExpiry(p: Record, time: int)
    ensures HasMeta(p) && "expire_date" !in Meta(p) ==> Judge(Found(p), time) == Live
    ensures !HasMeta(p) ==> Judge(Found(p), time) == Unreadable
    ensures Judge(NotFound, time) == Unreadable && Judge(Corrupt, time) == Unreadable
  {
  }

  /** A comment as `readComments` returns it: `id` and `parentid` come from its file name. */
  function Annotate(c: Record, name: string): Record {
    var items := Explode('.', name);
    c["id" := Item(items, 1)]["parentid" := Item(items, 2)]
  }

  /** `_get` of the comment file `f` in directory `dd`, annotated; None when the decoder throws. */
  function CommentOf(codec: Codec, fs: map<string, string>, dd: string, f: string): Option<Record>
    requires f in fs && StartsWith(f, dd)
  {
    match codec.decode(Unprotect(fs[f]))
    case None => None
    case Some(c) => Some(Annotate(c, NameIn(dd, f)))
  }

  /**
   * `readComments` gets past the file `f` without an exception: it decodes,
   * and its `meta` is an array, so that `array_key_exists` on it does not
   * throw a TypeError.
   */
  predicate CommentReads(codec: Codec, fs: map<string, string>, dd: string, f: string)
    requires f in fs && StartsWith(f, dd)
  {
    CommentOf(codec, fs, dd, f).Some? && HasMeta(CommentOf(codec, fs, dd, f).value)
  }

  /** Injecting the ids leaves `meta` alone: a comment reads exactly when its decoded record has a `meta` array. */
  lemma CommentReadsDecoded(codec: Codec, fs: map<string, string>, dd: string, f: string)
    requires f in fs && StartsWith(f, dd)
    ensures CommentReads(codec, fs, dd, f) <==>
      codec.decode(Unprotect(fs[f])).Some? && HasMeta(codec.decode(Unprotect(fs[f])).value)
  {
    match codec.decode(Unprotect(fs[f]))
    case None =>
    case Some(c) =>
      var a := Annotate(c, NameIn(dd, f));
      assert "meta" != "id" && "meta" != "parentid";
      assert ("meta" in a <==> "meta" in c) && ("meta" in c ==> a["meta"] == c["meta"]);
  }

  /** A comment written by `createComment` carries its ids from its file name. */
  lemma AnnotateCommentName(c: Record, pasteId: string, parentId: string, commentId: string)
    requires '.' !in pasteId && '.' !in commentId && '.' !in parentId
    ensures var a := Annotate(c, pasteId + "." + commentId + "." + parentId + PHP_SUFFIX);
      a["id"] == Str(commentId) && a["parentid"] == Str(parentId)
  {
    var name := pasteId + "." + commentId + "." + parentId + PHP_SUFFIX;
    assert name == pasteId + ['.'] + (commentId + ['.'] + (parentId + ['.'] + "php"));
    ExplodeCons('.', pasteId, commentId + ['.'] + (parentId + ['.'] + "php"));
    ExplodeCons('.', commentId, parentId + ['.'] + "php");
    ExplodeCons('.', parentId, "php");
  }

  // ---------------------------------------------------------------------
  // exists(): conversion of legacy files

  /**
   * The files after `exists(id)`: a legacy paste file is renamed to its
   * `.php` name with the protection line in front, and so is every legacy
   * comment file of its discussion directory. A store that cannot write
   * changes nothing.
   */
  function Converted(path: string, writable: bool, dirs: set<string>, fs: map<string, string>, id: string): map<string, string> {
    var base := LegacyPasteFile(path, id);
    if base in fs && writable then
      var fs1 := PrependRenamed(fs, base, base + PHP_SUFFIX);
      var dd := DataIdToDiscussionPath(path, id);
      if dd in dirs then
        LegacyCommentsNoSuffix(fs1, dd);
        Renamed(fs1, LegacyComments(fs1, dd))
      else fs1
    else fs
  }

  lemma DiscussionIsDeeper(path: string, id: string, f: string)
    requires '/' !in id
    requires Parent(f) == DataIdToDiscussionPath(path, id)
    ensures Parent(f) != DataIdToPath(path, id)
    ensures f != PasteFile(path, id) && f != LegacyPasteFile(path, id)
  {
    PasteFileParent(path, id);
  }

  /** The renamed comment files never touch the paste's own files. */
  lemma ConvertedPasteFiles(path: string, writable: bool, dirs: set<string>, fs: map<string, string>, id: string)
    requires '/' !in id && LegacyPasteFile(path, id) in fs && writable
    ensures var fs1 := PrependRenamed(fs, LegacyPasteFile(path, id), PasteFile(path, id));
      var g := Converted(path, writable, dirs, fs, id);
      LegacyPasteFile(path, id) !in g
      && (PasteFile(path, id) in g <==> PasteFile(path, id) in fs1)
      && (PasteFile(path, id) in g ==> g[PasteFile(path, id)] == fs1[PasteFile(path, id)])
  {
    var base := LegacyPasteFile(path, id);
    var pf := PasteFile(path, id);
    var fs1 := PrependRenamed(fs, base, pf);
    var dd := DataIdToDiscussionPath(path, id);
    assert base + PHP_SUFFIX == pf;
    if dd in dirs {
      var srcs := LegacyComments(fs1, dd);
      LegacyCommentsNoSuffix(fs1, dd);
      forall s | s in srcs ensures s != pf && s + PHP_SUFFIX != pf && s + PHP_SUFFIX != base {
        DiscussionIsDeeper(path, id, s);
        ParentOfSuffixed(s, PHP_SUFFIX);
        DiscussionIsDeeper(path, id, s + PHP_SUFFIX);
      }
      RenamedAt(fs1, srcs, pf);
      RenamedAt(fs1, srcs, base);
    }
  }

  /** `exists` is true afterwards exactly when the paste file or its legacy form was there (and could be converted). */
  lemma ConvertedExists(path: string, writable: bool, dirs: set<string>, fs: map<string, string>, id: string)
    requires '/' !in id
    ensures PasteFile(path, id) in Converted(path, writable, dirs, fs, id) <==>
      PasteFile(path, id) in fs || (LegacyPasteFile(path, id) in fs && writable)
  {
    if LegacyPasteFile(path, id) in fs && writable {
      ConvertedPasteFiles(path, writable, dirs, fs, id);
    }
  }

  /** An already protected paste file is never overwritten. */
  lemma ConvertedKeepsPaste(path: string, writable: bool, dirs: set<string>, fs: map<string, string>, id: string)
    requires '/' !in id && PasteFile(path, id) in fs
    ensures Converted(path, writable, dirs, fs, id)[PasteFile(path, id)] == fs[PasteFile(path, id)]
  {
    if LegacyPasteFile(path, id) in fs && writable {
      ConvertedPasteFiles(path, writable, dirs, fs, id);
    }
  }

  /** A legacy paste gets the protection line in front of its JSON, and the legacy file goes. */
  lemma ConvertedLegacyPaste(path: string, writable: bool, dirs: set<string>, fs: map<string, string>, id: string)
    requires '/' !in id && writable
    requires LegacyPasteFile(path, id) in fs && PasteFile(path, id) !in fs
    ensures var g := Converted(path, writable, dirs, fs, id);
      LegacyPasteFile(path, id) !in g && PasteFile(path, id) in g
      && g[PasteFile(path, id)] == Protect(fs[LegacyPasteFile(path, id)])
  {
    ConvertedPasteFiles(path, writable, dirs, fs, id);
  }

  /** The conversion happens once: a second `exists` changes nothing. */
  lemma ConvertedIdempotent(path: string, writable: bool, dirs: set<string>, fs: map<string, string>, id: string)
    requires '/' !in id
    ensures var g := Converted(path, writable, dirs, fs, id);
      Converted(path, writable, dirs, g, id) == g
  {
    if LegacyPasteFile(path, id) in fs && writable {
      ConvertedPasteFiles(path, writable, dirs, fs, id);
    }
  }

  /** The conversion keeps every file in its directory. */
  lemma ConvertedParents(path: string, writable: bool, dirs: set<string>, fs: map<string, string>, id: string)
    requires forall f :: f in fs ==> Parent(f) in dirs
    ensures forall f :: f in Converted(path, writable, dirs, fs, id) ==> Parent(f) in dirs
  {
    var base := LegacyPasteFile(path, id);
    if base in fs && writable {
      var fs1 := PrependRenamed(fs, base, base + PHP_SUFFIX);
      ParentOfSuffixed(base, PHP_SUFFIX);
      assert forall f :: f in fs1 ==> Parent(f) in dirs;
      var dd := DataIdToDiscussionPath(path, id);
      if dd in dirs {
        LegacyCommentsNoSuffix(fs1, dd);
        RenamedParents(fs1, LegacyComments(fs1, dd), dirs);
      }
    }
  }

  /** One iteration of the comment conversion loop of `exists` over the snapshot `entries`. */
  lemma ConvertCommentStep(fs1: map<string, string>, dd: string, entries: set<string>, f: string)
    requires entries <= FilesIn(fs1, dd) && f in entries
    ensures StartsWith(f, dd) && f in fs1
    ensures var done := LegacyComments(fs1, dd) - entries;
      var next := LegacyComments(fs1, dd) - (entries - {f});
      done <= fs1.Keys && next <= fs1.Keys
      && (IsLegacyName(NameIn(dd, f)) ==>
            f in Renamed(fs1, done)
            && PrependRenamed(Renamed(fs1, done), f, f + PHP_SUFFIX) == Renamed(fs1, next))
      && (!IsLegacyName(NameIn(dd, f)) ==> Renamed(fs1, next) == Renamed(fs1, done))
  {
    var done := LegacyComments(fs1, dd) - entries;
    var next := LegacyComments(fs1, dd) - (entries - {f});
    LegacyCommentsNoSuffix(fs1, dd);
    if IsLegacyName(NameIn(dd, f)) {
      assert f in LegacyComments(fs1, dd);
      assert next == done + {f};
      RenamedStep(fs1, done, f);
    } else {
      assert next == done;
    }
  }

  /** ConvertCommentStep, stated for the files `cur` a store holds before the step. */
  lemma ConvertCommentAt(fs1: map<string, string>, dd: string, entries: set<string>, f: string,
                         writable: bool, cur: map<string, string>)
    requires entries <= FilesIn(fs1, dd) && f in entries
    requires cur == if writable then Renamed(fs1, LegacyComments(fs1, dd) - entries) else fs1
    ensures IsLegacyName(NameIn(dd, f)) <==> !EndsWith(f[|dd|..], PHP_SUFFIX) && |f[|dd|..]| >= 16
    ensures IsLegacyName(NameIn(dd, f)) ==> f in cur
    ensures var next := if writable then Renamed(fs1, LegacyComments(fs1, dd) - (entries - {f})) else fs1;
      (IsLegacyName(NameIn(dd, f)) ==> next == if writable then PrependRenamed(cur, f, f + PHP_SUFFIX) else cur)
      && (!IsLegacyName(NameIn(dd, f)) ==> next == cur)
  {
    ConvertCommentStep(fs1, dd, entries, f);
  }

  // ---------------------------------------------------------------------
  // delete()

  /** Directories strictly below `d`; `rmdir` fails while there is one. */
  function SubDirs(dirs: set<string>, d: string): set<string> {
    set e | e in dirs && e != d && StartsWith(e, d)
  }

  /** The files after `delete(id)` by a store that can write. */
  function Deleted(path: string, dirs: set<string>, fs: map<string, string>, id: string): map<string, string> {
    if DataIdToPath(path, id) !in dirs then fs
    else
      var fs1 := fs - {PasteFile(path, id)};
      var dd := DataIdToDiscussionPath(path, id);
      if dd in dirs then fs1 - FilesIn(fs1, dd) else fs1
  }

  /** The directories after `delete(id)` by a store that can write. */
  function DeletedDirs(path: string, dirs: set<string>, id: string): set<string> {
    var dd := DataIdToDiscussionPath(path, id);
    if DataIdToPath(path, id) in dirs && dd in dirs && SubDirs(dirs, dd) == {} then dirs - {dd} else dirs
  }

  /**
   * `delete` removes the paste file and every file of its discussion
   * directory, and nothing else.
   */
  lemma DeletedRemovesOnly(path: string, dirs: set<string>, fs: map<string, string>, id: string, f: string)
    requires DataIdToPath(path, id) in dirs
    ensures var dd := DataIdToDiscussionPath(path, id);
      f in Deleted(path, dirs, fs, id) <==>
        f in fs && f != PasteFile(path, id) && !(dd in dirs && Parent(f) == dd)
    ensures f in Deleted(path, dirs, fs, id) ==> Deleted(path, dirs, fs, id)[f] == fs[f]
  {
  }

  /** One iteration of the unlink loop of `delete` over the snapshot `entries`. */
  lemma DeleteStep(fs1: map<string, string>, dd: string, entries: set<string>, f: string, fs: map<string, string>)
    requires entries <= FilesIn(fs1, dd) && f in entries
    requires fs == fs1 - (FilesIn(fs1, dd) - entries)
    ensures f in fs && fs - {f} == fs1 - (FilesIn(fs1, dd) - (entries - {f}))
  {
  }

  /**
   * After `delete` by a store that can write, neither the paste file
   * nor any file of its discussion directory is left, and every file still
   * lies in a directory.
   */
  lemma DeletedFacts(path: string, dirs: set<string>, fs: map<string, string>, id: string)
    requires forall f :: f in fs ==> Parent(f) in dirs
    ensures '/' !in id ==> PasteFile(path, id) !in Deleted(path, dirs, fs, id)
    ensures DataIdToPath(path, id) in dirs ==> FilesIn(Deleted(path, dirs, fs, id), DataIdToDiscussionPath(path, id)) == {}
    ensures forall f :: f in Deleted(path, dirs, fs, id) ==> Parent(f) in DeletedDirs(path, dirs, id)
  {
    if '/' !in id {
      PasteFileParent(path, id);
    }
  }

  /**
   * After `delete`, `existsComment` finds none of the paste's comments, and
   * `exists` no longer finds the paste unless a suffix-less legacy file,
   * which `delete` does not touch, is still there to be converted.
   */
  lemma DeletedGone(path: string, writable: bool, dirs: set<string>, fs: map<string, string>,
                    id: string, parentId: string, commentId: string)
    requires forall f :: f in fs ==> Parent(f) in dirs
    requires '/' !in id && '/' !in parentId && '/' !in commentId
    ensures DataIdToPath(path, id) in dirs ==> CommentFile(path, id, parentId, commentId) !in Deleted(path, dirs, fs, id)
    ensures var after := Deleted(path, dirs, fs, id);
      PasteFile(path, id) in Converted(path, writable, DeletedDirs(path, dirs, id), after, id) <==>
        LegacyPasteFile(path, id) in fs && writable
  {
    var after := Deleted(path, dirs, fs, id);
    DeletedFacts(path, dirs, fs, id);
    CommentLayout(path, id, parentId, commentId);
    ConvertedExists(path, writable, DeletedDirs(path, dirs, id), after, id);
    PasteFileParent(path, id);
    if DataIdToPath(path, id) in dirs {
      DeletedRemovesOnly(path, dirs, fs, id, LegacyPasteFile(path, id));
      assert LegacyPasteFile(path, id) != PasteFile(path, id);
    }
  }

  // ---------------------------------------------------------------------
  // readComments()

  /** The file names behind the slots collected so far. */
  function Image(origin: map<Slot, string>): set<string> {
    set k | k in origin :: origin[k]
  }

  lemma ImageUpdate(origin: map<Slot, string>, key: Slot, f: string)
    requires key !in origin
    ensures Image(origin[key := f]) == Image(origin) + {f}
  {
    var o := origin[key := f];
    forall x | x in Image(o) ensures x in Image(origin) + {f} {
      var k :| k in o && o[k] == x;
      if k != key { assert origin[k] == x; }
    }
    forall x | x in Image(origin) ensures x in Image(o) {
      var k :| k in origin && origin[k] == x;
      assert o[k] == x;
    }
    assert o[key] == f;
  }

  /** The slots collected so far stand for the files visited so far, one each. */
  ghost predicate CollectedFiles(all: set<string>, entries: set<string>, comments: map<Slot, Record>, origin: map<Slot, string>) {
    entries <= all && origin.Keys == comments.Keys && |comments| == |all - entries| && Image(origin) == all - entries
  }

  /** Every slot holds the annotated comment of the file `origin` names, at its creation time. */
  ghost predicate CollectedComments(codec: Codec, fs: map<string, string>, dd: string,
                                    comments: map<Slot, Record>, origin: map<Slot, string>)
  {
    forall k :: k in origin ==> (origin[k] in fs && StartsWith(origin[k], dd) && k in comments
      && CommentOf(codec, fs, dd, origin[k]) == Some(comments[k]) && k.time == CommentTime(comments[k]))
  }

  /** Every file visited so far decodes and has a `meta` array. */
  ghost predicate VisitedDecode(codec: Codec, fs: map<string, string>, dd: string, visited: set<string>) {
    forall f :: f in visited ==> (f in fs && StartsWith(f, dd) && CommentReads(codec, fs, dd, f))
  }

  /** What the loop of `readComments` keeps. */
  ghost predicate CommentsCollected(codec: Codec, fs: map<string, string>, dd: string, all: set<string>,
                                    entries: set<string>, comments: map<Slot, Record>, origin: map<Slot, string>)
  {
    && CollectedFiles(all, entries, comments, origin)
    && CollectedComments(codec, fs, dd, comments, origin)
    && VisitedDecode(codec, fs, dd, all - entries)
  }

  lemma CollectedFilesStep(all: set<string>, entries: set<string>, comments: map<Slot, Record>, origin: map<Slot, string>,
                           f: string, key: Slot, c: Record)
    requires CollectedFiles(all, entries, comments, origin) && f in entries && key !in comments
    ensures CollectedFiles(all, entries - {f}, comments[key := c], origin[key := f])
  {
    ImageUpdate(origin, key, f);
    assert all - (entries - {f}) == (all - entries) + {f};
  }

  lemma CollectedCommentsStep(codec: Codec, fs: map<string, string>, dd: string,
                              comments: map<Slot, Record>, origin: map<Slot, string>, f: string, key: Slot)
    requires CollectedComments(codec, fs, dd, comments, origin)
    requires f in fs && StartsWith(f, dd) && CommentOf(codec, fs, dd, f).Some?
    requires key.time == CommentTime(CommentOf(codec, fs, dd, f).value)
    ensures CollectedComments(codec, fs, dd, comments[key := CommentOf(codec, fs, dd, f).value], origin[key := f])
  {
  }

  lemma VisitedDecodeStep(codec: Codec, fs: map<string, string>, dd: string, all: set<string>, entries: set<string>, f: string)
    requires VisitedDecode(codec, fs, dd, all - entries)
    requires f in fs && StartsWith(f, dd) && CommentReads(codec, fs, dd, f)
    ensures VisitedDecode(codec, fs, dd, all - (entries - {f}))
  {
  }

  lemma CommentsStep(codec: Codec, fs: map<string, string>, dd: string, all: set<string>,
                     entries: set<string>, comments: map<Slot, Record>, origin: map<Slot, string>, f: string, key: Slot)
    requires all == FilesIn(fs, dd)
    requires CommentsCollected(codec, fs, dd, all, entries, comments, origin)
    requires f in entries && StartsWith(f, dd)
    requires CommentReads(codec, fs, dd, f)
    requires key !in comments && key.time == CommentTime(CommentOf(codec, fs, dd, f).value)
    ensures CommentsCollected(codec, fs, dd, all, entries - {f},
      comments[key := CommentOf(codec, fs, dd, f).value], origin[key := f])
  {
    var c := CommentOf(codec, fs, dd, f).value;
    CollectedFilesStep(all, entries, comments, origin, f, key, c);
    CollectedCommentsStep(codec, fs, dd, comments, origin, f, key);
    VisitedDecodeStep(codec, fs, dd, all, entries, f);
  }

  /** The file behind each sorted entry. */
  ghost function SourcesOf(origin: map<Slot, string>, sorted: seq<Entry>): (sources: seq<string>)
    requires forall i :: 0 <= i < |sorted| ==> sorted[i].0 in origin
    ensures |sources| == |sorted| && forall i :: 0 <= i < |sorted| ==> sources[i] == origin[sorted[i].0]
  {
    seq(|sorted|, i requires 0 <= i < |sorted| => origin[sorted[i].0])
  }

  /** At the end of the loop, the sorted entries and their sources are what `readComments` promises. */
  lemma CommentsDone(codec: Codec, fs: map<string, string>, dd: string,
                     comments: map<Slot, Record>, origin: map<Slot, string>, sorted: seq<Entry>, sources: seq<string>)
    requires CommentsCollected(codec, fs, dd, FilesIn(fs, dd), {}, comments, origin)
    requires SlotsOf(sorted) == comments.Keys && |sorted| == |comments|
    requires forall i :: 0 <= i < |sorted| ==> sorted[i].0 in comments && sorted[i].1 == comments[sorted[i].0]
    requires |sources| == |sorted| && forall i :: 0 <= i < |sorted| ==> sources[i] == origin[sorted[i].0]
    ensures |sorted| == |sources| == |FilesIn(fs, dd)|
    ensures (set i | 0 <= i < |sources| :: sources[i]) == FilesIn(fs, dd)
    ensures forall i :: 0 <= i < |sources| ==>
      sources[i] in FilesIn(fs, dd) && CommentOf(codec, fs, dd, sources[i]) == Some(sorted[i].1)
      && sorted[i].0.time == CommentTime(sorted[i].1)
    ensures !exists f :: f in FilesIn(fs, dd) && !CommentReads(codec, fs, dd, f)
  {
    var all := FilesIn(fs, dd);
    SourcesCover(all, comments, origin, sorted, sources);
    SourcesDecode(codec, fs, dd, comments, origin, sorted, sources);
    VisitedAll(codec, fs, dd, all);
  }

  /** A finished loop has read every file of the directory without an exception. */
  lemma VisitedAll(codec: Codec, fs: map<string, string>, dd: string, all: set<string>)
    requires all == FilesIn(fs, dd) && VisitedDecode(codec, fs, dd, all - {})
    ensures !exists f :: f in FilesIn(fs, dd) && !CommentReads(codec, fs, dd, f)
  {
    assert all - {} == all;
  }

  /** At the end of the loop, the sources of the sorted entries name every file once. */
  lemma SourcesCover(all: set<string>, comments: map<Slot, Record>, origin: map<Slot, string>,
                     sorted: seq<Entry>, sources: seq<string>)
    requires CollectedFiles(all, {}, comments, origin)
    requires SlotsOf(sorted) == comments.Keys && |sorted| == |comments|
    requires |sources| == |sorted| && forall i :: 0 <= i < |sorted| ==> sources[i] == origin[sorted[i].0]
    ensures |sources| == |all|
    ensures (set i | 0 <= i < |sources| :: sources[i]) == all
    ensures forall i :: 0 <= i < |sources| ==> sources[i] in all
  {
    assert all - {} == all;
    forall x | x in all ensures x in (set i | 0 <= i < |sources| :: sources[i]) {
      var k :| k in origin && origin[k] == x;
      assert k in SlotsOf(sorted);
      var i :| 0 <= i < |sorted| && sorted[i].0 == k;
      assert sources[i] == x;
    }
    forall x | x in (set i | 0 <= i < |sources| :: sources[i]) ensures x in all {
      var i :| 0 <= i < |sources| && sources[i] == x;
      assert sorted[i].0 in SlotsOf(sorted);
      assert x in Image(origin);
    }
  }

  /** At the end of the loop, each sorted entry is the comment of its source file. */
  lemma SourcesDecode(codec: Codec, fs: map<string, string>, dd: string,
                      comments: map<Slot, Record>, origin: map<Slot, string>, sorted: seq<Entry>, sources: seq<string>)
    requires CollectedComments(codec, fs, dd, comments, origin)
    requires origin.Keys == comments.Keys
    requires forall i :: 0 <= i < |sorted| ==> sorted[i].0 in comments && sorted[i].1 == comments[sorted[i].0]
    requires |sources| == |sorted| && forall i :: 0 <= i < |sorted| ==> sources[i] == origin[sorted[i].0]
    ensures forall i :: 0 <= i < |sources| ==>
      (sources[i] in fs && StartsWith(sources[i], dd) && CommentOf(codec, fs, dd, sources[i]) == Some(sorted[i].1)
      && sorted[i].0.time == CommentTime(sorted[i].1))
  {
  }

  // ---------------------------------------------------------------------
  // getAllPastes()

  /** The files `GlobIterator` finds for PASTE_FILE_PATTERN below `path`. */
  function ListedFiles(path: string, fs: map<string, string>): set<string> {
    set f | f in fs && MatchesPastePattern(path, f)
  }

  /** One iteration of the listing loop of `getAllPastes`. */
  lemma ListStep(all: set<string>, entries: set<string>, sources: seq<string>, pastes: seq<string>, f: string)
    requires f in entries && entries <= all
    requires multiset(sources) + multiset(entries) == multiset(all)
    requires |pastes| == |sources| && forall i :: 0 <= i < |sources| ==> pastes[i] == BaseName(sources[i])
    ensures entries - {f} <= all
    ensures multiset(sources + [f]) + multiset(entries - {f}) == multiset(all)
    ensures var p := pastes + [BaseName(f)]; var s := sources + [f];
      |p| == |s| && forall i :: 0 <= i < |s| ==> p[i] == BaseName(s[i])
  {
    assert multiset(entries) == multiset(entries - {f}) + multiset{f};
    assert multiset(sources + [f]) == multiset(sources) + multiset{f};
  }

  /** `shuffle`: some permutation of the list. */
  method Shuffle(s: seq<string>) returns (t: seq<string>)
    ensures multiset(t) == multiset(s)
  {
    var rest := s;
    t := [];
    while rest != []
      invariant multiset(t) + multiset(rest) == multiset(s)
      decreases |rest|
    {
      var k :| 0 <= k < |rest|;
      assert rest == rest[..k] + [rest[k]] + rest[k + 1..];
      t := t + [rest[k]];
      rest := rest[..k] + rest[k + 1..];
    }
  }

  class Filesystem {
    const path: string
    /** Whether the medium accepts writes; when it does not, every write, mkdir and unlink fails. */
    const writable: bool
    const codec: Codec
    /** `upgradePreV1Format`. */
    const upgrade: Record -> Record
    /** `getOpenSlot`. */
    const openSlot: (set<Slot>, int) -> Slot
    var files: map<string, string>
    var dirs: set<string>
    /** The array `purge_limiter.php` defines, when the file exists. */
    var purgeLimiter: Option<string>
    /** The array `traffic_limiter.php` defines, when the file exists. */
    var trafficLimiter: Option<map<string, string>>
    /** `_last_cache`. */
    var lastCache: map<string, string>

    ghost predicate Valid()
      reads this
    {
      && (forall f :: f in files ==> Parent(f) in dirs)
      && RoundTrips(codec) && KeepsV2(upgrade) && FreshSlots(openSlot)
    }

    function BaseDir(): string { path + "/" }
    function HtaccessFile(): string { path + "/.htaccess" }
    function SaltFile(): string { path + "/salt.php" }

    /** The files after `_storeString` has made sure of the `.htaccess` file. */
    function Prepared(fs: map<string, string>): map<string, string> {
      if !writable || HtaccessFile() in fs then fs else fs[HtaccessFile() := HTACCESS_LINE + EOL]
    }

    /** The directories after `_storeString` has made sure of the storage directory. */
    function PreparedDirs(ds: set<string>): set<string> {
      if writable then ds + {BaseDir()} else ds
    }

    lemma BaseFiles()
      ensures Parent(HtaccessFile()) == BaseDir() && Parent(SaltFile()) == BaseDir()
    {
      assert HtaccessFile() == BaseDir() + ".htaccess";
      assert SaltFile() == BaseDir() + "salt.php";
      ParentOfChild(BaseDir(), ".htaccess");
      ParentOfChild(BaseDir(), "salt.php");
    }

    /** `__construct`: the data directory is the `dir` option, `data` by default. */
    constructor(options: map<string, string>, writable: bool, codec: Codec, upgrade: Record -> Record,
                openSlot: (set<Slot>, int) -> Slot, disk: Disk)
      requires RoundTrips(codec) && KeepsV2(upgrade) && FreshSlots(openSlot)
      requires forall f :: f in disk.files ==> Parent(f) in disk.dirs
      ensures Valid()
      ensures path == (if "dir" in options then options["dir"] else "data")
      ensures this.writable == writable && this.codec == codec && this.upgrade == upgrade && this.openSlot == openSlot
      ensures files == disk.files && dirs == disk.dirs
      ensures purgeLimiter == disk.purgeLimiter && trafficLimiter == disk.trafficLimiter && lastCache == map[]
    {
      path := if "dir" in options then options["dir"] else "data";
      this.writable := writable;
      this.codec := codec;
      this.upgrade := upgrade;
      this.openSlot := openSlot;
      files := disk.files;
      dirs := disk.dirs;
      purgeLimiter := disk.purgeLimiter;
      trafficLimiter := disk.trafficLimiter;
      lastCache := map[];
    }

    // -------------------------------------------------------------------
    // _storeString, _store, _get

    /** The first half of `_storeString`: storage directory and `.htaccess`. */
    method PrepareBase() returns (ok: bool)
      requires Valid()
      modifies this
      ensures Valid()
      ensures ok == (writable || (BaseDir() in old(dirs) && HtaccessFile() in old(files)))
      ensures dirs == PreparedDirs(old(dirs)) && files == Prepared(old(files))
      ensures purgeLimiter == old(purgeLimiter) && trafficLimiter == old(trafficLimiter) && lastCache == old(lastCache)
    {
      BaseFiles();
      if BaseDir() !in dirs {
        if !writable {
          return false;
        }
        dirs := dirs + {BaseDir()};
      }
      if HtaccessFile() !in files {
        if !writable {
          return false;
        }
        files := files[HtaccessFile() := HTACCESS_LINE + EOL];
      }
      ok := true;
      if writable {
        dirs := dirs + {BaseDir()};
      }
    }

    /** `touch` and `file_put_contents`: they succeed when the medium is writable and the directory exists. */
    method WriteFile(filename: string, data: string) returns (ok: bool)
      requires Valid()
      modifies this
      ensures Valid()
      ensures ok == (writable && Parent(filename) in dirs)
      ensures files == if ok then old(files)[filename := data] else old(files)
      ensures dirs == old(dirs)
      ensures purgeLimiter == old(purgeLimiter) && trafficLimiter == old(trafficLimiter) && lastCache == old(lastCache)
    {
      ok := writable && Parent(filename) in dirs;
      if ok {
        files := files[filename := data];
      }
    }

    /** `_storeString`: true exactly when the file now holds `data`. */
    method StoreString(filename: string, data: string) returns (ok: bool)
      requires Valid()
      modifies this
      ensures Valid()
      ensures ok == (writable && Parent(filename) in PreparedDirs(old(dirs)))
      ensures files == if ok then Prepared(old(files))[filename := data] else Prepared(old(files))
      ensures dirs == PreparedDirs(old(dirs))
      ensures purgeLimiter == old(purgeLimiter) && trafficLimiter == old(trafficLimiter) && lastCache == old(lastCache)
    {
      ok := PrepareBase();
      if !ok {
        return;
      }
      ok := WriteFile(filename, data);
    }

    /** `_store`: the protection line and the JSON; false when the record cannot be encoded. */
    method Store(filename: string, data: Record) returns (ok: bool)
      requires Valid()
      modifies this
      ensures Valid()
      ensures codec.encode(data).None? ==> !ok && files == old(files) && dirs == old(dirs)
      ensures codec.encode(data).Some? ==>
        && ok == (writable && Parent(filename) in PreparedDirs(old(dirs)))
        && files == (if ok then Prepared(old(files))[filename := Protect(codec.encode(data).value)] else Prepared(old(files)))
        && dirs == PreparedDirs(old(dirs))
      ensures purgeLimiter == old(purgeLimiter) && trafficLimiter == old(trafficLimiter) && lastCache == old(lastCache)
    {
      var json := codec.encode(data);
      if json.None? {
        return false;
      }
      ok := StoreString(filename, Protect(json.value));
    }

    // -------------------------------------------------------------------
    // Pastes

    /** `create`: never overwrites; creates the paste directory as needed. */
    method Create(pasteId: string, paste: Record) returns (ok: bool)
      requires Valid()
      modifies this
      ensures Valid()
      ensures PasteFile(path, pasteId) in old(files) ==> !ok && files == old(files) && dirs == old(dirs)
      ensures ok ==> (codec.encode(paste).Some?
        && files == Prepared(old(files))[PasteFile(path, pasteId) := Protect(codec.encode(paste).value)])
      ensures !ok ==> files == (if PasteFile(path, pasteId) in old(files) || codec.encode(paste).None? then old(files) else Prepared(old(files)))
      ensures '/' !in pasteId ==>
        (ok <==> PasteFile(path, pasteId) !in old(files) && writable && codec.encode(paste).Some?)
      ensures PasteFile(path, pasteId) !in old(files) ==>
        var d := old(dirs) + (if writable && DataIdToPath(path, pasteId) !in old(dirs) then Ancestors(DataIdToPath(path, pasteId)) else {});
        dirs == (if codec.encode(paste).Some? then PreparedDirs(d) else d)
      ensures old(dirs) <= dirs
      ensures purgeLimiter == old(purgeLimiter) && trafficLimiter == old(trafficLimiter) && lastCache == old(lastCache)
    {
      var storageDir := DataIdToPath(path, pasteId);
      var file := storageDir + pasteId + PHP_SUFFIX;
      if file in files {
        return false;
      }
      if storageDir !in dirs && writable {
        dirs := dirs + Ancestors(storageDir);
      }
      if '/' !in pasteId {
        PasteFileParent(path, pasteId);
        AncestorsContains(storageDir);
      }
      ok := Store(file, paste);
    }

    /** `_prependRename`. */
    method PrependRename(src: string, dest: string)
      requires Valid() && src in files && Parent(dest) == Parent(src)
      modifies this
      ensures Valid()
      ensures files == if writable then PrependRenamed(old(files), src, dest) else old(files)
      ensures dirs == old(dirs)
      ensures purgeLimiter == old(purgeLimiter) && trafficLimiter == old(trafficLimiter) && lastCache == old(lastCache)
    {
      if dest !in files && writable {
        files := files[dest := Protect(files[src])];
      }
      if writable {
        files := files - {src};
      }
    }

    /** One iteration of the comment loop of `exists`: renames `f` when it has a legacy name. */
    method ConvertComment(ghost fs1: map<string, string>, dd: string, ghost entries: set<string>, f: string)
      requires Valid() && entries <= FilesIn(fs1, dd) && f in entries
      requires files == if writable then Renamed(fs1, LegacyComments(fs1, dd) - entries) else fs1
      modifies this
      ensures Valid()
      ensures files == if writable then Renamed(fs1, LegacyComments(fs1, dd) - (entries - {f})) else fs1
      ensures dirs == old(dirs)
      ensures purgeLimiter == old(purgeLimiter) && trafficLimiter == old(trafficLimiter) && lastCache == old(lastCache)
    {
      ConvertCommentAt(fs1, dd, entries, f, writable, files);
      var name := f[|dd|..];
      if !EndsWith(name, PHP_SUFFIX) && |name| >= 16 {
        ParentOfSuffixed(f, PHP_SUFFIX);
        PrependRename(f, f + PHP_SUFFIX);
      }
    }

    /**
     * The comment loop of `exists`: every legacy comment file of `dd` is
     * renamed to its `.php` name with the protection line in front.
     */
    method ConvertComments(dd: string)
      requires Valid()
      modifies this
      ensures Valid()
      ensures files == if writable then Renamed(old(files), LegacyComments(old(files), dd)) else old(files)
      ensures dirs == old(dirs)
      ensures purgeLimiter == old(purgeLimiter) && trafficLimiter == old(trafficLimiter) && lastCache == old(lastCache)
    {
      ghost var fs1 := files;
      var entries := FilesIn(files, dd);
      assert LegacyComments(fs1, dd) - entries == {};
      while entries != {}
        invariant Valid() && dirs == old(dirs)
        invariant entries <= FilesIn(fs1, dd)
        invariant files == if writable then Renamed(fs1, LegacyComments(fs1, dd) - entries) else fs1
        invariant purgeLimiter == old(purgeLimiter) && trafficLimiter == old(trafficLimiter) && lastCache == old(lastCache)
        decreases entries
      {
        var f :| f in entries;
        ConvertComment(fs1, dd, entries, f);
        entries := entries - {f};
      }
      assert LegacyComments(fs1, dd) - {} == LegacyComments(fs1, dd);
    }

    /** `exists`: converts legacy files of the paste, then tests for the protected paste file. */
    method Exists(pasteId: string) returns (e: bool)
      requires Valid()
      modifies this
      ensures Valid()
      ensures files == Converted(path, writable, dirs, old(files), pasteId)
      ensures e == (PasteFile(path, pasteId) in files)
      ensures dirs == old(dirs)
      ensures purgeLimiter == old(purgeLimiter) && trafficLimiter == old(trafficLimiter) && lastCache == old(lastCache)
    {
      var basePath := LegacyPasteFile(path, pasteId);
      var pastePath := basePath + PHP_SUFFIX;
      if basePath in files {
        ParentOfSuffixed(basePath, PHP_SUFFIX);
        PrependRename(basePath, pastePath);
        var discDir := DataIdToDiscussionPath(path, pasteId);
        if discDir in dirs {
          ConvertComments(discDir);
        }
      }
      e := pastePath in files;
    }

    /** `read`: false when there is no paste, or when it decodes to an empty array. */
    method Read(pasteId: string) returns (r: ReadOutcome)
      requires Valid()
      modifies this
      ensures Valid()
      ensures files == Converted(path, writable, dirs, old(files), pasteId)
      ensures r == if PasteFile(path, pasteId) in files then Outcome(codec, upgrade, files[PasteFile(path, pasteId)]) else NotFound
      ensures dirs == old(dirs)
      ensures purgeLimiter == old(purgeLimiter) && trafficLimiter == old(trafficLimiter) && lastCache == old(lastCache)
    {
      var e := Exists(pasteId);
      if !e {
        return NotFound;
      }
      r := Outcome(codec, upgrade, files[PasteFile(path, pasteId)]);
    }

    /** The unlink loop of `delete`: removes every file of the directory `dd`. */
    method UnlinkAll(dd: string)
      modifies this
      ensures files == if writable then old(files) - FilesIn(old(files), dd) else old(files)
      ensures dirs == old(dirs)
      ensures purgeLimiter == old(purgeLimiter) && trafficLimiter == old(trafficLimiter) && lastCache == old(lastCache)
    {
      ghost var fs1 := files;
      var entries := FilesIn(files, dd);
      while entries != {}
        invariant dirs == old(dirs)
        invariant entries <= FilesIn(fs1, dd)
        invariant files == if writable then fs1 - (FilesIn(fs1, dd) - entries) else fs1
        invariant purgeLimiter == old(purgeLimiter) && trafficLimiter == old(trafficLimiter) && lastCache == old(lastCache)
        decreases entries
      {
        var f :| f in entries;
        if writable {
          DeleteStep(fs1, dd, entries, f, files);
        }
        if f in files && writable {
          files := files - {f};
        }
        entries := entries - {f};
      }
      assert FilesIn(fs1, dd) - {} == FilesIn(fs1, dd);
    }

    /** `delete`: the paste file, then every file of the discussion directory, then the directory. */
    method Delete(pasteId: string)
      requires Valid()
      modifies this
      ensures Valid()
      ensures files == if writable then Deleted(path, old(dirs), old(files), pasteId) else old(files)
      ensures dirs == if writable then DeletedDirs(path, old(dirs), pasteId) else old(dirs)
      ensures writable && '/' !in pasteId ==> PasteFile(path, pasteId) !in files
      ensures writable && DataIdToPath(path, pasteId) in old(dirs) ==>
        FilesIn(files, DataIdToDiscussionPath(path, pasteId)) == {}
      ensures writable && '/' !in pasteId && DataIdToPath(path, pasteId) in old(dirs) ==>
        forall parentId, commentId :: '/' !in parentId && '/' !in commentId ==> !ExistsComment(pasteId, parentId, commentId)
      ensures purgeLimiter == old(purgeLimiter) && trafficLimiter == old(trafficLimiter) && lastCache == old(lastCache)
    {
      var pasteDir := DataIdToPath(path, pasteId);
      DeletedFacts(path, dirs, files, pasteId);
      if pasteDir in dirs {
        var pasteFile := pasteDir + pasteId + PHP_SUFFIX;
        ghost var fs1 := files - {pasteFile};
        if pasteFile in files && writable {
          files := files - {pasteFile};
        }
        assert writable ==> files == fs1;
        var discDir := DataIdToDiscussionPath(path, pasteId);
        if discDir in dirs {
          UnlinkAll(discDir);
          assert writable ==> files == fs1 - FilesIn(fs1, discDir);
          if writable && SubDirs(dirs, discDir) == {} {
            dirs := dirs - {discDir};
          }
        }
      }
      if writable && '/' !in pasteId && pasteDir in old(dirs) {
        forall parentId, commentId | '/' !in parentId && '/' !in commentId
          ensures !ExistsComment(pasteId, parentId, commentId)
        {
          DeletedGone(path, writable, old(dirs), old(files), pasteId, parentId, commentId);
        }
      }
    }

    /** `existsComment`. */
    predicate ExistsComment(pasteId: string, parentId: string, commentId: string)
      reads this
    {
      CommentFile(path, pasteId, parentId, commentId) in files
    }

    /** `createComment`: never overwrites; creates the discussion directory as needed. */
    method CreateComment(pasteId: string, parentId: string, commentId: string, comment: Record) returns (ok: bool)
      requires Valid()
      modifies this
      ensures Valid()
      ensures ExistsComment(pasteId, parentId, commentId) && !old(ExistsComment(pasteId, parentId, commentId)) ==> ok
      ensures old(ExistsComment(pasteId, parentId, commentId)) ==> !ok && files == old(files) && dirs == old(dirs)
      ensures ok ==> (codec.encode(comment).Some?
        && files == Prepared(old(files))[CommentFile(path, pasteId, parentId, commentId) := Protect(codec.encode(comment).value)])
      ensures !ok ==> files == (if old(ExistsComment(pasteId, parentId, commentId)) || codec.encode(comment).None? then old(files) else Prepared(old(files)))
      ensures '/' !in pasteId && '/' !in parentId && '/' !in commentId ==>
        (ok <==> !old(ExistsComment(pasteId, parentId, commentId)) && writable && codec.encode(comment).Some?)
      ensures !old(ExistsComment(pasteId, parentId, commentId)) ==>
        var d := old(dirs) + (if writable && DataIdToDiscussionPath(path, pasteId) !in old(dirs) then Ancestors(DataIdToDiscussionPath(path, pasteId)) else {});
        dirs == (if codec.encode(comment).Some? then PreparedDirs(d) else d)
      ensures old(dirs) <= dirs
      ensures purgeLimiter == old(purgeLimiter) && trafficLimiter == old(trafficLimiter) && lastCache == old(lastCache)
    {
      var storageDir := DataIdToDiscussionPath(path, pasteId);
      var file := storageDir + pasteId + "." + commentId + "." + parentId + PHP_SUFFIX;
      if file in files {
        return false;
      }
      if storageDir !in dirs && writable {
        dirs := dirs + Ancestors(storageDir);
      }
      if '/' !in pasteId && '/' !in parentId && '/' !in commentId {
        CommentLayout(path, pasteId, parentId, commentId);
        AncestorsContains(storageDir);
      }
      ok := Store(file, comment);
    }

    /**
     * The loop of `readComments`: each comment file of `dd`, decoded and
     * annotated, under the slot `getOpenSlot` picks for its creation time;
     * None as soon as one file does not decode or has no `meta` array.
     */
    method GatherComments(dd: string) returns (r: Option<map<Slot, Record>>, ghost origin: map<Slot, string>)
      requires Valid()
      ensures r.Some? ==> CommentsCollected(codec, files, dd, FilesIn(files, dd), {}, r.value, origin)
      ensures r.None? ==> exists f :: f in FilesIn(files, dd) && !CommentReads(codec, files, dd, f)
    {
      var all := FilesIn(files, dd);
      var entries := all;
      var comments: map<Slot, Record> := map[];
      origin := map[];
      assert Image(origin) == {};
      while entries != {}
        invariant CommentsCollected(codec, files, dd, all, entries, comments, origin)
        decreases entries
      {
        var f :| f in entries;
        var comment := CommentOf(codec, files, dd, f);
        if comment.None? || !HasMeta(comment.value) {
          assert f in all && !CommentReads(codec, files, dd, f);
          return None, origin;
        }
        var key := openSlot(comments.Keys, CommentTime(comment.value));
        CommentsStep(codec, files, dd, all, entries, comments, origin, f, key);
        comments := comments[key := comment.value];
        origin := origin[key := f];
        entries := entries - {f};
      }
      r := Some(comments);
    }

    /**
     * `readComments`: every file of the discussion directory, decoded and
     * annotated, under a fresh slot of its creation time, in slot order.
     * None stands for the decoder's exception, or the TypeError of
     * `array_key_exists` on a comment without a `meta` array.
     */
    method ReadComments(pasteId: string) returns (r: Option<seq<Entry>>, ghost sources: seq<string>)
      requires Valid()
      ensures DataIdToDiscussionPath(path, pasteId) !in dirs ==> r == Some([])
      ensures r.Some? ==> SortedBySlot(r.value)
      ensures r.Some? ==> |r.value| == |sources| == |FilesIn(files, DataIdToDiscussionPath(path, pasteId))|
      ensures r.Some? ==> (set i | 0 <= i < |sources| :: sources[i]) == FilesIn(files, DataIdToDiscussionPath(path, pasteId))
      ensures r.Some? ==> forall i :: 0 <= i < |sources| ==>
        sources[i] in FilesIn(files, DataIdToDiscussionPath(path, pasteId))
        && CommentOf(codec, files, DataIdToDiscussionPath(path, pasteId), sources[i]) == Some(r.value[i].1)
        && r.value[i].0.time == CommentTime(r.value[i].1)
      ensures r.None? <==> exists f :: (f in FilesIn(files, DataIdToDiscussionPath(path, pasteId))
        && !CommentReads(codec, files, DataIdToDiscussionPath(path, pasteId), f))
    {
      var discDir := DataIdToDiscussionPath(path, pasteId);
      var all := FilesIn(files, discDir);
      sources := [];
      if discDir !in dirs {
        assert all == {};
        return Some([]), [];
      }
      var gathered, origin := GatherComments(discDir);
      if gathered.None? {
        return None, [];
      }
      var comments := gathered.value;
      var sorted := KSort(comments);
      r := Some(sorted);
      sources := SourcesOf(origin, sorted);
      CommentsDone(codec, files, discDir, comments, origin, sorted, sources);
    }

    // -------------------------------------------------------------------
    // Key/value store

    /** `setValue`: persists a limiter array or the salt; false for an unknown namespace. */
    method SetValue(value: string, namespace: string, key: string) returns (ok: bool)
      requires Valid()
      modifies this
      ensures Valid()
      ensures namespace !in {"purge_limiter", "salt", "traffic_limiter"} ==>
        !ok && files == old(files) && dirs == old(dirs)
        && purgeLimiter == old(purgeLimiter) && trafficLimiter == old(trafficLimiter) && lastCache == old(lastCache)
      ensures namespace in {"purge_limiter", "salt", "traffic_limiter"} ==>
        ok == writable && dirs == PreparedDirs(old(dirs))
      ensures namespace == "purge_limiter" ==>
        files == Prepared(old(files)) && trafficLimiter == old(trafficLimiter) && lastCache == old(lastCache)
        && purgeLimiter == (if ok then Some(value) else old(purgeLimiter))
      ensures namespace == "salt" ==>
        files == (if ok then Prepared(old(files))[SaltFile() := SaltContent(value)] else Prepared(old(files)))
        && purgeLimiter == old(purgeLimiter) && trafficLimiter == old(trafficLimiter) && lastCache == old(lastCache)
      ensures namespace == "traffic_limiter" ==>
        files == Prepared(old(files)) && purgeLimiter == old(purgeLimiter)
        && lastCache == old(lastCache)[key := value]
        && trafficLimiter == (if ok then Some(lastCache) else old(trafficLimiter))
    {
      BaseFiles();
      if namespace == "purge_limiter" {
        ok := PrepareBase();
        ok := ok && writable;
        if ok {
          purgeLimiter := Some(value);
        }
      } else if namespace == "salt" {
        ok := StoreString(SaltFile(), SaltContent(value));
      } else if namespace == "traffic_limiter" {
        lastCache := lastCache[key := value];
        ok := PrepareBase();
        ok := ok && writable;
        if ok {
          trafficLimiter := Some(lastCache);
        }
      } else {
        ok := false;
      }
    }

    /** `getValue`: the stored value, or the empty string. */
    method GetValue(namespace: string, key: string) returns (v: string)
      requires Valid()
      modifies this
      ensures Valid()
      ensures files == old(files) && dirs == old(dirs) && purgeLimiter == old(purgeLimiter) && trafficLimiter == old(trafficLimiter)
      ensures namespace == "purge_limiter" ==>
        lastCache == old(lastCache) && v == (if purgeLimiter.Some? then purgeLimiter.value else "")
      ensures namespace == "salt" ==> lastCache == old(lastCache)
      ensures namespace == "salt" && SaltFile() !in files ==> v == ""
      ensures namespace == "salt" && SaltFile() in files ==> v == SaltOf(files[SaltFile()])
      ensures namespace == "salt" && SaltFile() in files && files[SaltFile()] == SaltContent(v) ==> '|' !in v
      ensures forall s :: namespace == "salt" && SaltFile() in files && files[SaltFile()] == SaltContent(s) && '|' !in s ==> v == s
      ensures forall s :: namespace == "salt" && SaltFile() in files && files[SaltFile()] == SaltContent(s) && '|' in s ==> v == ""
      ensures namespace == "traffic_limiter" ==>
        lastCache == (if trafficLimiter.Some? then trafficLimiter.value else old(lastCache))
        && v == (if trafficLimiter.Some? && key in lastCache then lastCache[key] else "")
      ensures namespace !in {"purge_limiter", "salt", "traffic_limiter"} ==> v == "" && lastCache == old(lastCache)
    {
      v := "";
      if namespace == "purge_limiter" {
        if purgeLimiter.Some? {
          v := purgeLimiter.value;
        }
      } else if namespace == "salt" {
        if SaltFile() in files {
          v := SaltOf(files[SaltFile()]);
          if files[SaltFile()] == SaltContent(v) {
            SaltRoundTrip(v);
          }
          forall s | files[SaltFile()] == SaltContent(s) && '|' !in s ensures v == s {
            SaltRoundTrip(s);
          }
          forall s | files[SaltFile()] == SaltContent(s) && '|' in s ensures v == "" {
            SaltRoundTrip(s);
          }
        }
      } else if namespace == "traffic_limiter" {
        if trafficLimiter.Some? {
          lastCache := trafficLimiter.value;
          if key in lastCache {
            v := lastCache[key];
          }
        }
      }
    }

    // -------------------------------------------------------------------
    // Listing and expiry

    /** `getAllPastes`: the base names of the files matching PASTE_FILE_PATTERN. */
    method GetAllPastes() returns (pastes: seq<string>, ghost sources: seq<string>)
      ensures |pastes| == |sources|
      ensures forall i :: 0 <= i < |sources| ==> pastes[i] == BaseName(sources[i])
      ensures multiset(sources) == multiset(ListedFiles(path, files))
      ensures forall i :: 0 <= i < |pastes| ==> '/' !in pastes[i]
    {
      var all := ListedFiles(path, files);
      var entries := all;
      pastes := [];
      sources := [];
      while entries != {}
        invariant entries <= all
        invariant multiset(sources) + multiset(entries) == multiset(all)
        invariant |pastes| == |sources|
        invariant forall i :: 0 <= i < |sources| ==> pastes[i] == BaseName(sources[i])
        decreases entries
      {
        var f :| f in entries;
        ListStep(all, entries, sources, pastes, f);
        pastes := pastes + [BaseName(f)];
        sources := sources + [f];
        entries := entries - {f};
      }
    }

    /** What looking up `id` in `fs` within `_getExpiredPastes` finds. */
    ghost function StatusAt(ds: set<string>, fs: map<string, string>, id: string, time: int): Status
    {
      var g := Converted(path, writable, ds, fs, id);
      var pf := PasteFile(path, id);
      if pf !in g then Missing
      else Judge(Outcome(codec, upgrade, g[pf]), time)
    }

    /** The statuses of `ids` looked up one after the other, each lookup converting legacy files. */
    ghost function Statuses(ds: set<string>, fs: map<string, string>, ids: seq<string>, time: int): (st: seq<Status>)
      ensures |st| == |ids|
      decreases |ids|
    {
      if ids == [] then []
      else [StatusAt(ds, fs, ids[0], time)] + Statuses(ds, Converted(path, writable, ds, fs, ids[0]), ids[1..], time)
    }

    /** The files after looking up `ids` one after the other. */
    ghost function ConvertedAll(ds: set<string>, fs: map<string, string>, ids: seq<string>): map<string, string>
      decreases |ids|
    {
      if ids == [] then fs else ConvertedAll(ds, Converted(path, writable, ds, fs, ids[0]), ids[1..])
    }

    lemma {:induction false} ConvertedAllSnoc(ds: set<string>, fs: map<string, string>, ids: seq<string>, i: nat)
      requires i < |ids|
      ensures ConvertedAll(ds, fs, ids[..i + 1]) == Converted(path, writable, ds, ConvertedAll(ds, fs, ids[..i]), ids[i])
      decreases i
    {
      if i > 0 {
        assert ids[..i + 1][1..] == ids[1..][..i];
        assert ids[..i][1..] == ids[1..][..i - 1];
        ConvertedAllSnoc(ds, Converted(path, writable, ds, fs, ids[0]), ids[1..], i - 1);
      } else {
        assert ids[..1][1..] == [];
      }
    }

    /** The lookup of the id at `i` finds its status and converts as the next step of ConvertedAll. */
    lemma LookupStep(ds: set<string>, fs0: map<string, string>, order: seq<string>, st: seq<Status>, time: int, i: nat,
                     before: map<string, string>, after: map<string, string>, status: Status)
      requires i < |order| && |st| == |order|
      requires before == ConvertedAll(ds, fs0, order[..i]) && Statuses(ds, before, order[i..], time) == st[i..]
      requires after == Converted(path, writable, ds, before, order[i]) && status == StatusAt(ds, before, order[i], time)
      ensures st[i] == status
      ensures after == ConvertedAll(ds, fs0, order[..i + 1]) && Statuses(ds, after, order[i + 1..], time) == st[i + 1..]
    {
      ConvertedAllSnoc(ds, fs0, order, i);
      assert order[i..][1..] == order[i + 1..] && order[i..][0] == order[i];
      assert st[i..][1..] == st[i + 1..] && st[i..][0] == st[i];
    }

    /**
     * What the loop of `_getExpiredPastes` learns about one id: `exists`,
     * then `read` and the expiry test when the paste exists.
     */
    method Lookup(id: string, time: int) returns (status: Status)
      requires Valid() && '/' !in id
      modifies this
      ensures Valid()
      ensures status == StatusAt(dirs, old(files), id, time)
      ensures files == Converted(path, writable, dirs, old(files), id)
      ensures dirs == old(dirs)
      ensures purgeLimiter == old(purgeLimiter) && trafficLimiter == old(trafficLimiter) && lastCache == old(lastCache)
    {
      ghost var before := files;
      var e := Exists(id);
      if !e {
        return Missing;
      }
      ConvertedIdempotent(path, writable, dirs, before, id);
      var data := Read(id);
      if !data.Found? || !HasMeta(data.paste) {
        return Unreadable;
      }
      if Expires(data.paste, time) {
        return Expired;
      }
      return Live;
    }

    /**
     * `_getExpiredPastes` at time `time`: the ids returned by `getAllPastes`,
     * shuffled into `order`, then swept. None stands for the exception or
     * TypeError a paste's reading or expiry test throws.
     */
    method GetExpiredPastes(batchSize: int, time: int) returns (found: Option<seq<string>>, ghost listed: seq<string>, ghost order: seq<string>)
      requires Valid()
      modifies this
      ensures Valid()
      ensures multiset(order) == multiset(listed)
      ensures exists sources: seq<string> :: (|sources| == |listed|
        && (forall i :: 0 <= i < |sources| ==> listed[i] == BaseName(sources[i]))
        && multiset(sources) == multiset(ListedFiles(path, old(files))))
      ensures found == SweepFrom(order, Statuses(dirs, old(files), order, time), batchSize, 0, 0).found
      ensures SweepFrom(order, Statuses(dirs, old(files), order, time), batchSize, 0, 0).visited <= |order|
      ensures files == ConvertedAll(dirs, old(files), order[..SweepFrom(order, Statuses(dirs, old(files), order, time), batchSize, 0, 0).visited])
      ensures dirs == old(dirs)
      ensures purgeLimiter == old(purgeLimiter) && trafficLimiter == old(trafficLimiter) && lastCache == old(lastCache)
    {
      ghost var sources;
      var ids;
      ids, sources := GetAllPastes();
      listed := ids;
      var shuffled := Shuffle(ids);
      order := shuffled;
      forall k | 0 <= k < |shuffled| ensures '/' !in shuffled[k] {
        assert shuffled[k] in multiset(ids);
      }
      ghost var st, sweep;
      found, st, sweep := SweepPastes(shuffled, batchSize, time);
    }

    /**
     * The loop of `_getExpiredPastes` over `order`: looks up each id in turn
     * and stops after `batchSize` expired pastes or `10 * batchSize`
     * existing ones, as SweepFrom describes over the statuses the successive
     * lookups find.
     */
    method SweepPastes(order: seq<string>, batchSize: int, time: int)
      returns (found: Option<seq<string>>, ghost st: seq<Status>, ghost sweep: Sweep)
      requires Valid()
      requires forall k :: 0 <= k < |order| ==> '/' !in order[k]
      modifies this
      ensures Valid()
      ensures st == Statuses(dirs, old(files), order, time) && sweep == SweepFrom(order, st, batchSize, 0, 0)
      ensures found == sweep.found && sweep.visited <= |order|
      ensures files == ConvertedAll(dirs, old(files), order[..sweep.visited])
      ensures dirs == old(dirs)
      ensures purgeLimiter == old(purgeLimiter) && trafficLimiter == old(trafficLimiter) && lastCache == old(lastCache)
    {
      ghost var fs0 := files;
      st := Statuses(dirs, fs0, order, time);
      sweep := SweepFrom(order, st, batchSize, 0, 0);
      SweepVisits(order, st, batchSize, 0, 0);
      ResumeStart(order, st, batchSize);
      assert order[..0] == [];
      var pastes: seq<string> := [];
      var count: nat := 0;
      var opens: nat := 0;
      ghost var loaded: nat := 0;
      var i := 0;
      while i < |order|
        invariant 0 <= i <= |order|
        invariant Valid() && dirs == old(dirs)
        invariant purgeLimiter == old(purgeLimiter) && trafficLimiter == old(trafficLimiter) && lastCache == old(lastCache)
        invariant files == ConvertedAll(dirs, fs0, order[..i])
        invariant Statuses(dirs, files, order[i..], time) == st[i..]
        invariant sweep == Resume(pastes, i, loaded, SweepAt(order, st, i, batchSize, count, opens))
        decreases |order| - i
      {
        var stop;
        stop, found, pastes, count, opens, loaded := Visit(fs0, order, st, i, batchSize, time, pastes, count, opens, loaded, sweep);
        if stop {
          return;
        }
        i := i + 1;
      }
      ResumeEnd(order, st, pastes, loaded, batchSize, count, opens);
      found := Some(pastes);
    }

    /**
     * One round of the loop of `_getExpiredPastes`, on the id at `i`: looks
     * it up, counts it, and says whether the loop stops here and with what.
     */
    method Visit(ghost fs0: map<string, string>, order: seq<string>, ghost st: seq<Status>, i: nat,
                 batchSize: int, time: int, pastes: seq<string>, count: nat, opens: nat, ghost loaded: nat, ghost sweep: Sweep)
      returns (stop: bool, found: Option<seq<string>>, pastes': seq<string>, count': nat, opens': nat, ghost loaded': nat)
      requires Valid() && i < |order| && '/' !in order[i] && |st| == |order|
      requires files == ConvertedAll(dirs, fs0, order[..i]) && Statuses(dirs, files, order[i..], time) == st[i..]
      requires sweep == Resume(pastes, i, loaded, SweepAt(order, st, i, batchSize, count, opens))
      modifies this
      ensures Valid() && dirs == old(dirs)
      ensures purgeLimiter == old(purgeLimiter) && trafficLimiter == old(trafficLimiter) && lastCache == old(lastCache)
      ensures files == ConvertedAll(dirs, fs0, order[..i + 1])
      ensures stop ==> sweep.found == found && sweep.visited == i + 1
      ensures !stop ==> (Statuses(dirs, files, order[i + 1..], time) == st[i + 1..]
        && sweep == Resume(pastes', i + 1, loaded', SweepAt(order, st, i + 1, batchSize, count', opens')))
    {
      var id := order[i];
      ghost var before := files;
      var status := Lookup(id, time);
      LookupStep(dirs, fs0, order, st, time, i, before, files, status);
      stop, found, pastes', count', opens', loaded' := Tally(order, st, i, batchSize, status, pastes, count, opens, loaded, sweep);
    }
  }
}
