/**
 * The on-disk layout of the filesystem store: directory fan-out of paste
 * ids, discussion directories, the protection line in front of every
 * JSON document, the conversion of legacy suffix-less files, the salt
 * file format and the glob pattern that lists paste files.
 */
module FilesystemLayout {
  import opened Strings
  import opened Records

  /** First line of every paste or comment file. */
  const PROTECTION_LINE: string := "<?php http_response_code(403); /*"
  const EOL: string := "\n"
  /** Line of the generated `.htaccess` file. */
  const HTACCESS_LINE: string := "Require all denied"
  const PHP_SUFFIX: string := ".php"

  // ---------------------------------------------------------------------
  // Paths

  /** A directory path: empty or ending in a separator. */
  predicate IsDirPath(d: string) {
    d == [] || d[|d| - 1] == '/'
  }

  /** The directory part of a path, up to and including its last separator. */
  function Parent(p: string): (d: string)
    ensures IsDirPath(d) && StartsWith(p, d) && '/' !in p[|d|..]
  {
    if p == [] || p[|p| - 1] == '/' then p
    else
      var d := Parent(p[..|p| - 1]);
      assert p[|d|..] == p[..|p| - 1][|d|..] + [p[|p| - 1]];
      d
  }

  lemma {:induction false} ParentOfChild(d: string, n: string)
    requires IsDirPath(d) && '/' !in n
    ensures Parent(d + n) == d
    decreases |n|
  {
    if n == [] {
      assert d + n == d;
    } else {
      assert (d + n)[|d + n| - 1] == n[|n| - 1];
      assert (d + n)[..|d + n| - 1] == d + n[..|n| - 1];
      ParentOfChild(d, n[..|n| - 1]);
    }
  }

  /** Appending a suffix without separator keeps a file in its directory. */
  lemma ParentOfSuffixed(p: string, sfx: string)
    requires '/' !in sfx
    ensures Parent(p + sfx) == Parent(p)
  {
    var d := Parent(p);
    var n := p[|d|..];
    assert p == d + n;
    assert p + sfx == d + (n + sfx);
    ParentOfChild(d, n);
    ParentOfChild(d, n + sfx);
  }

  /** The directories `mkdir -p d` creates: every prefix of `d` ending in a separator. */
  function Ancestors(d: string): set<string> {
    set k | 0 < k <= |d| && d[k - 1] == '/' :: d[..k]
  }

  lemma AncestorsContains(d: string)
    requires d != [] && IsDirPath(d)
    ensures d in Ancestors(d)
  {
    assert d[..|d|] == d;
  }

  /** `_dataid2path`: `path/ab/cd/` for an id starting with `abcd`. */
  function DataIdToPath(path: string, id: string): string {
    path + "/" + Substr(id, 0, 2) + "/" + Substr(id, 2, 2) + "/"
  }

  /** `_dataid2discussionpath`: the paste's directory plus `id.discussion/`. */
  function DataIdToDiscussionPath(path: string, id: string): string {
    DataIdToPath(path, id) + id + ".discussion/"
  }

  function PasteFile(path: string, id: string): string {
    DataIdToPath(path, id) + id + PHP_SUFFIX
  }

  /** A paste file written before the protection line was introduced. */
  function LegacyPasteFile(path: string, id: string): string {
    DataIdToPath(path, id) + id
  }

  /** Comments are stored as `pasteid.commentid.parentid.php`. */
  function CommentFile(path: string, pasteId: string, parentId: string, commentId: string): string {
    DataIdToDiscussionPath(path, pasteId) + pasteId + "." + commentId + "." + parentId + PHP_SUFFIX
  }

  predicate IsHex(c: char) { ('0' <= c <= '9') || ('a' <= c <= 'f') }

  /** A paste id: sixteen lower-case hexadecimal digits. */
  predicate IsPasteId(id: string) {
    |id| == 16 && forall k :: 0 <= k < |id| ==> IsHex(id[k])
  }

  /**
   * The directory of a paste is the two-level fan-out of its first four
   * characters, and the paste file, legacy or not, lies directly in it.
   */
  lemma PasteLayout(path: string, id: string)
    requires IsPasteId(id)
    ensures DataIdToPath(path, id) == path + "/" + id[..2] + "/" + id[2..4] + "/"
    ensures Parent(PasteFile(path, id)) == DataIdToPath(path, id)
    ensures Parent(LegacyPasteFile(path, id)) == DataIdToPath(path, id)
    ensures Parent(DataIdToDiscussionPath(path, id)) == DataIdToDiscussionPath(path, id)
  {
    var d := DataIdToPath(path, id);
    assert IsDirPath(d);
    assert '/' !in id by { assert forall k :: 0 <= k < |id| ==> id[k] != '/'; }
    assert '/' !in id + PHP_SUFFIX by { assert forall k :: 0 <= k < |id| ==> id[k] != '/'; }
    ParentOfChild(d, id + PHP_SUFFIX);
    assert PasteFile(path, id) == d + (id + PHP_SUFFIX);
    ParentOfChild(d, id);
  }

  /** With a separator-free id, paste files lie directly in the paste directory. */
  lemma PasteFileParent(path: string, id: string)
    requires '/' !in id
    ensures Parent(PasteFile(path, id)) == DataIdToPath(path, id)
    ensures Parent(LegacyPasteFile(path, id)) == DataIdToPath(path, id)
    ensures Parent(DataIdToPath(path, id)) == DataIdToPath(path, id)
  {
    var d := DataIdToPath(path, id);
    assert '/' !in id + PHP_SUFFIX;
    assert PasteFile(path, id) == d + (id + PHP_SUFFIX);
    ParentOfChild(d, id + PHP_SUFFIX);
    ParentOfChild(d, id);
  }

  /** A comment file lies directly in the discussion directory of its paste. */
  lemma CommentLayout(path: string, pasteId: string, parentId: string, commentId: string)
    requires '/' !in pasteId && '/' !in parentId && '/' !in commentId
    ensures Parent(CommentFile(path, pasteId, parentId, commentId)) == DataIdToDiscussionPath(path, pasteId)
  {
    var dd := DataIdToDiscussionPath(path, pasteId);
    var n := pasteId + "." + commentId + "." + parentId + PHP_SUFFIX;
    assert '/' !in n by {
      forall k | 0 <= k < |n| ensures n[k] != '/' {
        if k < |pasteId| { assert n[k] == pasteId[k]; }
        else if k == |pasteId| { }
        else if k < |pasteId| + 1 + |commentId| { assert n[k] == commentId[k - |pasteId| - 1]; }
        else if k == |pasteId| + 1 + |commentId| { }
        else if k < |pasteId| + 2 + |commentId| + |parentId| {
          assert n[k] == parentId[k - |pasteId| - 2 - |commentId|];
        }
        else { assert n[k] == PHP_SUFFIX[k - |pasteId| - 2 - |commentId| - |parentId|]; }
      }
    }
    assert CommentFile(path, pasteId, parentId, commentId) == dd + n;
    ParentOfChild(dd, n);
  }

  /** Different paste ids are stored in different files. */
  lemma PasteFileInjective(path: string, a: string, b: string)
    requires IsPasteId(a) && IsPasteId(b)
    requires PasteFile(path, a) == PasteFile(path, b)
    ensures a == b
  {
    var p := PasteFile(path, a);
    assert p == path + "/" + Substr(a, 0, 2) + "/" + Substr(a, 2, 2) + "/" + a + PHP_SUFFIX;
    assert |Substr(a, 0, 2)| == 2 && |Substr(a, 2, 2)| == 2;
    assert |Substr(b, 0, 2)| == 2 && |Substr(b, 2, 2)| == 2;
    var k := |path| + 7;
    assert p[k..k + 16] == a;
    assert PasteFile(path, b)[k..k + 16] == b;
  }

  /** A comment file is never a paste file: it lies one directory deeper. */
  lemma CommentIsNotPaste(path: string, pasteId: string, parentId: string, commentId: string, id: string)
    requires IsPasteId(pasteId) && IsPasteId(id) && '/' !in parentId && '/' !in commentId
    ensures CommentFile(path, pasteId, parentId, commentId) != PasteFile(path, id)
  {
    assert '/' !in pasteId by { assert forall k :: 0 <= k < |pasteId| ==> pasteId[k] != '/'; }
    CommentLayout(path, pasteId, parentId, commentId);
    PasteLayout(path, id);
    PasteLayout(path, pasteId);
    assert |DataIdToDiscussionPath(path, pasteId)| > |DataIdToPath(path, id)|;
  }

  lemma FanOut(path: string, id: string)
    requires |id| >= 4
    ensures DataIdToPath(path, id) == path + "/" + id[..2] + "/" + id[2..4] + "/"
  {
  }

  /** The example of `_dataid2path`'s documentation. */
  lemma LayoutExample()
    ensures DataIdToPath("data", "e3570978f9e4aa90") == "data/e3/57/"
  {
    var id := "e3570978f9e4aa90";
    FanOut("data", id);
    assert id[..2] == "e3" && id[2..4] == "57";
  }

  // ---------------------------------------------------------------------
  // Protected documents

  /** The content `_store` writes for a JSON document. */
  function Protect(json: string): string {
    PROTECTION_LINE + EOL + json
  }

  /** What `_get` hands to the JSON decoder: the content after the protection line. */
  function Unprotect(content: string): string {
    SubstrFrom(content, |PROTECTION_LINE + EOL|)
  }

  lemma UnprotectProtect(json: string)
    ensures Unprotect(Protect(json)) == json
  {
    assert Protect(json) == (PROTECTION_LINE + EOL) + json;
    SubstrFromAppend(PROTECTION_LINE + EOL, json);
  }

  // ---------------------------------------------------------------------
  // Conversion of legacy files

  /** `_prependRename(src, dest)`: `dest` gets the protected content unless it exists; `src` goes. */
  function PrependRenamed(fs: map<string, string>, src: string, dest: string): map<string, string>
    requires src in fs
  {
    (if dest in fs then fs else fs[dest := Protect(fs[src])]) - {src}
  }

  predicate NoPhpSuffix(srcs: set<string>) {
    forall s :: s in srcs ==> !EndsWith(s, PHP_SUFFIX)
  }

  lemma SuffixedInjective(s: string, t: string)
    requires s + PHP_SUFFIX == t + PHP_SUFFIX
    ensures s == t
  {
    assert s == (s + PHP_SUFFIX)[..|s|];
    assert t == (t + PHP_SUFFIX)[..|t|];
  }

  lemma SuffixedEndsWith(s: string)
    ensures EndsWith(s + PHP_SUFFIX, PHP_SUFFIX)
  {
    assert (s + PHP_SUFFIX)[|s|..] == PHP_SUFFIX;
  }

  lemma SuffixedInjectiveOn(srcs: set<string>)
    ensures forall s, t :: s in srcs && t in srcs && s + PHP_SUFFIX == t + PHP_SUFFIX ==> s == t
  {
    forall s, t | s in srcs && t in srcs && s + PHP_SUFFIX == t + PHP_SUFFIX ensures s == t {
      SuffixedInjective(s, t);
    }
  }

  /** `fs` once every file of `srcs` has been renamed to its `.php` name by `_prependRename`. */
  function Renamed(fs: map<string, string>, srcs: set<string>): map<string, string>
    requires srcs <= fs.Keys
  {
    var kept := map f | f in fs && f !in srcs :: fs[f];
    SuffixedInjectiveOn(srcs);
    var added := map s | s in srcs && s + PHP_SUFFIX !in fs :: s + PHP_SUFFIX := Protect(fs[s]);
    kept + added
  }

  /** What a file of `Renamed` holds. */
  lemma RenamedAt(fs: map<string, string>, srcs: set<string>, f: string)
    requires srcs <= fs.Keys && NoPhpSuffix(srcs)
    ensures f in srcs ==> f !in Renamed(fs, srcs)
    ensures f in fs && f !in srcs ==> f in Renamed(fs, srcs) && Renamed(fs, srcs)[f] == fs[f]
    ensures forall s :: s in srcs && f == s + PHP_SUFFIX && f !in fs ==>
      f in Renamed(fs, srcs) && Renamed(fs, srcs)[f] == Protect(fs[s])
    ensures f in Renamed(fs, srcs) ==> f in fs || exists s :: s in srcs && f == s + PHP_SUFFIX
  {
    if f in srcs {
      forall s | s in srcs && s + PHP_SUFFIX == f
        ensures false
      {
        SuffixedEndsWith(s);
      }
    }
    forall s | s in srcs && f == s + PHP_SUFFIX && f !in fs
      ensures Renamed(fs, srcs)[f] == Protect(fs[s])
    {
      forall t | t in srcs && t + PHP_SUFFIX == f ensures t == s { SuffixedInjective(s, t); }
    }
  }

  /** The `.php` name of a file about to be renamed is present exactly when it was at the start. */
  lemma RenamedTarget(fs: map<string, string>, done: set<string>, s: string)
    requires done <= fs.Keys && s in fs && s !in done && NoPhpSuffix(done + {s})
    ensures s in Renamed(fs, done)
    ensures s + PHP_SUFFIX in Renamed(fs, done) <==> s + PHP_SUFFIX in fs
    ensures s + PHP_SUFFIX in fs ==> Renamed(fs, done)[s + PHP_SUFFIX] == fs[s + PHP_SUFFIX]
  {
    var g := Renamed(fs, done);
    RenamedAt(fs, done, s);
    assert s + PHP_SUFFIX !in done by { SuffixedEndsWith(s); }
    RenamedAt(fs, done, s + PHP_SUFFIX);
    if s + PHP_SUFFIX in g && s + PHP_SUFFIX !in fs {
      var t :| t in done && s + PHP_SUFFIX == t + PHP_SUFFIX;
      SuffixedInjective(s, t);
    }
  }

  lemma RenamedStepAt(fs: map<string, string>, done: set<string>, s: string, f: string)
    requires done <= fs.Keys && s in fs && s !in done && NoPhpSuffix(done + {s})
    requires s in Renamed(fs, done)
    ensures var lhs := PrependRenamed(Renamed(fs, done), s, s + PHP_SUFFIX);
      var h := Renamed(fs, done + {s});
      (f in lhs <==> f in h) && (f in lhs ==> lhs[f] == h[f])
  {
    var g := Renamed(fs, done);
    var h := Renamed(fs, done + {s});
    var lhs := PrependRenamed(g, s, s + PHP_SUFFIX);
    RenamedAt(fs, done + {s}, f);
    if f == s {
    } else if f == s + PHP_SUFFIX {
      RenamedTarget(fs, done, s);
      assert f !in done + {s} by { SuffixedEndsWith(s); }
    } else {
      RenamedAt(fs, done, f);
      assert f in lhs <==> f in g;
      if f in g && f !in fs {
        var t :| t in done && f == t + PHP_SUFFIX;
        assert f in h;
      }
      if f in h && f !in fs {
        var t :| t in done + {s} && f == t + PHP_SUFFIX;
        assert t != s;
        assert f in g;
      }
    }
  }

  /** One more `_prependRename` extends the set of renamed files by one. */
  lemma RenamedStep(fs: map<string, string>, done: set<string>, s: string)
    requires done <= fs.Keys && s in fs && s !in done && NoPhpSuffix(done + {s})
    ensures s in Renamed(fs, done)
    ensures PrependRenamed(Renamed(fs, done), s, s + PHP_SUFFIX) == Renamed(fs, done + {s})
  {
    RenamedTarget(fs, done, s);
    var lhs := PrependRenamed(Renamed(fs, done), s, s + PHP_SUFFIX);
    var h := Renamed(fs, done + {s});
    forall f
      ensures f in lhs <==> f in h
      ensures f in lhs ==> lhs[f] == h[f]
    {
      RenamedStepAt(fs, done, s, f);
    }
  }

  /** Renaming keeps every file in its directory. */
  lemma RenamedParents(fs: map<string, string>, srcs: set<string>, dirs: set<string>)
    requires srcs <= fs.Keys && NoPhpSuffix(srcs)
    requires forall f :: f in fs ==> Parent(f) in dirs
    ensures forall f :: f in Renamed(fs, srcs) ==> Parent(f) in dirs
  {
    forall f | f in Renamed(fs, srcs) ensures Parent(f) in dirs {
      RenamedAt(fs, srcs, f);
      if f !in fs {
        var s :| s in srcs && f == s + PHP_SUFFIX;
        ParentOfSuffixed(s, PHP_SUFFIX);
      }
    }
  }

  /** The files directly inside directory `d`. */
  function FilesIn(fs: map<string, string>, d: string): set<string> {
    set f | f in fs && Parent(f) == d
  }

  /** The name of a file inside directory `d`. */
  function NameIn(d: string, f: string): string
    requires StartsWith(f, d)
  {
    f[|d|..]
  }

  /** A legacy comment file: at least 16 characters long and without `.php` suffix. */
  predicate IsLegacyName(name: string) {
    !EndsWith(name, PHP_SUFFIX) && |name| >= 16
  }

  function LegacyComments(fs: map<string, string>, d: string): set<string> {
    set f | f in FilesIn(fs, d) && IsLegacyName(NameIn(d, f))
  }

  lemma LegacyCommentsNoSuffix(fs: map<string, string>, d: string)
    ensures NoPhpSuffix(LegacyComments(fs, d)) && LegacyComments(fs, d) <= fs.Keys
  {
    forall f | f in LegacyComments(fs, d) ensures !EndsWith(f, PHP_SUFFIX) {
      var n := NameIn(d, f);
      assert f[|f| - 4..] == n[|n| - 4..];
    }
  }

  // ---------------------------------------------------------------------
  // The salt file

  /** The content `setValue` writes for the salt. */
  function SaltContent(value: string): string {
    "<?php # |" + value + "|"
  }

  /** `getValue('salt')` on the content of the salt file. */
  function SaltOf(content: string): string {
    var items := Explode('|', content);
    if |items| == 3 then items[1] else ""
  }

  /** The salt reads back exactly when it contains no separator; one holding a separator reads back as ''. */
  lemma SaltRoundTrip(value: string)
    ensures SaltOf(SaltContent(value)) == value <==> '|' !in value
    ensures '|' in value ==> SaltOf(SaltContent(value)) == ""
  {
    var pre := "<?php # ";
    assert '|' !in pre;
    assert SaltContent(value) == pre + ['|'] + (value + "|");
    if '|' !in value {
      SaltReadsBack(pre, value);
    } else {
      SaltLost(pre, value);
    }
  }

  lemma SaltReadsBack(pre: string, value: string)
    requires '|' !in pre && '|' !in value
    ensures SaltOf(pre + ['|'] + (value + "|")) == value
  {
    ExplodeCons('|', pre, value + "|");
    assert value + "|" == value + ['|'] + "";
    ExplodeCons('|', value, "");
    assert Explode('|', "") == [""];
  }

  lemma SaltLost(pre: string, value: string)
    requires '|' in value
    ensures SaltOf(pre + ['|'] + (value + "|")) == ""
  {
    var c := pre + ['|'] + (value + "|");
    ExplodeLength('|', c);
    CountAppend('|', pre + ['|'], value + "|");
    CountAppend('|', value, "|");
    CountZero('|', value);
    assert Count('|', "|") == 1;
    assert Count('|', pre + ['|']) >= 1 by {
      CountAppend('|', pre, ['|']);
      assert Count('|', ['|']) == 1;
    }
  }

  // ---------------------------------------------------------------------
  // PASTE_FILE_PATTERN

  predicate AllHex(s: string) { forall k :: 0 <= k < |s| ==> IsHex(s[k]) }

  /**
   * `f` matches `path/[a-f0-9]{2}/[a-f0-9]{2}/[a-f0-9]{16}*`, where `*`
   * matches any characters but the separator.
   */
  predicate MatchesPastePattern(path: string, f: string) {
    var base := path + "/";
    && StartsWith(f, base)
    && var r := f[|base|..];
       && |r| >= 22
       && AllHex(r[..2]) && r[2] == '/'
       && AllHex(r[3..5]) && r[5] == '/'
       && AllHex(r[6..22]) && '/' !in r[22..]
  }

  /** `SplFileInfo::getBasename('.php')`: the last path component without the suffix. */
  function BaseName(f: string): (b: string)
    ensures '/' !in b
  {
    var name := f[|Parent(f)|..];
    if EndsWith(name, PHP_SUFFIX) && name != PHP_SUFFIX then
      assert forall k :: 0 <= k < |name| - 4 ==> name[..|name| - 4][k] == name[k];
      name[..|name| - 4]
    else name
  }

  lemma PasteNameMatches(path: string, id: string, name: string)
    requires IsPasteId(id) && StartsWith(name, id) && '/' !in name[16..]
    ensures MatchesPastePattern(path, DataIdToPath(path, id) + name)
  {
    var base := path + "/";
    var r := id[..2] + "/" + id[2..4] + "/" + name;
    assert DataIdToPath(path, id) + name == base + r;
    assert (base + r)[|base|..] == r;
    assert r[..2] == id[..2] && r[3..5] == id[2..4] && r[6..22] == id && r[22..] == name[16..];
    assert AllHex(id[..2]) && AllHex(id[2..4]) by {
      assert forall k :: 0 <= k < 2 ==> id[..2][k] == id[k] && id[2..4][k] == id[k + 2];
    }
  }

  lemma PasteNameBase(path: string, id: string, name: string)
    requires IsPasteId(id) && '/' !in name && (name == id || name == id + PHP_SUFFIX)
    ensures BaseName(DataIdToPath(path, id) + name) == id
  {
    var d := DataIdToPath(path, id);
    ParentOfChild(d, name);
    assert (d + name)[|d|..] == name;
    if name == id {
      assert id[|id| - 4..] != PHP_SUFFIX by { assert id[|id| - 4..][0] == id[12]; }
    } else {
      assert name[|name| - 4..] == PHP_SUFFIX;
      assert name[..|name| - 4] == id;
    }
  }

  lemma PasteIdNames(id: string)
    requires IsPasteId(id)
    ensures '/' !in id && '/' !in id + PHP_SUFFIX
    ensures (id + PHP_SUFFIX)[..16] == id && (id + PHP_SUFFIX)[16..] == PHP_SUFFIX
    ensures id[..16] == id && id[16..] == []
  {
    assert forall k :: 0 <= k < |id| ==> id[k] != '/';
  }

  /** Both a paste file and its legacy form are listed under the paste id. */
  lemma PasteFileListed(path: string, id: string)
    requires IsPasteId(id)
    ensures MatchesPastePattern(path, PasteFile(path, id)) && BaseName(PasteFile(path, id)) == id
    ensures MatchesPastePattern(path, LegacyPasteFile(path, id)) && BaseName(LegacyPasteFile(path, id)) == id
  {
    PasteIdNames(id);
    PasteNameMatches(path, id, id + PHP_SUFFIX);
    PasteNameMatches(path, id, id);
    PasteNameBase(path, id, id + PHP_SUFFIX);
    PasteNameBase(path, id, id);
    assert PasteFile(path, id) == DataIdToPath(path, id) + (id + PHP_SUFFIX);
  }
}
