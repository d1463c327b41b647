/**
 * The object-store backend: pastes, comments and configuration values as
 * objects of one bucket under an optional key prefix, the paged listing the
 * store drains, the metadata copy the expiry scan reads instead of the
 * bodies, and the walk that finds expired pastes.
 */
module S3Store {
  import opened Strings
  import opened Records

  /** An object of the bucket: its body and its string-valued metadata. */
  datatype Object = Object(body: string, metadata: map<string, string>)

  type Bucket = map<string, Object>

  // ---------------------------------------------------------------------
  // Key layout

  /** `_getKey`: the key of a paste's object. */
  function PasteKey(prefix: string, id: string): string {
    if prefix != "" then prefix + "/" + id else id
  }

  /** The prefix every key of the store starts with: empty, or the configured prefix and `/`. */
  function Base(prefix: string): string {
    if prefix != "" then prefix + "/" else ""
  }

  /** The prefix of the keys of a paste's comments. */
  function DiscussionPrefix(prefix: string, pasteId: string): string {
    PasteKey(prefix, pasteId) + "/discussion/"
  }

  /** The key `createComment` and `existsComment` use. */
  function CommentKey(prefix: string, pasteId: string, parentId: string, commentId: string): string {
    DiscussionPrefix(prefix, pasteId) + parentId + "/" + commentId
  }

  /** The key of a namespace of configuration values. */
  function ConfigPath(prefix: string, namespace: string): string {
    Base(prefix) + "config/" + namespace
  }

  /** The key `setValue` and `getValue` use: the namespace's key, or one below it when a key is given. */
  function ConfigKey(prefix: string, namespace: string, key: string): string {
    if key == "" then ConfigPath(prefix, namespace) else ConfigPath(prefix, namespace) + "/" + key
  }

  /** A paste key is the store's base followed by the id, and is told apart from other pastes' keys. */
  lemma PasteKeyLayout(prefix: string, id: string, other: string)
    ensures PasteKey(prefix, id) == Base(prefix) + id
    ensures SubstrFrom(PasteKey(prefix, id), |Base(prefix)|) == id
    ensures PasteKey(prefix, id) == PasteKey(prefix, other) <==> id == other
  {
    SubstrFromAppend(Base(prefix), id);
    if PasteKey(prefix, id) == PasteKey(prefix, other) {
      SubstrFromAppend(Base(prefix), other);
    }
  }

  /**
   * Below the base, a paste's key has no `/` while comment and
   * configuration keys do: only pastes pass the `getAllPastes` filter.
   */
  lemma KeyKinds(prefix: string, id: string, parentId: string, commentId: string, namespace: string, key: string)
    requires '/' !in id
    ensures '/' !in SubstrFrom(PasteKey(prefix, id), |Base(prefix)|)
    ensures '/' in SubstrFrom(CommentKey(prefix, id, parentId, commentId), |Base(prefix)|)
    ensures '/' in SubstrFrom(ConfigKey(prefix, namespace, key), |Base(prefix)|)
  {
    PasteKeyLayout(prefix, id, id);
    CommentKeyBelowBase(prefix, id, parentId, commentId);
    ConfigKeyBelowBase(prefix, namespace, key);
  }

  /** Below the base, a comment key holds a `/` after the paste id. */
  lemma CommentKeyBelowBase(prefix: string, id: string, parentId: string, commentId: string)
    ensures '/' in SubstrFrom(CommentKey(prefix, id, parentId, commentId), |Base(prefix)|)
  {
    var b := Base(prefix);
    PasteKeyLayout(prefix, id, id);
    var c := id + "/discussion/" + parentId + "/" + commentId;
    assert CommentKey(prefix, id, parentId, commentId) == b + c;
    SubstrFromAppend(b, c);
    assert c[|id|] == '/';
  }

  /** Below the base, a configuration key holds the `/` after `config`. */
  lemma ConfigKeyBelowBase(prefix: string, namespace: string, key: string)
    ensures '/' in SubstrFrom(ConfigKey(prefix, namespace, key), |Base(prefix)|)
  {
    var b := Base(prefix);
    var rest := if key == "" then "" else "/" + key;
    var k := "config/" + namespace + rest;
    assert ConfigKey(prefix, namespace, key) == b + k;
    SubstrFromAppend(b, k);
    assert k[6] == '/';
  }

  /** Every comment of a paste lies under its discussion prefix. */
  lemma CommentUnderDiscussion(prefix: string, pasteId: string, parentId: string, commentId: string)
    ensures StartsWith(CommentKey(prefix, pasteId, parentId, commentId), DiscussionPrefix(prefix, pasteId))
  {
    var d := DiscussionPrefix(prefix, pasteId);
    assert CommentKey(prefix, pasteId, parentId, commentId) == d + (parentId + "/" + commentId);
  }

  /**
   * With ids free of `/`, nothing of one paste lies under another paste's
   * discussion prefix: `delete` leaves the other pastes and their comments.
   */
  lemma DiscussionsDisjoint(prefix: string, id: string, other: string, parentId: string, commentId: string)
    requires '/' !in id && '/' !in other && id != other
    ensures !StartsWith(PasteKey(prefix, other), DiscussionPrefix(prefix, id))
    ensures !StartsWith(CommentKey(prefix, other, parentId, commentId), DiscussionPrefix(prefix, id))
    ensures PasteKey(prefix, other) != PasteKey(prefix, id)
  {
    PasteKeyLayout(prefix, id, other);
    PasteKeyLayout(prefix, other, other);
    CommentOutsideDiscussion(prefix, id, other, parentId, commentId);
  }

  /** A comment of paste `other` does not lie under the discussion prefix of a different paste. */
  lemma CommentOutsideDiscussion(prefix: string, id: string, other: string, parentId: string, commentId: string)
    requires '/' !in id && '/' !in other && id != other
    ensures !StartsWith(CommentKey(prefix, other, parentId, commentId), DiscussionPrefix(prefix, id))
  {
    var b := Base(prefix);
    PasteKeyLayout(prefix, id, id);
    PasteKeyLayout(prefix, other, other);
    var d := DiscussionPrefix(prefix, id);
    assert d == b + (id + "/discussion/");
    var ck := CommentKey(prefix, other, parentId, commentId);
    var x := other + "/discussion/" + parentId + "/" + commentId;
    assert ck == b + x;
    SubstrFromAppend(b, x);
    var y := if StartsWith(ck, d) then ck[|d|..] else "";
    assert StartsWith(ck, d) ==> ck == d + y;
    assert StartsWith(ck, d) ==> x == id + ("/discussion/" + y);
    SameSegment(x, other, "/discussion/" + parentId + "/" + commentId, id, "/discussion/" + y);
  }

  /**
   * Two ways of reading `x` as a segment free of `/` followed by nothing or
   * by a `/`: the segments agree and so do the rests.
   */
  lemma SameSegment(x: string, a: string, ra: string, c: string, rc: string)
    requires '/' !in a && '/' !in c
    requires x == a + ra && (ra == "" || ra[0] == '/')
    requires rc == "" || rc[0] == '/'
    ensures x == c + rc ==> a == c && ra == rc
  {
    if x == c + rc {
      assert forall j :: 0 <= j < |a| ==> x[j] == a[j] && x[j] != '/';
      assert forall j :: 0 <= j < |c| ==> x[j] == c[j] && x[j] != '/';
      assert |a| < |x| ==> x[|a|] == '/';
      assert |c| < |x| ==> x[|c|] == '/';
      assert |a| == |c|;
      assert a == x[..|a|] == c;
    }
  }

  /** Configuration keys of namespaces free of `/` are distinct for distinct namespace/key pairs. */
  lemma ConfigKeysDistinct(prefix: string, ns1: string, k1: string, ns2: string, k2: string)
    requires '/' !in ns1 && '/' !in ns2
    requires ConfigKey(prefix, ns1, k1) == ConfigKey(prefix, ns2, k2)
    ensures ns1 == ns2 && k1 == k2
  {
    var c := Base(prefix) + "config/";
    var r1 := if k1 == "" then "" else "/" + k1;
    var r2 := if k2 == "" then "" else "/" + k2;
    var s := ConfigKey(prefix, ns1, k1);
    assert s == c + (ns1 + r1) && s == c + (ns2 + r2);
    var t := s[|c|..];
    assert t == ns1 + r1 && t == ns2 + r2;
    SameSegment(t, ns1, r1, ns2, r2);
    assert k1 != "" ==> k1 == r1[1..];
    assert k2 != "" ==> k2 == r2[1..];
  }

  // ---------------------------------------------------------------------
  // Listing

  /** The keys of `bucket` that start with `p`. */
  function Listed(bucket: Bucket, p: string): set<string> {
    set k | k in bucket && StartsWith(k, p)
  }

  /** The keys of `keys` after the marker; all of them when there is none. */
  function After(keys: set<string>, marker: Option<string>): set<string> {
    if marker.None? then keys else set k | k in keys && Less(marker.value, k)
  }

  function Elements(s: seq<string>): set<string> {
    set k | k in s
  }

  /**
   * What the bucket service returns for one `listObjects` request over the
   * keys `pending` that follow the marker: up to `pageSize` of them, the
   * least ones, in order, and whether any are left.
   */
  ghost predicate IsPage(pending: set<string>, keys: seq<string>, truncated: bool, pageSize: nat) {
    StrictlySorted(keys) && |keys| <= pageSize
    && Elements(keys) <= pending
    && (forall i, k :: 0 <= i < |keys| && k in pending - Elements(keys) ==> Less(keys[i], k))
    && (truncated <==> pending - Elements(keys) != {})
    && (truncated ==> |keys| == pageSize)
  }

  /**
   * What `_listAllObjects` keeps while draining the pages of the keys
   * `listed`: the keys gathered so far in order, the marker at the last of
   * them, and every key still to come after all of them.
   */
  ghost predicate Drained(listed: set<string>, all: seq<string>, marker: Option<string>) {
    StrictlySorted(all)
    && Elements(all) + After(listed, marker) == listed
    && (forall i, k :: 0 <= i < |all| && k in After(listed, marker) ==> Less(all[i], k))
    && (marker == if all == [] then None else Some(all[|all| - 1]))
    && (marker.Some? ==> marker.value in listed)
  }

  /** The state of the selection loop of `listObjects`: `keys` are the least of `pending`, `rest` the others. */
  ghost predicate Selecting(pending: set<string>, keys: seq<string>, rest: set<string>) {
    StrictlySorted(keys)
    && Elements(keys) + rest == pending && Elements(keys) !! rest
    && (forall i, k :: 0 <= i < |keys| && k in rest ==> Less(keys[i], k))
  }

  lemma SelectStep(pending: set<string>, keys: seq<string>, rest: set<string>, k: string)
    requires Selecting(pending, keys, rest)
    requires k in rest && forall j :: j in rest && j != k ==> Less(k, j)
    ensures Selecting(pending, keys + [k], rest - {k})
  {
    var t := keys + [k];
    assert Elements(t) == Elements(keys) + {k};
    forall i, j | 0 <= i < j < |t| ensures Less(t[i], t[j]) {
      if j < |keys| { assert t[i] == keys[i] && t[j] == keys[j]; }
      else { assert t[i] == keys[i]; }
    }
    forall i, j | 0 <= i < |t| && j in rest - {k} ensures Less(t[i], j) {
      if i < |keys| { assert t[i] == keys[i]; }
    }
  }

  lemma SelectDone(pending: set<string>, keys: seq<string>, rest: set<string>)
    requires Selecting(pending, keys, rest)
    ensures pending - Elements(keys) == rest && Elements(keys) <= pending
  {
  }

  /** A strictly sorted sequence has no repeated key. */
  lemma SortedDistinct(s: seq<string>, i: nat)
    requires StrictlySorted(s) && i < |s|
    ensures s[i] !in s[..i]
  {
    if s[i] in s[..i] {
      var j :| 0 <= j < i && s[j] == s[i];
      LessIrreflexive(s[i]);
    }
  }

  /** After one page: the keys after the page's last key are the pending ones the page did not return. */
  lemma AfterPage(listed: set<string>, marker: Option<string>, keys: seq<string>, truncated: bool, n: nat)
    requires marker.Some? ==> marker.value in listed
    requires IsPage(After(listed, marker), keys, truncated, n) && keys != []
    ensures After(listed, Some(keys[|keys| - 1])) == After(listed, marker) - Elements(keys)
  {
    var pending := After(listed, marker);
    var last := keys[|keys| - 1];
    assert last in Elements(keys);
    forall k | k in After(listed, Some(last)) ensures k in pending - Elements(keys) {
      if marker.Some? {
        LessTransitive(marker.value, last, k);
      }
      if k in Elements(keys) {
        var i :| 0 <= i < |keys| && keys[i] == k;
        if i < |keys| - 1 {
          LessTransitive(k, last, k);
        }
        LessIrreflexive(k);
      }
    }
  }

  /** Appending a page to what `_listAllObjects` gathered keeps `Drained`, and the pending keys shrink by the page. */
  lemma DrainStep(listed: set<string>, all: seq<string>, marker: Option<string>, keys: seq<string>, truncated: bool, n: nat)
    requires Drained(listed, all, marker)
    requires IsPage(After(listed, marker), keys, truncated, n)
    ensures var m := if keys == [] then marker else Some(keys[|keys| - 1]);
      Drained(listed, all + keys, m)
      && After(listed, m) == After(listed, marker) - Elements(keys)
  {
    var pending := After(listed, marker);
    if keys != [] {
      AfterPage(listed, marker, keys, truncated, n);
      var t := all + keys;
      assert Elements(t) == Elements(all) + Elements(keys);
      SortedJoin(all, keys);
      forall i, k | 0 <= i < |t| && k in pending - Elements(keys) ensures Less(t[i], k) {
        if i < |all| { assert t[i] == all[i]; } else { assert t[i] == keys[i - |all|]; }
      }
      assert t[|t| - 1] == keys[|keys| - 1];
      assert keys[|keys| - 1] in Elements(keys);
    } else {
      assert all + keys == all;
    }
  }

  /** Two sorted runs, every key of the first below every key of the second, join into a sorted run. */
  lemma SortedJoin(a: seq<string>, b: seq<string>)
    requires StrictlySorted(a) && StrictlySorted(b)
    requires forall i, k :: 0 <= i < |a| && k in Elements(b) ==> Less(a[i], k)
    ensures StrictlySorted(a + b)
  {
    var t := a + b;
    forall i, j | 0 <= i < j < |t| ensures Less(t[i], t[j]) {
      if j < |a| { assert t[i] == a[i] && t[j] == a[j]; }
      else if i < |a| { assert t[i] == a[i] && t[j] == b[j - |a|]; assert b[j - |a|] in Elements(b); }
      else { assert t[i] == b[i - |a|] && t[j] == b[j - |a|]; }
    }
  }

  // ---------------------------------------------------------------------
  // Metadata

  /** The `meta` fields `_upload` does not copy into the object's metadata. */
  const Unreplicated: set<string> := {"attachment", "attachmentname", "salt"}

  /** The metadata `_upload` stores: `meta` without the attachment fields and the salt, each value as a string. */
  function MetadataOf(payload: Record): map<string, string> {
    var meta := Meta(payload);
    map k | k in meta.Keys - Unreplicated :: ToStr(meta[k])
  }

  /** An integer `meta` field is copied so that `(int)` of the copy gives it back. */
  lemma MetadataKeepsInts(payload: Record, field: string, n: PhpInt)
    requires field in Meta(payload) && Meta(payload)[field] == Int(n) && field !in Unreplicated
    ensures field in MetadataOf(payload) && StringToInt(MetadataOf(payload)[field]) == n
    ensures IsNumeric(MetadataOf(payload)[field])
  {
    IntStringRoundTrip(n);
  }

  /** The metadata `setValue` stores: the namespace, and the value itself except for the salt. */
  function ConfigMetadata(namespace: string, value: string): map<string, string> {
    if namespace != "salt" then map["namespace" := namespace, "value" := value] else map["namespace" := namespace]
  }

  /** `purgeValues`' test on an object's metadata: a numeric `value` below `time`. */
  predicate Stale(md: map<string, string>, time: int) {
    "value" in md && IsNumeric(md["value"]) && StringToInt(md["value"]) < time
  }

  /** `purgeValues`' test on a key: the namespace's own key, or one below it. */
  predicate InNamespace(k: string, path: string) {
    StartsWith(k, path) && (|k| == |path| || k[|path|] == '/')
  }

  /** The objects `purgeValues(namespace, time)` removes, for the namespace key `path`. */
  function Purged(bucket: Bucket, path: string, time: int): set<string> {
    set k | k in bucket && InNamespace(k, path) && Stale(bucket[k].metadata, time)
  }

  /** The objects of `Purged` among the keys `ks`. */
  function PurgedAmong(bucket: Bucket, ks: seq<string>, path: string, time: int): set<string> {
    set k | k in ks && k in bucket && InNamespace(k, path) && Stale(bucket[k].metadata, time)
  }

  /** A salt is stored without a `value`, so `purgeValues` never removes it. */
  lemma SaltNeverPurged(b: Bucket, prefix: string, key: string, salt: string, path: string, time: int)
    ensures ConfigKey(prefix, "salt", key) !in Purged(b[ConfigKey(prefix, "salt", key) := Object(salt, ConfigMetadata("salt", salt))], path, time)
  {
  }

  lemma StaleValue(namespace: string, n: PhpInt, time: int)
    requires namespace != "salt" && n < time
    ensures Stale(ConfigMetadata(namespace, IntToString(n)), time)
  {
    IntStringRoundTrip(n);
  }

  /** A limiter entry stored by `setValue` with a numeric value below `time` is purged by its namespace. */
  lemma StaleEntryPurged(b: Bucket, prefix: string, namespace: string, key: string, n: PhpInt, time: int)
    requires namespace != "salt" && n < time
    ensures var k := ConfigKey(prefix, namespace, key);
      k in Purged(b[k := Object(IntToString(n), ConfigMetadata(namespace, IntToString(n)))], ConfigPath(prefix, namespace), time)
  {
    StaleValue(namespace, n, time);
    ConfigKeyInNamespace(prefix, namespace, key);
    var k := ConfigKey(prefix, namespace, key);
    var o := Object(IntToString(n), ConfigMetadata(namespace, IntToString(n)));
    assert b[k := o][k].metadata == ConfigMetadata(namespace, IntToString(n));
  }

  /** A configuration key lies in its namespace. */
  lemma ConfigKeyInNamespace(prefix: string, namespace: string, key: string)
    ensures InNamespace(ConfigKey(prefix, namespace, key), ConfigPath(prefix, namespace))
  {
    var p := ConfigPath(prefix, namespace);
    var k := ConfigKey(prefix, namespace, key);
    if key != "" {
      assert k == p + ("/" + key);
      assert k[|p|] == '/';
    } else {
      assert k[..|p|] == p;
    }
  }

  /**
   * `purgeValues` of one namespace leaves the other namespaces alone, also
   * those whose name starts with it (`traffic` and `traffic_limiter`).
   */
  lemma PurgeSparesSiblings(b: Bucket, prefix: string, ns: string, other: string, key: string, time: int)
    requires '/' !in ns && '/' !in other && ns != other
    ensures ConfigKey(prefix, other, key) !in Purged(b, ConfigPath(prefix, ns), time)
  {
    var c := Base(prefix) + "config/";
    var r := if key == "" then "" else "/" + key;
    assert ConfigPath(prefix, ns) == c + ns;
    assert ConfigKey(prefix, other, key) == c + (other + r);
    NamespaceSpared(c, ns, other, r, ConfigKey(prefix, other, key));
  }

  lemma NamespaceSpared(c: string, ns: string, other: string, r: string, k: string)
    requires '/' !in ns && '/' !in other && ns != other
    requires r == "" || r[0] == '/'
    requires k == c + (other + r)
    ensures !InNamespace(k, c + ns)
  {
    var p := c + ns;
    var x := other + r;
    assert x == k[|c|..];
    var rest := if InNamespace(k, p) then k[|p|..] else "";
    assert InNamespace(k, p) ==> k == c + (ns + rest);
    assert InNamespace(k, p) ==> x == ns + rest;
    assert InNamespace(k, p) && |k| > |p| ==> rest[0] == k[|p|];
    SameSegment(x, other, r, ns, rest);
  }

  // ---------------------------------------------------------------------
  // Pastes listing and expiry scan

  /** The ids `getAllPastes` keeps from the keys `ks`: what follows the base, when it holds no `/`. */
  function PastesIn(b: string, ks: seq<string>): seq<string> {
    if ks == [] then []
    else
      var c := SubstrFrom(ks[|ks| - 1], |b|);
      PastesIn(b, ks[..|ks| - 1]) + (if '/' !in c then [c] else [])
  }

  /** The ids kept are exactly those free of `/` whose key under the base is listed. */
  lemma {:induction false} PastesInMembers(b: string, ks: seq<string>, id: string)
    requires forall i :: 0 <= i < |ks| ==> StartsWith(ks[i], b)
    ensures id in PastesIn(b, ks) <==> '/' !in id && b + id in ks
  {
    if ks != [] {
      var u := ks[..|ks| - 1];
      var last := ks[|ks| - 1];
      PastesInMembers(b, u, id);
      assert last == b + last[|b|..];
      SubstrFromAppend(b, last[|b|..]);
      SubstrFromAppend(b, id);
      assert ks == u + [last];
      if b + id == last {
        assert SubstrFrom(last, |b|) == id;
      }
    }
  }

  /** An object the expiry scan collects: a non-zero `expire_date` before `time`. */
  predicate ExpiredObject(o: Object, time: int) {
    "expire_date" in o.metadata
    && StringToInt(o.metadata["expire_date"]) != 0
    && StringToInt(o.metadata["expire_date"]) < time
  }

  /**
   * The loop of `_getExpiredPastes` from the `i`th key on, having collected
   * `hits`: each expired object's key is collected, and the scan stops once
   * `limit` keys are.
   */
  function ScanFrom(bucket: Bucket, keys: seq<string>, i: nat, time: int, limit: int, hits: seq<string>): seq<string>
    requires i <= |keys|
    decreases |keys| - i
  {
    if i == |keys| then hits
    else
      var hits' := if keys[i] in bucket && ExpiredObject(bucket[keys[i]], time) then hits + [keys[i]] else hits;
      if |hits'| >= limit then hits' else ScanFrom(bucket, keys, i + 1, time, limit, hits')
  }

  /** The scan collects no more than `limit` keys (one when the limit is below 1), expired ones only. */
  lemma {:induction false} ScanBounds(bucket: Bucket, keys: seq<string>, i: nat, time: int, limit: int, hits: seq<string>)
    requires i <= |keys| && |hits| < if limit < 1 then 1 else limit
    ensures var r := ScanFrom(bucket, keys, i, time, limit, hits);
      |hits| <= |r| <= (if limit < 1 then 1 else limit)
      && r[..|hits|] == hits
      && forall j :: |hits| <= j < |r| ==> r[j] in keys[i..] && r[j] in bucket && ExpiredObject(bucket[r[j]], time)
    decreases |keys| - i
  {
    if i < |keys| {
      var hits' := if keys[i] in bucket && ExpiredObject(bucket[keys[i]], time) then hits + [keys[i]] else hits;
      if |hits'| < limit {
        ScanBounds(bucket, keys, i + 1, time, limit, hits');
        var r := ScanFrom(bucket, keys, i + 1, time, limit, hits');
        assert r[..|hits'|] == hits';
        assert r[..|hits|] == r[..|hits'|][..|hits|];
        forall j | |hits| <= j < |r| ensures r[j] in keys[i..] && r[j] in bucket && ExpiredObject(bucket[r[j]], time) {
          if j < |hits'| {
            assert r[j] == hits'[j] == keys[i];
          } else {
            assert r[j] in keys[i + 1..];
            assert keys[i + 1..] == keys[i..][1..];
          }
        }
      }
    }
  }

  /** A scan that stopped short of the limit collected every expired key it passed. */
  lemma {:induction false} ScanComplete(bucket: Bucket, keys: seq<string>, i: nat, time: int, limit: int, hits: seq<string>, j: nat)
    requires i <= j < |keys| && keys[j] in bucket && ExpiredObject(bucket[keys[j]], time)
    requires |ScanFrom(bucket, keys, i, time, limit, hits)| < limit
    ensures keys[j] in ScanFrom(bucket, keys, i, time, limit, hits)
    decreases |keys| - i
  {
    var hits' := if keys[i] in bucket && ExpiredObject(bucket[keys[i]], time) then hits + [keys[i]] else hits;
    if |hits'| >= limit {
    } else if j == i {
      ScanKeeps(bucket, keys, i + 1, time, limit, hits');
      assert hits'[|hits|] == keys[i];
    } else {
      ScanComplete(bucket, keys, i + 1, time, limit, hits', j);
    }
  }

  /** The scan only adds to what it has collected. */
  lemma {:induction false} ScanKeeps(bucket: Bucket, keys: seq<string>, i: nat, time: int, limit: int, hits: seq<string>)
    requires i <= |keys|
    ensures var r := ScanFrom(bucket, keys, i, time, limit, hits); |hits| <= |r| && r[..|hits|] == hits
    decreases |keys| - i
  {
    if i < |keys| {
      var hits' := if keys[i] in bucket && ExpiredObject(bucket[keys[i]], time) then hits + [keys[i]] else hits;
      if |hits'| < limit {
        ScanKeeps(bucket, keys, i + 1, time, limit, hits');
        var r := ScanFrom(bucket, keys, i + 1, time, limit, hits');
        assert r[..|hits|] == r[..|hits'|][..|hits|];
      }
    }
  }

  /** `_getExpiredPastes` as written: it breaks once more keys than `batchSize` are collected, and returns the keys. */
  function ExpiredKeysAsWritten(bucket: Bucket, keys: seq<string>, batchSize: int, time: int): (r: seq<string>)
    ensures batchSize >= 0 ==> |r| <= batchSize + 1
  {
    ScanBounds(bucket, keys, 0, time, batchSize + 1, []);
    ScanFrom(bucket, keys, 0, time, batchSize + 1, [])
  }

  /** The ids of the keys `ks` under the base `b`. */
  function IdsOf(b: string, ks: seq<string>): (ids: seq<string>)
    ensures |ids| == |ks|
  {
    if ks == [] then [] else IdsOf(b, ks[..|ks| - 1]) + [SubstrFrom(ks[|ks| - 1], |b|)]
  }

  /** The ids name the keys they come from: `delete` of each reaches its object. */
  lemma {:induction false} IdsReachKeys(prefix: string, ks: seq<string>, j: nat)
    requires forall i :: 0 <= i < |ks| ==> StartsWith(ks[i], Base(prefix))
    requires j < |ks|
    ensures PasteKey(prefix, IdsOf(Base(prefix), ks)[j]) == ks[j]
  {
    var b := Base(prefix);
    if j == |ks| - 1 {
      var id := ks[j][|b|..];
      assert ks[j] == b + id;
      PasteKeyLayout(prefix, id, id);
    } else {
      IdsReachKeys(prefix, ks[..|ks| - 1], j);
    }
  }

  /**
   * Finding: with batch size 1 and two expired pastes the scan as written
   * returns both, one more than the batch size.
   */
  lemma ScanOvershoots(time: int)
    ensures var o := Object("", map["expire_date" := "1"]);
      time > 1 ==> ExpiredKeysAsWritten(map["a" := o, "b" := o], ["a", "b"], 1, time) == ["a", "b"]
  {
    assert LeadingDigits("1") == 1;
    assert "1"[..1] == "1";
    assert StringToInt("1") == 1;
  }

  /**
   * Finding: under the prefix `p` the scan as written returns the object key
   * `p/a`, while the paste's id is `a`; `delete` of `p/a` would look for
   * `p/p/a`, which does not exist.
   */
  lemma ExpiredKeyMissesPaste(time: int)
    ensures var bucket := map["p/a" := Object("", map["expire_date" := "1"])];
      time > 1 ==> (ExpiredKeysAsWritten(bucket, ["p/a"], 1, time) == ["p/a"] && PasteKey("p", "p/a") !in bucket)
  {
    assert LeadingDigits("1") == 1;
    assert "1"[..1] == "1";
    assert StringToInt("1") == 1;
    assert PasteKey("p", "p/a") == "p/p/a";
  }

  // ---------------------------------------------------------------------
  // Comments

  /** The ids `readComments` gives a comment, as written: pieces 3 and 2 of the whole key. */
  function CommentIdsAsWritten(key: string): (Value, Value) {
    var items := Explode('/', key);
    (Item(items, 3), Item(items, 2))
  }

  /** The ids read from the key after the discussion prefix `dp`: the comment id, then the parent id. */
  function CommentIds(dp: string, key: string): (Value, Value) {
    var items := Explode('/', SubstrFrom(key, |dp|));
    (Item(items, 1), Item(items, 0))
  }

  /** The comment `readComments` returns for an object: its decoded body with `id` and `parentid` set. */
  function CommentFrom(codec: Codec, dp: string, key: string, o: Object): Option<Record> {
    match codec.decode(o.body)
    case None => None
    case Some(c) =>
      var ids := CommentIds(dp, key);
      Some(c["id" := ids.0]["parentid" := ids.1])
  }

  /** `(int) $metadata['created']`; a missing entry reads as 0. */
  function CreatedAt(md: map<string, string>): int {
    if "created" in md then StringToInt(md["created"]) else 0
  }

  /** A comment's key gives back its ids. */
  lemma CommentIdsOfKey(prefix: string, pasteId: string, parentId: string, commentId: string)
    requires '/' !in parentId && '/' !in commentId
    ensures CommentIds(DiscussionPrefix(prefix, pasteId), CommentKey(prefix, pasteId, parentId, commentId))
      == (Str(commentId), Str(parentId))
  {
    var dp := DiscussionPrefix(prefix, pasteId);
    var rest := parentId + "/" + commentId;
    assert CommentKey(prefix, pasteId, parentId, commentId) == dp + rest;
    SubstrFromAppend(dp, rest);
    assert rest == parentId + ['/'] + commentId;
    ExplodeCons('/', parentId, commentId);
  }

  /**
   * A comment stored by `createComment` reads back with its ids, and its
   * `created` time comes back from the metadata.
   */
  lemma StoredCommentReadsBack(codec: Codec, prefix: string, pasteId: string, parentId: string, commentId: string, c: Record)
    requires RoundTrips(codec) && codec.encode(c).Some?
    requires '/' !in parentId && '/' !in commentId
    ensures var o := Object(codec.encode(c).value, MetadataOf(c));
      CommentFrom(codec, DiscussionPrefix(prefix, pasteId), CommentKey(prefix, pasteId, parentId, commentId), o)
        == Some(c["id" := Str(commentId)]["parentid" := Str(parentId)])
    ensures "created" in Meta(c) && Meta(c)["created"].Int? ==> CreatedAt(MetadataOf(c)) == Meta(c)["created"].i
  {
    CommentIdsOfKey(prefix, pasteId, parentId, commentId);
    if "created" in Meta(c) && Meta(c)["created"].Int? {
      MetadataKeepsInts(c, "created", Meta(c)["created"].i);
    }
  }

  /** explode('/') of a key made of four segments free of `/`. */
  lemma ExplodeSegments(a: string, b: string, c: string, d: string, s: string)
    requires '/' !in a && '/' !in b && '/' !in c && '/' !in d
    requires s == a + ['/'] + (b + ['/'] + (c + ['/'] + d))
    ensures var items := Explode('/', s);
      |items| == 4 && items[0] == a && items[1] == b && items[2] == c && items[3] == d
  {
    var s3 := c + ['/'] + d;
    ExplodeCons('/', c, d);
    assert Explode('/', s3) == [c, d];
    var s2 := b + ['/'] + s3;
    ExplodeCons('/', b, s3);
    assert Explode('/', s2) == [b, c, d];
    ExplodeCons('/', a, s2);
  }

  /** Without a prefix, the pieces the source reads are the right ones. */
  lemma CommentIdsAsWrittenUnprefixed(pasteId: string, parentId: string, commentId: string)
    requires '/' !in pasteId && '/' !in parentId && '/' !in commentId
    ensures CommentIdsAsWritten(CommentKey("", pasteId, parentId, commentId)) == (Str(commentId), Str(parentId))
  {
    Unprefixed(pasteId, "discussion", parentId, commentId);
  }

  lemma Unprefixed(pasteId: string, discussion: string, parentId: string, commentId: string)
    requires discussion == "discussion" && '/' !in pasteId && '/' !in parentId && '/' !in commentId
    ensures CommentIdsAsWritten(CommentKey("", pasteId, parentId, commentId)) == (Str(commentId), Str(parentId))
  {
    assert '/' !in discussion;
    var key := CommentKey("", pasteId, parentId, commentId);
    assert key == pasteId + ['/'] + (discussion + ['/'] + (parentId + ['/'] + commentId));
    ExplodeSegments(pasteId, discussion, parentId, commentId, key);
  }

  /**
   * Finding: under a prefix the pieces shift by one, so the comment comes
   * back with its parent's id as `id` and `discussion` as `parentid`.
   */
  lemma CommentIdsPrefixed(prefix: string, pasteId: string, parentId: string, commentId: string)
    requires prefix != "" && '/' !in prefix && '/' !in pasteId && '/' !in parentId && '/' !in commentId
    ensures CommentIdsAsWritten(CommentKey(prefix, pasteId, parentId, commentId)) == (Str(parentId), Str("discussion"))
  {
    Prefixed(prefix, pasteId, "discussion", parentId, commentId);
  }

  lemma Prefixed(prefix: string, pasteId: string, discussion: string, parentId: string, commentId: string)
    requires discussion == "discussion" && prefix != ""
    requires '/' !in prefix && '/' !in pasteId && '/' !in parentId && '/' !in commentId
    ensures CommentIdsAsWritten(CommentKey(prefix, pasteId, parentId, commentId)) == (Str(parentId), Str(discussion))
  {
    assert '/' !in discussion;
    var t := pasteId + ['/'] + (discussion + ['/'] + (parentId + ['/'] + commentId));
    var key := CommentKey(prefix, pasteId, parentId, commentId);
    assert key == prefix + ['/'] + t;
    ExplodeCons('/', prefix, t);
    ExplodeSegments(pasteId, discussion, parentId, commentId, t);
  }

  /** What `read` yields for the object under `key`. */
  function ReadOf(codec: Codec, bucket: Bucket, key: string): ReadOutcome {
    if key !in bucket then NotFound
    else match codec.decode(bucket[key].body)
      case None => Corrupt
      case Some(p) => Found(p)
  }

  /** A paste stored by `_upload` reads back unchanged. */
  lemma StoredPasteReadsBack(codec: Codec, bucket: Bucket, key: string, paste: Record)
    requires RoundTrips(codec) && codec.encode(paste).Some?
    ensures ReadOf(codec, bucket[key := Object(codec.encode(paste).value, MetadataOf(paste))], key) == Found(paste)
  {
  }

  // ---------------------------------------------------------------------
  // The store

  /** `_upload`'s copy of the metadata: the `meta` array without the excluded fields, and then every value cast. */
  method CopyMetadata(payload: Record) returns (md: map<string, string>)
    ensures md == MetadataOf(payload)
  {
    var meta := Meta(payload) - Unreplicated;
    md := map[];
    var rest := meta.Keys;
    while rest != {}
      invariant rest <= meta.Keys
      invariant md == map k | k in meta.Keys - rest :: ToStr(meta[k])
      decreases rest
    {
      var k :| k in rest;
      md := md[k := ToStr(meta[k])];
      rest := rest - {k};
    }
  }

  class S3Storage {
    /** The configured key prefix, empty by default. */
    const prefix: string
    /** How many keys the bucket service returns per listing page at most. */
    const pageSize: nat
    const codec: Codec
    /** `getOpenSlot` of the shared base class. */
    const openSlot: (set<Slot>, int) -> Slot
    /** The bucket: every object by key. */
    var objects: Bucket

    ghost predicate Valid() {
      pageSize >= 1 && FreshSlots(openSlot)
    }

    /** The constructor keeps the `prefix` option; the client options are left out. */
    constructor(options: map<string, string>, pageSize: nat, codec: Codec,
                openSlot: (set<Slot>, int) -> Slot, bucket: Bucket)
      requires pageSize >= 1 && FreshSlots(openSlot)
      ensures Valid()
      ensures prefix == (if "prefix" in options then options["prefix"] else "")
      ensures this.codec == codec && this.openSlot == openSlot && this.pageSize == pageSize
      ensures objects == bucket
    {
      this.prefix := if "prefix" in options then options["prefix"] else "";
      this.pageSize := pageSize;
      this.codec := codec;
      this.openSlot := openSlot;
      this.objects := bucket;
    }

    /**
     * The bucket service's `listObjects` request: the least `pageSize` keys
     * under `p` after the marker, in key order, and whether there are more.
     */
    method ListObjects(p: string, marker: Option<string>) returns (keys: seq<string>, truncated: bool)
      requires Valid()
      ensures IsPage(After(Listed(objects, p), marker), keys, truncated, pageSize)
    {
      ghost var pending := After(Listed(objects, p), marker);
      var rest := After(Listed(objects, p), marker);
      keys := [];
      while |keys| < pageSize && rest != {}
        invariant Selecting(pending, keys, rest) && |keys| <= pageSize
        decreases rest
      {
        var k := MinKey(rest);
        SelectStep(pending, keys, rest, k);
        keys := keys + [k];
        rest := rest - {k};
      }
      SelectDone(pending, keys, rest);
      truncated := rest != {};
    }

    /**
     * `_listAllObjects`: requests page after page, the marker at the last key
     * received, until a page is not truncated; the result is every key under
     * `p`, in key order.
     */
    method ListAllObjects(p: string) returns (all: seq<string>)
      requires Valid()
      ensures StrictlySorted(all)
      ensures forall k :: k in all <==> k in objects && StartsWith(k, p)
    {
      ghost var listed := Listed(objects, p);
      all := [];
      var marker: Option<string> := None;
      var truncated := true;
      while truncated
        invariant Drained(listed, all, marker)
        invariant !truncated ==> After(listed, marker) == {}
        decreases if truncated then |After(listed, marker)| + 1 else 0
      {
        var keys;
        keys, truncated := ListObjects(p, marker);
        DrainStep(listed, all, marker, keys, truncated, pageSize);
        all, marker := AppendPage(all, marker, keys);
      }
      DrainedAll(listed, all, marker);
    }

    /** `_upload`: the JSON of the payload as the body and its metadata copy; false when encoding fails. */
    method Upload(key: string, payload: Record) returns (ok: bool)
      modifies this
      ensures ok <==> codec.encode(payload).Some?
      ensures objects == if ok then old(objects)[key := Object(codec.encode(payload).value, MetadataOf(payload))] else old(objects)
    {
      var md := CopyMetadata(payload);
      var body := codec.encode(payload);
      if body.None? {
        return false;
      }
      objects := objects[key := Object(body.value, md)];
      ok := true;
    }

    /** `exists`. */
    predicate Exists(pasteId: string)
      reads this
    {
      PasteKey(prefix, pasteId) in objects
    }

    /** `create`: refuses an id that is taken, else uploads the paste. */
    method Create(pasteId: string, paste: Record) returns (ok: bool)
      modifies this
      ensures ok <==> !old(Exists(pasteId)) && codec.encode(paste).Some?
      ensures objects == if ok then old(objects)[PasteKey(prefix, pasteId) := Object(codec.encode(paste).value, MetadataOf(paste))] else old(objects)
    {
      if Exists(pasteId) {
        return false;
      }
      ok := Upload(PasteKey(prefix, pasteId), paste);
    }

    /** `read`: the decoded paste, false when there is no object, the decoder's exception on bad JSON. */
    method Read(pasteId: string) returns (r: ReadOutcome)
      ensures r == ReadOf(codec, objects, PasteKey(prefix, pasteId))
    {
      var key := PasteKey(prefix, pasteId);
      if key !in objects {
        return NotFound;
      }
      var p := codec.decode(objects[key].body);
      if p.None? {
        return Corrupt;
      }
      r := Found(p.value);
    }

    /** Deletes the objects `keys`; a key already gone is skipped. */
    method DeleteObjects(keys: seq<string>)
      modifies this
      ensures objects == old(objects) - Elements(keys)
    {
      for i := 0 to |keys|
        invariant objects == old(objects) - Elements(keys[..i])
      {
        assert Elements(keys[..i + 1]) == Elements(keys[..i]) + {keys[i]} by {
          assert keys[..i + 1] == keys[..i] + [keys[i]];
        }
        objects := objects - {keys[i]};
      }
      assert keys[..|keys|] == keys;
    }

    /** `delete`: every object under the paste's discussion prefix, then the paste's object. */
    method Delete(pasteId: string)
      requires Valid()
      modifies this
      ensures objects == old(objects) - Listed(old(objects), DiscussionPrefix(prefix, pasteId)) - {PasteKey(prefix, pasteId)}
    {
      var name := PasteKey(prefix, pasteId);
      var comments := ListAllObjects(name + "/discussion/");
      assert Elements(comments) == Listed(objects, DiscussionPrefix(prefix, pasteId));
      DeleteObjects(comments);
      objects := objects - {name};
    }

    /** `existsComment`. */
    predicate ExistsComment(pasteId: string, parentId: string, commentId: string)
      reads this
    {
      CommentKey(prefix, pasteId, parentId, commentId) in objects
    }

    /** `createComment`: refuses a comment that exists, else uploads it under its key. */
    method CreateComment(pasteId: string, parentId: string, commentId: string, comment: Record) returns (ok: bool)
      modifies this
      ensures ok <==> !old(ExistsComment(pasteId, parentId, commentId)) && codec.encode(comment).Some?
      ensures objects == if ok then old(objects)[CommentKey(prefix, pasteId, parentId, commentId) := Object(codec.encode(comment).value, MetadataOf(comment))] else old(objects)
    {
      if ExistsComment(pasteId, parentId, commentId) {
        return false;
      }
      ok := Upload(CommentKey(prefix, pasteId, parentId, commentId), comment);
    }

    /**
     * `readComments`, corrected: every object under the paste's discussion
     * prefix, in listing order, decoded, with its ids read from the key
     * after the discussion prefix (CommentIds; the code as written reads
     * them as CommentIdsAsWritten does, which is wrong under a prefix),
     * under a fresh slot for its `created` time; None when a body is not
     * valid JSON.
     */
    method ReadComments(pasteId: string) returns (r: Option<seq<Entry>>, ghost keys: seq<string>)
      requires Valid()
      ensures StrictlySorted(keys)
      ensures forall k :: k in keys <==> k in objects && StartsWith(k, DiscussionPrefix(prefix, pasteId))
      ensures r.Some? ==> (
        |r.value| == |keys|
        && (forall i :: 0 <= i < |keys| ==>
              CommentFrom(codec, DiscussionPrefix(prefix, pasteId), keys[i], objects[keys[i]]) == Some(r.value[i].1)
              && r.value[i].0.time == CreatedAt(objects[keys[i]].metadata))
        && (forall i, j :: 0 <= i < j < |keys| ==> r.value[i].0 != r.value[j].0))
      ensures r.None? ==> exists i :: 0 <= i < |keys| && codec.decode(objects[keys[i]].body).None?
    {
      var dp := DiscussionPrefix(prefix, pasteId);
      var entries := ListAllObjects(dp);
      keys := entries;
      var comments: seq<Entry> := [];
      for i := 0 to |entries|
        invariant |comments| == i
        invariant CommentsRead(codec, dp, entries, objects, comments)
      {
        var o := objects[entries[i]];
        var body := codec.decode(o.body);
        if body.None? {
          return None, keys;
        }
        var ids := CommentIds(dp, entries[i]);
        var c := body.value["id" := ids.0]["parentid" := ids.1];
        var slot := openSlot(SlotsOf(comments), CreatedAt(o.metadata));
        CommentsReadStep(codec, dp, entries, objects, comments, slot, c);
        comments := comments + [(slot, c)];
      }
      r := Some(comments);
    }

    /** `setValue`: the value as the body of the configuration key, with its metadata; always true. */
    method SetValue(value: string, namespace: string, key: string) returns (ok: bool)
      modifies this
      ensures ok
      ensures objects == old(objects)[ConfigKey(prefix, namespace, key) := Object(value, ConfigMetadata(namespace, value))]
    {
      var k := ConfigKey(prefix, namespace, key);
      objects := objects[k := Object(value, ConfigMetadata(namespace, value))];
      ok := true;
    }

    /** `getValue`: the body of the configuration key, or `''` when there is no such object. */
    method GetValue(namespace: string, key: string) returns (v: string)
      ensures v == ValueOf(objects, ConfigKey(prefix, namespace, key))
    {
      var k := ConfigKey(prefix, namespace, key);
      if k !in objects {
        return "";
      }
      v := objects[k].body;
    }

    /**
     * `purgeValues`: of the objects listed under the namespace's key, those
     * that are the namespace's own key or lie below it and carry a numeric
     * `value` below `time` are deleted.
     */
    method PurgeValues(namespace: string, time: int)
      requires Valid()
      modifies this
      ensures objects == old(objects) - Purged(old(objects), ConfigPath(prefix, namespace), time)
    {
      var path := ConfigPath(prefix, namespace);
      var names := ListAllObjects(path);
      ghost var before := objects;
      for i := 0 to |names|
        invariant objects == before - PurgedAmong(before, names[..i], path, time)
      {
        var name := names[i];
        SortedDistinct(names, i);
        PurgedAmongStep(before, names, i, path, time);
        if |name| > |path| && name[|path|] != '/' {
          continue;
        }
        var md := objects[name].metadata;
        if "value" in md && IsNumeric(md["value"]) && StringToInt(md["value"]) < time {
          objects := objects - {name};
        }
      }
      PurgedAmongAll(before, names, path, time);
    }

    /** `getAllPastes`: of the keys under the base, what follows the base when it holds no `/`. */
    method GetAllPastes() returns (pastes: seq<string>)
      requires Valid()
      ensures forall id :: id in pastes <==> '/' !in id && PasteKey(prefix, id) in objects
    {
      var b := Base(prefix);
      var keys := ListAllObjects(b);
      pastes := [];
      for i := 0 to |keys|
        invariant pastes == PastesIn(b, keys[..i])
      {
        assert keys[..i + 1][..i] == keys[..i];
        var candidate := SubstrFrom(keys[i], |b|);
        if '/' !in candidate {
          pastes := pastes + [candidate];
        }
      }
      assert keys[..|keys|] == keys;
      forall id ensures id in pastes <==> '/' !in id && PasteKey(prefix, id) in objects {
        PastesInMembers(b, keys, id);
        PasteKeyLayout(prefix, id, id);
      }
    }

    /**
     * `_getExpiredPastes`, corrected: the scan over every key under the base
     * stops once `batchSize` expired pastes are collected, and yields their
     * ids rather than their keys.
     */
    method GetExpiredPastes(batchSize: int, time: int) returns (found: seq<string>, ghost keys: seq<string>)
      requires Valid()
      ensures StrictlySorted(keys)
      ensures forall k :: k in keys <==> k in objects && StartsWith(k, Base(prefix))
      ensures found == IdsOf(Base(prefix), ScanFrom(objects, keys, 0, time, batchSize, []))
      ensures |found| <= if batchSize < 1 then 1 else batchSize
      ensures forall j :: 0 <= j < |found| ==>
        PasteKey(prefix, found[j]) in objects && ExpiredObject(objects[PasteKey(prefix, found[j])], time)
      ensures |found| < batchSize ==> forall k :: k in objects && StartsWith(k, Base(prefix)) && ExpiredObject(objects[k], time) ==>
        exists j :: 0 <= j < |found| && PasteKey(prefix, found[j]) == k
    {
      var listing := ListAllObjects(Base(prefix));
      keys := listing;
      found := ScanListing(listing, time, batchSize);
      ExpiredIds(objects, prefix, keys, time, batchSize);
    }

    /** The loop of `_getExpiredPastes` over the listed keys, with the break corrected. */
    method ScanListing(listing: seq<string>, time: int, batchSize: int) returns (found: seq<string>)
      requires forall k :: k in listing ==> k in objects
      ensures found == IdsOf(Base(prefix), ScanFrom(objects, listing, 0, time, batchSize, []))
    {
      var b := Base(prefix);
      found := [];
      ghost var hits: seq<string> := [];
      var i := 0;
      while i < |listing|
        invariant i <= |listing| && found == IdsOf(b, hits)
        invariant ScanFrom(objects, listing, i, time, batchSize, hits) == ScanFrom(objects, listing, 0, time, batchSize, [])
        decreases |listing| - i
      {
        var md := objects[listing[i]].metadata;
        ghost var hits0 := hits;
        if "expire_date" in md {
          var expireAt := StringToInt(md["expire_date"]);
          if expireAt != 0 && expireAt < time {
            found := found + [SubstrFrom(listing[i], |b|)];
            hits := hits + [listing[i]];
            assert hits[..|hits0|] == hits0;
          }
        }
        ScanStep(objects, listing, i, time, batchSize, hits0, hits);
        if |found| >= batchSize {
          break;
        }
        i := i + 1;
      }
    }
  }

  /** The loop over one page in `_listAllObjects`: each key is appended and becomes the marker. */
  method AppendPage(all: seq<string>, marker: Option<string>, keys: seq<string>) returns (all': seq<string>, marker': Option<string>)
    ensures all' == all + keys
    ensures marker' == if keys == [] then marker else Some(keys[|keys| - 1])
  {
    all', marker' := all, marker;
    for j := 0 to |keys|
      invariant all' == all + keys[..j]
      invariant marker' == if j == 0 then marker else Some(keys[j - 1])
    {
      assert keys[..j + 1] == keys[..j] + [keys[j]];
      all' := all' + [keys[j]];
      marker' := Some(keys[j]);
    }
    assert keys[..|keys|] == keys;
  }

  /** Once nothing follows the marker, what was gathered is the whole listing. */
  lemma DrainedAll(listed: set<string>, all: seq<string>, marker: Option<string>)
    requires Drained(listed, all, marker) && After(listed, marker) == {}
    ensures forall k :: k in all <==> k in listed
  {
    assert Elements(all) == listed;
  }

  /**
   * What `readComments` has built from the first `|comments|` listed keys:
   * each comment as read from its object, under a slot for its creation
   * time, no slot twice.
   */
  ghost predicate CommentsRead(codec: Codec, dp: string, entries: seq<string>, bucket: Bucket, comments: seq<Entry>) {
    |comments| <= |entries|
    && (forall j :: 0 <= j < |comments| ==> entries[j] in bucket)
    && (forall j :: 0 <= j < |comments| ==>
          CommentFrom(codec, dp, entries[j], bucket[entries[j]]) == Some(comments[j].1)
          && comments[j].0.time == CreatedAt(bucket[entries[j]].metadata))
    && (forall j, l :: 0 <= j < l < |comments| ==> comments[j].0 != comments[l].0)
  }

  lemma CommentsReadStep(codec: Codec, dp: string, entries: seq<string>, bucket: Bucket, comments: seq<Entry>,
                         slot: Slot, c: Record)
    requires CommentsRead(codec, dp, entries, bucket, comments) && |comments| < |entries|
    requires entries[|comments|] in bucket
    requires CommentFrom(codec, dp, entries[|comments|], bucket[entries[|comments|]]) == Some(c)
    requires slot !in SlotsOf(comments) && slot.time == CreatedAt(bucket[entries[|comments|]].metadata)
    ensures CommentsRead(codec, dp, entries, bucket, comments + [(slot, c)])
  {
    SlotsDiffer(comments, slot);
    var t := comments + [(slot, c)];
    forall j | 0 <= j < |t| ensures entries[j] in bucket
      && CommentFrom(codec, dp, entries[j], bucket[entries[j]]) == Some(t[j].1)
      && t[j].0.time == CreatedAt(bucket[entries[j]].metadata)
    {
      if j < |comments| { assert t[j] == comments[j]; }
    }
    forall j, l | 0 <= j < l < |t| ensures t[j].0 != t[l].0 {
      if l < |comments| { assert t[j] == comments[j] && t[l] == comments[l]; }
      else { assert t[j] == comments[j]; }
    }
  }

  /**
   * What the corrected scan yields over the listing `keys` of the store's
   * base: at most `batchSize` ids (one when it is below 1), each naming an
   * expired paste, and all of them when fewer than `batchSize` were found.
   */
  lemma ExpiredIds(bucket: Bucket, prefix: string, keys: seq<string>, time: int, batchSize: int)
    requires forall k :: k in keys <==> k in bucket && StartsWith(k, Base(prefix))
    ensures var found := IdsOf(Base(prefix), ScanFrom(bucket, keys, 0, time, batchSize, []));
      |found| <= (if batchSize < 1 then 1 else batchSize)
      && (forall j :: 0 <= j < |found| ==>
            PasteKey(prefix, found[j]) in bucket && ExpiredObject(bucket[PasteKey(prefix, found[j])], time))
      && (|found| < batchSize ==> forall k :: k in bucket && StartsWith(k, Base(prefix)) && ExpiredObject(bucket[k], time) ==>
            exists j :: 0 <= j < |found| && PasteKey(prefix, found[j]) == k)
  {
    var hits := ScanFrom(bucket, keys, 0, time, batchSize, []);
    ScanBounds(bucket, keys, 0, time, batchSize, []);
    HitsNamePastes(bucket, prefix, keys, hits, time);
    if |hits| < batchSize {
      ScanAllFound(bucket, prefix, keys, time, batchSize);
    }
  }

  /** The ids of listed expired keys name those keys. */
  lemma HitsNamePastes(bucket: Bucket, prefix: string, keys: seq<string>, hits: seq<string>, time: int)
    requires forall k :: k in keys ==> StartsWith(k, Base(prefix))
    requires forall j :: 0 <= j < |hits| ==> hits[j] in keys[0..] && hits[j] in bucket && ExpiredObject(bucket[hits[j]], time)
    ensures var found := IdsOf(Base(prefix), hits);
      forall j :: 0 <= j < |found| ==>
        PasteKey(prefix, found[j]) == hits[j] && PasteKey(prefix, found[j]) in bucket
        && ExpiredObject(bucket[PasteKey(prefix, found[j])], time)
  {
    var found := IdsOf(Base(prefix), hits);
    forall j | 0 <= j < |hits| ensures StartsWith(hits[j], Base(prefix)) {
      assert hits[j] in keys;
    }
    forall j | 0 <= j < |found| ensures PasteKey(prefix, found[j]) == hits[j] {
      IdsReachKeys(prefix, hits, j);
    }
  }

  /** A scan that stops short of its limit has found every expired listed paste. */
  lemma ScanAllFound(bucket: Bucket, prefix: string, keys: seq<string>, time: int, batchSize: int)
    requires forall k :: k in keys <==> k in bucket && StartsWith(k, Base(prefix))
    requires |ScanFrom(bucket, keys, 0, time, batchSize, [])| < batchSize
    ensures var hits := ScanFrom(bucket, keys, 0, time, batchSize, []);
      forall k :: k in bucket && StartsWith(k, Base(prefix)) && ExpiredObject(bucket[k], time) ==>
        exists j :: 0 <= j < |hits| && hits[j] == k
  {
    var hits := ScanFrom(bucket, keys, 0, time, batchSize, []);
    forall k | k in bucket && StartsWith(k, Base(prefix)) && ExpiredObject(bucket[k], time)
      ensures exists j :: 0 <= j < |hits| && hits[j] == k
    {
      var i :| 0 <= i < |keys| && keys[i] == k;
      ScanComplete(bucket, keys, 0, time, batchSize, [], i);
    }
  }

  /** One step of the scan: the key at `i` is collected or skipped, and the scan stops or goes on. */
  lemma ScanStep(bucket: Bucket, keys: seq<string>, i: nat, time: int, limit: int, hits: seq<string>, hits': seq<string>)
    requires i < |keys|
    requires hits' == if keys[i] in bucket && ExpiredObject(bucket[keys[i]], time) then hits + [keys[i]] else hits
    ensures |hits'| >= limit ==> ScanFrom(bucket, keys, i, time, limit, hits) == hits'
    ensures |hits'| < limit ==> ScanFrom(bucket, keys, i, time, limit, hits) == ScanFrom(bucket, keys, i + 1, time, limit, hits')
  {
  }

  /** `getValue`'s result for a key: the body, or `''`. */
  function ValueOf(bucket: Bucket, key: string): string {
    if key in bucket then bucket[key].body else ""
  }

  /** What `setValue` stored, `getValue` returns. */
  lemma ValueReadsBack(bucket: Bucket, prefix: string, namespace: string, key: string, value: string)
    ensures ValueOf(bucket[ConfigKey(prefix, namespace, key) := Object(value, ConfigMetadata(namespace, value))], ConfigKey(prefix, namespace, key)) == value
  {
  }

  /** A slot fresh for the comments so far differs from each of their slots. */
  lemma SlotsDiffer(comments: seq<Entry>, slot: Slot)
    requires slot !in SlotsOf(comments)
    ensures forall j :: 0 <= j < |comments| ==> comments[j].0 != slot
  {
    forall j | 0 <= j < |comments| ensures comments[j].0 != slot {
      assert comments[j].0 in SlotsOf(comments);
    }
  }

  lemma PurgedAmongStep(bucket: Bucket, names: seq<string>, i: nat, path: string, time: int)
    requires i < |names|
    ensures PurgedAmong(bucket, names[..i + 1], path, time)
      == PurgedAmong(bucket, names[..i], path, time)
         + (if names[i] in bucket && InNamespace(names[i], path) && Stale(bucket[names[i]].metadata, time) then {names[i]} else {})
  {
    assert names[..i + 1] == names[..i] + [names[i]];
  }

  lemma PurgedAmongAll(bucket: Bucket, names: seq<string>, path: string, time: int)
    requires forall k :: k in names <==> k in bucket && StartsWith(k, path)
    ensures PurgedAmong(bucket, names[..|names|], path, time) == Purged(bucket, path, time)
  {
    assert names[..|names|] == names;
  }
}
