/**
 * The batch logic of the filesystem store's `_getExpiredPastes`: walk a
 * shuffled list of paste ids, collect the expired ones, stop after
 * `batch` hits or after `10 * batch` opens pastes, whichever comes first.
 */
module ExpirySweep {
  import opened Strings

  /** What looking up one listed id finds. */
  datatype Status =
    | Missing     // exists() is false: skipped, not counted as opens
    | Unreadable  // read() or the expiry test throws: the error ends the sweep
    | Live        // opens, not expired
    | Expired     // opens, expire_date lies in the past

  /**
   * Result of a sweep: the ids collected (None when an exception or error
   * escapes), how many ids were looked at and how many pastes
   * were read.
   */
  datatype Sweep = Sweep(found: Option<seq<string>>, visited: nat, loaded: nat)

  function Max(a: int, b: int): int { if a >= b then a else b }

  /** One more id looked at, without reading it. */
  function Skip(w: Sweep): Sweep {
    Sweep(w.found, w.visited + 1, w.loaded)
  }

  /** One more id looked at and read, without collecting it. */
  function Open(w: Sweep): Sweep {
    Sweep(w.found, w.visited + 1, w.loaded + 1)
  }

  /** One more id looked at, read and collected. */
  function Take(id: string, w: Sweep): Sweep {
    Sweep(if w.found.Some? then Some([id] + w.found.value) else None, w.visited + 1, w.loaded + 1)
  }

  /**
   * The loop of `_getExpiredPastes` from a point where `count` ids have
   * been collected and `opens` pastes counted as opened, over the remaining `ids`
   * whose lookups find `st`.
   */
  function SweepFrom(ids: seq<string>, st: seq<Status>, batch: int, count: nat, opens: nat): Sweep
    requires |st| == |ids|
    decreases |ids|
  {
    if ids == [] then Sweep(Some([]), 0, 0)
    else
      match st[0]
      case Missing => Skip(SweepFrom(ids[1..], st[1..], batch, count, opens))
      case Unreadable => Sweep(None, 1, 1)
      case Live =>
        if opens + 1 >= 10 * batch then Sweep(Some([]), 1, 1)
        else Open(SweepFrom(ids[1..], st[1..], batch, count, opens + 1))
      case Expired =>
        if count + 1 >= batch then Sweep(Some([ids[0]]), 1, 1)
        else if opens + 1 >= 10 * batch then Sweep(Some([ids[0]]), 1, 1)
        else Take(ids[0], SweepFrom(ids[1..], st[1..], batch, count + 1, opens + 1))
  }

  /** The ids whose lookups find them expired, in list order. */
  function ExpiredAmong(ids: seq<string>, st: seq<Status>): seq<string>
    requires |st| == |ids|
    decreases |ids|
  {
    if ids == [] then []
    else (if st[0] == Expired then [ids[0]] else []) + ExpiredAmong(ids[1..], st[1..])
  }

  function CountOf(st: seq<Status>, x: Status): nat {
    if st == [] then 0 else (if st[0] == x then 1 else 0) + CountOf(st[1..], x)
  }

  /** Number of ids that exist. */
  function Present(st: seq<Status>): nat {
    if st == [] then 0 else (if st[0] != Missing then 1 else 0) + Present(st[1..])
  }

  /** A sweep looks at a prefix of the list. */
  lemma {:induction false} SweepVisits(ids: seq<string>, st: seq<Status>, batch: int, count: nat, opens: nat)
    requires |st| == |ids|
    ensures SweepFrom(ids, st, batch, count, opens).visited <= |ids|
    decreases |ids|
  {
    if ids != [] {
      SweepVisits(ids[1..], st[1..], batch, count, opens);
      SweepVisits(ids[1..], st[1..], batch, count, opens + 1);
      SweepVisits(ids[1..], st[1..], batch, count + 1, opens + 1);
    }
  }

  /**
   * At most `max(batch, 1)` ids are collected and at most
   * `max(10 * batch, 1)` pastes are read.
   */
  lemma {:induction false} SweepBounds(ids: seq<string>, st: seq<Status>, batch: int, count: nat, opens: nat)
    requires |st| == |ids|
    requires count < Max(batch, 1) && opens < Max(10 * batch, 1)
    ensures var w := SweepFrom(ids, st, batch, count, opens);
      (w.found.Some? ==> count + |w.found.value| <= Max(batch, 1))
      && opens + w.loaded <= Max(10 * batch, 1)
    decreases |ids|
  {
    if ids != [] {
      match st[0]
      case Missing => SweepBounds(ids[1..], st[1..], batch, count, opens);
      case Unreadable =>
      case Live =>
        if opens + 1 < 10 * batch {
          SweepBounds(ids[1..], st[1..], batch, count, opens + 1);
        }
      case Expired =>
        if count + 1 < batch && opens + 1 < 10 * batch {
          SweepBounds(ids[1..], st[1..], batch, count + 1, opens + 1);
        }
    }
  }

  /**
   * What a sweep collects is exactly the expired ids among those it
   * looked at, and it fails exactly when it met an unreadable paste.
   */
  lemma {:induction false} SweepCollects(ids: seq<string>, st: seq<Status>, batch: int, count: nat, opens: nat)
    requires |st| == |ids|
    ensures var w := SweepFrom(ids, st, batch, count, opens);
      w.visited <= |ids|
      && (w.found.Some? ==> w.found.value == ExpiredAmong(ids[..w.visited], st[..w.visited]))
      && (w.found.None? <==> Unreadable in st[..w.visited])
    decreases |ids|
  {
    SweepVisits(ids, st, batch, count, opens);
    if ids != [] {
      var w := SweepFrom(ids, st, batch, count, opens);
      assert ids[..w.visited] == [ids[0]] + ids[1..][..w.visited - 1];
      assert st[..w.visited] == [st[0]] + st[1..][..w.visited - 1];
      match st[0]
      case Missing => SweepCollects(ids[1..], st[1..], batch, count, opens);
      case Unreadable =>
      case Live =>
        if opens + 1 < 10 * batch {
          SweepCollects(ids[1..], st[1..], batch, count, opens + 1);
        }
      case Expired =>
        if count + 1 < batch && opens + 1 < 10 * batch {
          SweepCollects(ids[1..], st[1..], batch, count + 1, opens + 1);
        }
    }
  }

  /**
   * When the expired ids fit into the batch and the existing ones into the
   * read limit, and none is unreadable, every expired id is collected.
   */
  lemma {:induction false} SweepComplete(ids: seq<string>, st: seq<Status>, batch: int, count: nat, opens: nat)
    requires |st| == |ids| && Unreadable !in st
    requires count + CountOf(st, Expired) <= batch
    requires opens + Present(st) <= 10 * batch
    ensures SweepFrom(ids, st, batch, count, opens).found == Some(ExpiredAmong(ids, st))
    decreases |ids|
  {
    if ids != [] {
      assert st == [st[0]] + st[1..];
      assert Unreadable !in st[1..];
      match st[0]
      case Missing =>
        assert ExpiredAmong(ids, st) == ExpiredAmong(ids[1..], st[1..]);
        SweepComplete(ids[1..], st[1..], batch, count, opens);
      case Unreadable =>
      case Live =>
        assert ExpiredAmong(ids, st) == ExpiredAmong(ids[1..], st[1..]);
        if opens + 1 < 10 * batch {
          SweepComplete(ids[1..], st[1..], batch, count, opens + 1);
        } else {
          NothingLeft(ids[1..], st[1..]);
        }
      case Expired =>
        assert ExpiredAmong(ids, st) == [ids[0]] + ExpiredAmong(ids[1..], st[1..]);
        if count + 1 < batch && opens + 1 < 10 * batch {
          SweepComplete(ids[1..], st[1..], batch, count + 1, opens + 1);
        } else {
          if count + 1 >= batch {
            NoneExpired(ids[1..], st[1..]);
          } else {
            NothingLeft(ids[1..], st[1..]);
          }
          assert [ids[0]] + [] == [ids[0]];
        }
    }
  }

  lemma {:induction false} NoneExpired(ids: seq<string>, st: seq<Status>)
    requires |st| == |ids| && CountOf(st, Expired) == 0
    ensures ExpiredAmong(ids, st) == []
    decreases |ids|
  {
    if ids != [] {
      NoneExpired(ids[1..], st[1..]);
    }
  }

  /** A list with no existing id holds no expired one. */
  lemma {:induction false} NothingLeft(ids: seq<string>, st: seq<Status>)
    requires |st| == |ids| && Present(st) == 0
    ensures ExpiredAmong(ids, st) == [] && CountOf(st, Expired) == 0
    decreases |ids|
  {
    if ids != [] {
      NothingLeft(ids[1..], st[1..]);
    }
  }

  /** A sweep resumed after `i` ids, of which `c` were collected and `r` read. */
  function Resume(c: seq<string>, i: nat, r: nat, w: Sweep): Sweep {
    Sweep(if w.found.Some? then Some(c + w.found.value) else None, i + w.visited, r + w.loaded)
  }

  /** The sweep from position `i` of `ids` on, as the loop over the list sees it. */
  function SweepAt(ids: seq<string>, st: seq<Status>, i: nat, batch: int, count: nat, opens: nat): Sweep
    requires |st| == |ids| && i <= |ids|
    decreases |ids| - i
  {
    if i == |ids| then Sweep(Some([]), 0, 0)
    else
      match st[i]
      case Missing => Skip(SweepAt(ids, st, i + 1, batch, count, opens))
      case Unreadable => Sweep(None, 1, 1)
      case Live =>
        if opens + 1 >= 10 * batch then Sweep(Some([]), 1, 1)
        else Open(SweepAt(ids, st, i + 1, batch, count, opens + 1))
      case Expired =>
        if count + 1 >= batch then Sweep(Some([ids[i]]), 1, 1)
        else if opens + 1 >= 10 * batch then Sweep(Some([ids[i]]), 1, 1)
        else Take(ids[i], SweepAt(ids, st, i + 1, batch, count + 1, opens + 1))
  }

  /** The positional sweep is the sweep of the remaining list. */
  lemma {:induction false} SweepAtSuffix(ids: seq<string>, st: seq<Status>, i: nat, batch: int, count: nat, opens: nat)
    requires |st| == |ids| && i <= |ids|
    ensures SweepAt(ids, st, i, batch, count, opens) == SweepFrom(ids[i..], st[i..], batch, count, opens)
    decreases |ids| - i
  {
    if i < |ids| {
      assert ids[i..][1..] == ids[i + 1..] && st[i..][1..] == st[i + 1..];
      assert ids[i..][0] == ids[i] && st[i..][0] == st[i];
      SweepAtSuffix(ids, st, i + 1, batch, count, opens);
      SweepAtSuffix(ids, st, i + 1, batch, count, opens + 1);
      SweepAtSuffix(ids, st, i + 1, batch, count + 1, opens + 1);
    }
  }

  /** Before the first id, the resumed sweep is the sweep of the whole list. */
  lemma ResumeStart(ids: seq<string>, st: seq<Status>, batch: int)
    requires |st| == |ids|
    ensures Resume([], 0, 0, SweepAt(ids, st, 0, batch, 0, 0)) == SweepFrom(ids, st, batch, 0, 0)
  {
    SweepAtSuffix(ids, st, 0, batch, 0, 0);
    assert ids[0..] == ids && st[0..] == st;
    var w := SweepFrom(ids, st, batch, 0, 0);
    if w.found.Some? {
      assert [] + w.found.value == w.found.value;
    }
  }

  /** After the last id, the resumed sweep has collected exactly `c`. */
  lemma ResumeEnd(ids: seq<string>, st: seq<Status>, c: seq<string>, r: nat, batch: int, count: nat, opens: nat)
    requires |st| == |ids|
    ensures Resume(c, |ids|, r, SweepAt(ids, st, |ids|, batch, count, opens)) == Sweep(Some(c), |ids|, r)
  {
    assert c + [] == c;
  }

  /** A resumed sweep past a missing id at `i`. */
  lemma ResumeMissing(ids: seq<string>, st: seq<Status>, c: seq<string>, i: nat, r: nat, batch: int, count: nat, opens: nat)
    requires |st| == |ids| && i < |ids| && st[i] == Missing
    ensures Resume(c, i, r, SweepAt(ids, st, i, batch, count, opens))
      == Resume(c, i + 1, r, SweepAt(ids, st, i + 1, batch, count, opens))
  {
    ResumeSkip(c, i, r, SweepAt(ids, st, i + 1, batch, count, opens));
  }

  /** A resumed sweep ends at an unreadable id at `i`, with the exception. */
  lemma ResumeUnreadable(ids: seq<string>, st: seq<Status>, c: seq<string>, i: nat, r: nat, batch: int, count: nat, opens: nat)
    requires |st| == |ids| && i < |ids| && st[i] == Unreadable
    ensures Resume(c, i, r, SweepAt(ids, st, i, batch, count, opens)) == Sweep(None, i + 1, r + 1)
  {
  }

  /** A resumed sweep past a live id at `i`: it ends there when the read limit is reached. */
  lemma ResumeLive(ids: seq<string>, st: seq<Status>, c: seq<string>, i: nat, r: nat, batch: int, count: nat, opens: nat)
    requires |st| == |ids| && i < |ids| && st[i] == Live
    ensures var w := Resume(c, i, r, SweepAt(ids, st, i, batch, count, opens));
      && (opens + 1 >= 10 * batch ==> w == Sweep(Some(c), i + 1, r + 1))
      && (opens + 1 < 10 * batch ==> w == Resume(c, i + 1, r + 1, SweepAt(ids, st, i + 1, batch, count, opens + 1)))
  {
    assert c + [] == c;
    ResumeOpen(c, i, r, SweepAt(ids, st, i + 1, batch, count, opens + 1));
  }

  /**
   * A resumed sweep past an expired id at `i`: it collects the id, and
   * ends there when the batch is full or the read limit is reached.
   */
  lemma ResumeExpired(ids: seq<string>, st: seq<Status>, c: seq<string>, i: nat, r: nat, batch: int, count: nat, opens: nat)
    requires |st| == |ids| && i < |ids| && st[i] == Expired
    ensures var w := Resume(c, i, r, SweepAt(ids, st, i, batch, count, opens));
      && (count + 1 >= batch || opens + 1 >= 10 * batch ==> w == Sweep(Some(c + [ids[i]]), i + 1, r + 1))
      && (count + 1 < batch && opens + 1 < 10 * batch ==>
            w == Resume(c + [ids[i]], i + 1, r + 1, SweepAt(ids, st, i + 1, batch, count + 1, opens + 1)))
  {
    ResumeTake(c, ids[i], i, r, SweepAt(ids, st, i + 1, batch, count + 1, opens + 1));
  }

  lemma ResumeSkip(c: seq<string>, i: nat, r: nat, w: Sweep)
    ensures Resume(c, i, r, Skip(w)) == Resume(c, i + 1, r, w)
  {
  }

  lemma ResumeOpen(c: seq<string>, i: nat, r: nat, w: Sweep)
    ensures Resume(c, i, r, Open(w)) == Resume(c, i + 1, r + 1, w)
  {
  }

  lemma ResumeTake(c: seq<string>, id: string, i: nat, r: nat, w: Sweep)
    ensures Resume(c, i, r, Take(id, w)) == Resume(c + [id], i + 1, r + 1, w)
  {
    if w.found.Some? {
      assert c + ([id] + w.found.value) == c + [id] + w.found.value;
    }
  }

  /**
   * The counting part of one round of the loop of `_getExpiredPastes`:
   * an expired paste is collected, an existing one counted as opened,
   * and the loop stops on a full batch, on the read limit, or on an
   * unreadable paste's error.
   */
  method Tally(order: seq<string>, ghost st: seq<Status>, i: nat, batchSize: int, status: Status,
               pastes: seq<string>, count: nat, opens: nat, ghost loaded: nat, ghost sweep: Sweep)
    returns (stop: bool, found: Option<seq<string>>, pastes': seq<string>, count': nat, opens': nat, ghost loaded': nat)
    requires |st| == |order| && i < |order| && st[i] == status
    requires sweep == Resume(pastes, i, loaded, SweepAt(order, st, i, batchSize, count, opens))
    ensures stop ==> sweep.found == found && sweep.visited == i + 1
    ensures !stop ==> sweep == Resume(pastes', i + 1, loaded', SweepAt(order, st, i + 1, batchSize, count', opens'))
  {
    var id := order[i];
    pastes', count', opens', loaded' := pastes, count, opens, loaded;
    stop, found := false, None;
    if status == Unreadable {
      ResumeUnreadable(order, st, pastes, i, loaded, batchSize, count, opens);
      return true, None, pastes', count', opens', loaded';
    }
    if status == Missing {
      ResumeMissing(order, st, pastes, i, loaded, batchSize, count, opens);
      return;
    }
    if status == Expired {
      ResumeExpired(order, st, pastes, i, loaded, batchSize, count, opens);
      pastes' := pastes + [id];
      count' := count + 1;
      if count' >= batchSize {
        return true, Some(pastes'), pastes', count', opens', loaded';
      }
    } else {
      ResumeLive(order, st, pastes, i, loaded, batchSize, count, opens);
    }
    opens' := opens + 1;
    if opens' >= batchSize * 10 {
      return true, Some(pastes'), pastes', count', opens', loaded';
    }
    loaded' := loaded + 1;
  }
}
