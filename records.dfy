/**
 * The records the stores persist and the helpers they share: PHP array
 * values, the JSON codec as an abstract encode/decode pair, the
 * pre-version-1 upgrade hook, and the ordering slots under which
 * comments are returned.
 */
module Records {
  import opened Strings

  /** A PHP value as it appears in a paste or comment array. */
  datatype Value = Null | Int(i: PhpInt) | Str(s: string) | Arr(entries: map<string, Value>)

  /** A paste or comment: a PHP array with string keys. */
  type Record = map<string, Value>

  /** `$record['meta']`, or the empty array when it is missing or not an array. */
  function Meta(r: Record): map<string, Value> {
    if "meta" in r && r["meta"].Arr? then r["meta"].entries else map[]
  }

  /** PHP `(int)` cast. */
  function ToInt(v: Value): PhpInt {
    match v
    case Null => 0
    case Int(i) => i
    case Str(s) => StringToInt(s)
    case Arr(m) => if |m| == 0 then 0 else 1
  }

  /** PHP `(string)` cast. */
  function ToStr(v: Value): string {
    match v
    case Null => ""
    case Int(i) => IntToString(i)
    case Str(s) => s
    case Arr(_) => "Array"
  }

  /**
   * PHP 8 `$v < $n` for an integer `$n`: an integer, and a numeric string,
   * compare as numbers; any other string compares byte by byte with the
   * decimal form of `$n`; null compares as `false` with `(bool) $n`; an
   * array is greater than any integer.
   */
  predicate LessThanInt(v: Value, n: int) {
    match v
    case Null => n != 0
    case Int(i) => i < n
    case Str(s) => if IsNumeric(s) then IntPrefix(s) < n else Less(s, IntToString(n))
    case Arr(_) => false
  }

  /** An integer compares by its value, whether stored as a number or as its decimal string. */
  lemma LessThanStoredInt(e: PhpInt, n: int)
    ensures LessThanInt(Int(e), n) <==> e < n
    ensures LessThanInt(Str(IntToString(e)), n) <==> e < n
  {
    IntPrefixRoundTrip(e);
  }

  /**
   * Strings that are not numeric compare as text: `never` is below no
   * time, the empty string below every time; an array is below none.
   */
  lemma LessThanText(n: int)
    ensures !LessThanInt(Str("never"), n)
    ensures LessThanInt(Str(""), n)
    ensures !LessThanInt(Arr(map[]), n)
  {
    WordNotNumeric();
    assert !IsNumeric("") by { assert Unsigned("") == (false, ""); }
    var d := IntToString(n);
    assert d[0] == '-' || IsDigit(d[0]);
  }

  /** `$items[k]`, or null when explode() gave fewer pieces. */
  function Item(items: seq<string>, k: nat): Value {
    if k < |items| then Str(items[k]) else Null
  }

  /** What a store's `read` yields: the paste, false, or the decoder's exception. */
  datatype ReadOutcome = Found(paste: Record) | NotFound | Corrupt

  /** A record in the current (version 2) format. */
  predicate IsV2(r: Record) {
    "v" in r && r["v"] == Int(2)
  }

  /**
   * The JSON codec: `encode` fails (None) on values JSON cannot represent,
   * `decode` fails on malformed text.
   */
  datatype Codec = Codec(encode: Record -> Option<string>, decode: string -> Option<Record>)

  /** Decoding what was encoded gives back the record. */
  ghost predicate RoundTrips(c: Codec) {
    forall r {:trigger c.encode(r)} :: c.encode(r).Some? ==> c.decode(c.encode(r).value) == Some(r)
  }

  /** The pre-version-1 upgrade leaves version 2 records alone. */
  ghost predicate KeepsV2(upgrade: Record -> Record) {
    forall r {:trigger upgrade(r)} :: IsV2(r) ==> upgrade(r) == r
  }

  // ---------------------------------------------------------------------
  // Comment ordering slots

  /**
   * The key a comment is stored under: its creation time and a tie index;
   * `Slot(t, 0)` stands for the array key `t`, `Slot(t, k)` for `t.k`.
   */
  datatype Slot = Slot(time: int, tie: nat)

  /** The least power of ten above `k`, so that `t.k` has the fraction `k / Scale(k)`. */
  function Scale(k: nat): (p: nat)
    ensures p > k && p >= 10
  {
    if k < 10 then 10 else 10 * Scale(k / 10)
  }

  /** The fraction after the point of `t.k`: 0 for the integer key `t`. */
  function Fraction(k: nat): (f: real)
    ensures 0.0 <= f < 1.0
  {
    k as real / Scale(k) as real
  }

  /** The number a slot's key stands for: `t.k` read as a decimal. */
  function KeyValue(s: Slot): real {
    if s.time < 0 then s.time as real - Fraction(s.tie) else s.time as real + Fraction(s.tie)
  }

  /**
   * The order `ksort` puts two slots in. PHP 8 compares the keys `t` and
   * `t.k` as numbers, so `t.10` equals `t.1` and precedes `t.2`; its sort is
   * stable, and since `getOpenSlot` hands out the ties of a time in
   * ascending order, keys of equal value keep the order of their ties.
   */
  predicate SlotLess(a: Slot, b: Slot) {
    KeyValue(a) < KeyValue(b) || (KeyValue(a) == KeyValue(b) && a.tie < b.tie)
  }

  lemma SlotLessTransitive(a: Slot, b: Slot, c: Slot)
    requires SlotLess(a, b) && SlotLess(b, c)
    ensures SlotLess(a, c)
  {
  }

  /** The slot order is strict and total: no slot precedes itself, and of two distinct slots one comes first. */
  lemma SlotLessTotal(a: Slot, b: Slot)
    ensures !SlotLess(a, a)
    ensures a == b || SlotLess(a, b) || SlotLess(b, a)
  {
    var fa, fb := Fraction(a.tie), Fraction(b.tie);
    if KeyValue(a) == KeyValue(b) && a.tie == b.tie {
      assert fa == fb;
    }
  }

  /** Comments still come oldest first: a slot of an earlier time precedes every slot of a later one. */
  lemma EarlierTimeFirst(a: Slot, b: Slot)
    requires a.time < b.time
    ensures SlotLess(a, b)
  {
    var fa, fb := Fraction(a.tie), Fraction(b.tie);
    assert KeyValue(a) < KeyValue(b);
  }

  /** Among the ties of one second, `t.10` comes right after `t.1` and before `t.2`, and `t` comes first. */
  lemma TiesAsDecimals(t: nat)
    ensures SlotLess(Slot(t, 0), Slot(t, 1))
    ensures SlotLess(Slot(t, 1), Slot(t, 10)) && SlotLess(Slot(t, 10), Slot(t, 2))
    ensures SlotLess(Slot(t, 10), Slot(t, 9)) && !SlotLess(Slot(t, 9), Slot(t, 10))
  {
    assert Scale(10) == 100 && Scale(1) == 10 && Scale(2) == 10 && Scale(9) == 10;
    assert Fraction(10) == Fraction(1);
  }

  type Entry = (Slot, Record)

  /** The creation time of a comment: `meta.created`, else the version 1 `meta.postdate`. */
  function CommentTime(c: Record): PhpInt {
    var meta := Meta(c);
    if "created" in meta then ToInt(meta["created"])
    else if "postdate" in meta then ToInt(meta["postdate"])
    else 0
  }

  ghost function TakenFrom(keys: set<Slot>, t: int, k: nat): set<Slot> {
    set s | s in keys && s.time == t && s.tie >= k
  }

  function OpenSlotFrom(keys: set<Slot>, t: int, k: nat): (s: Slot)
    ensures s !in keys && s.time == t && s.tie >= k
    ensures forall j :: k <= j < s.tie ==> Slot(t, j) in keys
    decreases |TakenFrom(keys, t, k)|
  {
    if Slot(t, k) in keys then
      assert TakenFrom(keys, t, k + 1) == TakenFrom(keys, t, k) - {Slot(t, k)};
      assert Slot(t, k) in TakenFrom(keys, t, k);
      OpenSlotFrom(keys, t, k + 1)
    else Slot(t, k)
  }

  /**
   * The first free slot for time `t`: `t` itself when free, otherwise the
   * first of `t.1`, `t.2`, ... that is free.
   */
  function OpenSlot(keys: set<Slot>, t: int): (s: Slot)
    ensures s !in keys && s.time == t
    ensures forall j :: 0 <= j < s.tie ==> Slot(t, j) in keys
  {
    OpenSlotFrom(keys, t, 0)
  }

  /**
   * What the stores rely on from `getOpenSlot`: the slot it picks for a
   * comment created at `t` is not taken yet and belongs to time `t`.
   */
  ghost predicate FreshSlots(openSlot: (set<Slot>, int) -> Slot) {
    forall keys, t {:trigger openSlot(keys, t)} :: openSlot(keys, t) !in keys && openSlot(keys, t).time == t
  }

  /** The first-free-slot strategy meets that requirement. */
  lemma OpenSlotIsFresh()
    ensures FreshSlots(OpenSlot)
  {
  }

  predicate SortedBySlot(s: seq<Entry>) {
    forall i, j :: 0 <= i < j < |s| ==> SlotLess(s[i].0, s[j].0)
  }

  function SlotsOf(s: seq<Entry>): set<Slot> {
    set i | 0 <= i < |s| :: s[i].0
  }

  lemma SlotsOfAppend(s: seq<Entry>, e: Entry)
    ensures SlotsOf(s + [e]) == SlotsOf(s) + {e.0}
  {
    var t := s + [e];
    forall x | x in SlotsOf(t) ensures x in SlotsOf(s) + {e.0} {
      var i :| 0 <= i < |t| && t[i].0 == x;
      if i < |s| { assert s[i].0 == x; }
    }
    forall x | x in SlotsOf(s) ensures x in SlotsOf(t) {
      var i :| 0 <= i < |s| && s[i].0 == x;
      assert t[i].0 == x;
    }
    assert t[|s|].0 == e.0;
  }

  method MinSlot(slots: set<Slot>) returns (m: Slot)
    requires slots != {}
    ensures m in slots
    ensures forall k :: k in slots && k != m ==> SlotLess(m, k)
  {
    m :| m in slots;
    var rest := slots - {m};
    var done: set<Slot> := {m};
    while rest != {}
      invariant rest + done == slots && rest !! done
      invariant m in done
      invariant forall k :: k in done && k != m ==> SlotLess(m, k)
      decreases rest
    {
      var k :| k in rest;
      SlotLessTotal(m, k);
      if SlotLess(k, m) {
        forall j | j in done && j != k
          ensures SlotLess(k, j)
        {
          if j != m { SlotLessTransitive(k, m, j); }
        }
        m := k;
      }
      rest := rest - {k};
      done := done + {k};
    }
  }

  /** `s` and `rest` split the keys of `m` between them. */
  ghost predicate Partition(m: map<Slot, Record>, s: seq<Entry>, rest: set<Slot>) {
    rest !! SlotsOf(s) && rest + SlotsOf(s) == m.Keys && |s| + |rest| == |m.Keys|
  }

  /** Every slot already in `s` precedes every slot left in `rest`. */
  ghost predicate Precedes(s: seq<Entry>, rest: set<Slot>) {
    forall i, k :: 0 <= i < |s| && k in rest ==> SlotLess(s[i].0, k)
  }

  /** Every entry of `s` is an entry of `m`. */
  ghost predicate EntriesOf(m: map<Slot, Record>, s: seq<Entry>) {
    forall i :: 0 <= i < |s| ==> s[i].0 in m && s[i].1 == m[s[i].0]
  }

  /** What the selection loop of KSort keeps: `s` holds the smallest slots of `m`, `rest` the others. */
  ghost predicate SortInvariant(m: map<Slot, Record>, s: seq<Entry>, rest: set<Slot>) {
    Partition(m, s, rest) && SortedBySlot(s) && Precedes(s, rest) && EntriesOf(m, s)
  }

  lemma PartitionStep(m: map<Slot, Record>, s: seq<Entry>, rest: set<Slot>, k: Slot)
    requires Partition(m, s, rest) && k in rest
    ensures k in m && Partition(m, s + [(k, m[k])], rest - {k})
  {
    SlotsOfAppend(s, (k, m[k]));
  }

  lemma SortedStep(s: seq<Entry>, rest: set<Slot>, e: Entry)
    requires SortedBySlot(s) && Precedes(s, rest) && e.0 in rest
    ensures SortedBySlot(s + [e])
  {
    var t := s + [e];
    forall i, j | 0 <= i < j < |t| ensures SlotLess(t[i].0, t[j].0) {
      assert t[i] == s[i];
      if j < |s| { assert t[j] == s[j]; }
    }
  }

  lemma PrecedesStep(s: seq<Entry>, rest: set<Slot>, e: Entry)
    requires Precedes(s, rest) && e.0 in rest
    requires forall j :: j in rest && j != e.0 ==> SlotLess(e.0, j)
    ensures Precedes(s + [e], rest - {e.0})
  {
    var t := s + [e];
    forall i, j | 0 <= i < |t| && j in rest - {e.0} ensures SlotLess(t[i].0, j) {
      if i < |s| { assert t[i] == s[i]; }
    }
  }

  lemma EntriesStep(m: map<Slot, Record>, s: seq<Entry>, k: Slot)
    requires EntriesOf(m, s) && k in m
    ensures EntriesOf(m, s + [(k, m[k])])
  {
    var t := s + [(k, m[k])];
    forall i | 0 <= i < |t| ensures t[i].0 in m && t[i].1 == m[t[i].0] {
      if i < |s| { assert t[i] == s[i]; }
    }
  }

  lemma SortStep(m: map<Slot, Record>, s: seq<Entry>, rest: set<Slot>, k: Slot)
    requires SortInvariant(m, s, rest)
    requires k in rest && forall j :: j in rest && j != k ==> SlotLess(k, j)
    ensures SortInvariant(m, s + [(k, m[k])], rest - {k})
  {
    PartitionStep(m, s, rest, k);
    SortedStep(s, rest, (k, m[k]));
    PrecedesStep(s, rest, (k, m[k]));
    EntriesStep(m, s, k);
  }

  lemma SortDone(m: map<Slot, Record>, s: seq<Entry>)
    requires SortInvariant(m, s, {})
    ensures SortedBySlot(s)
    ensures SlotsOf(s) == m.Keys && |s| == |m|
    ensures EntriesOf(m, s)
  {
    assert {} + SlotsOf(s) == SlotsOf(s);
  }

  /**
   * PHP `ksort` of an array keyed by slots: the entries of `m` in
   * ascending slot order.
   */
  method KSort(m: map<Slot, Record>) returns (s: seq<Entry>)
    ensures SortedBySlot(s)
    ensures SlotsOf(s) == m.Keys && |s| == |m|
    ensures forall i :: 0 <= i < |s| ==> s[i].0 in m && s[i].1 == m[s[i].0]
  {
    assert Partition(m, [], m.Keys) by {
      assert SlotsOf([]) == {};
    }
    var rest := m.Keys;
    s := [];
    while rest != {}
      invariant SortInvariant(m, s, rest)
      decreases rest
    {
      var k := MinSlot(rest);
      SortStep(m, s, rest, k);
      s := s + [(k, m[k])];
      rest := rest - {k};
    }
    SortDone(m, s);
  }
}
