/** Reassembly of multipart messages with timers, late parts and expiry (internal/sms/assembler.go).
    Instants and durations are integers (nanoseconds). */
module Assembler {
  import opened Octets
  import opened Text
  import opened Splitting
  import Timestamp

  datatype Part = Part(from: string, text: string, timestamp: Timestamp.Time, isMultipart: bool,
                       reference: byte, partNumber: int, totalParts: int, encoding: Encoding)

  datatype Assembled = Assembled(from: string, text: string, timestamp: Timestamp.Time, segments: nat,
                                 encoding: Encoding, isComplete: bool, isUpdate: bool)

  /** A partial message, pending or flushed; `since` is its creation or its flush time. */
  datatype Entry = Entry(from: string, parts: map<int, string>, totalParts: int, timestamp: Timestamp.Time,
                         encoding: Encoding, since: int)

  datatype State = State(pending: map<string, Entry>, flushed: map<string, Entry>)

  /** A zero or negative `ttl` switches the expiry of pending messages off. */
  datatype Config = Config(ttl: int)

  const MAX_PARTS := 20
  const FLUSHED_TTL := 900_000_000_000

  // ---------------------------------------------------------------- texts

  function TextAt(parts: map<int, string>, i: int): string { if i in parts then parts[i] else [] }

  /** Parts 1 .. n in part order; an absent part contributes nothing. */
  function Join(parts: map<int, string>, n: nat): string {
    if n == 0 then [] else Join(parts, n - 1) + TextAt(parts, n)
  }

  /** The numbers in 1 .. n that have arrived, ascending. */
  function Present(parts: map<int, string>, n: nat): (nums: seq<nat>)
    ensures forall i :: i in nums <==> 1 <= i <= n && i in parts
  {
    if n == 0 then [] else Present(parts, n - 1) + (if n in parts then [n] else [])
  }

  predicate Contiguous(nums: seq<nat>) { forall i :: 1 <= i < |nums| ==> nums[i] == nums[i - 1] + 1 }

  function CommaList(nums: seq<nat>): string {
    if nums == [] then [] else if |nums| == 1 then Itoa(nums[0]) else Itoa(nums[0]) + "," + CommaList(nums[1..])
  }

  /** The part numbers as a person reads them: "?", "3", "2-4" or "1,3,4". */
  function Listed(nums: seq<nat>): string {
    if nums == [] then "?"
    else if !Contiguous(nums) then CommaList(nums)
    else if |nums| == 1 then Itoa(nums[0])
    else Itoa(nums[0]) + "-" + Itoa(nums[|nums| - 1])
  }

  function Summary(parts: map<int, string>, total: nat): string {
    "Part " + Listed(Present(parts, total)) + "/" + Itoa(total)
  }

  // ---------------------------------------------------------------- reading a summary

  function Range(lo: int, hi: int): (nums: seq<int>)
    ensures |nums| == if lo <= hi then hi - lo + 1 else 0
  {
    seq(if lo <= hi then hi - lo + 1 else 0, i => lo + i)
  }

  function ReadList(s: string): seq<int>
    decreases |s|
  {
    if ',' in s then [Atoi(Before(s, ','))] + ReadList(After(s, ',')) else [Atoi(s)]
  }

  function ReadListed(s: string): seq<int> {
    if s == "?" then []
    else if '-' in s then Range(Atoi(Before(s, '-')), Atoi(After(s, '-')))
    else ReadList(s)
  }

  /** The part numbers and the total that a reader takes from a summary. */
  function ReadSummary(s: string): (seq<int>, int)
    requires HasPrefix(s, "Part ")
  {
    (ReadListed(Before(s[5..], '/')), Atoi(After(s[5..], '/')))
  }

  /** A list holds digits and commas only. */
  lemma {:induction false} CommaListChars(nums: seq<nat>)
    ensures forall c :: c in CommaList(nums) ==> IsDigit(c) || c == ','
    ensures nums != [] ==> CommaList(nums) != [] && IsDigit(CommaList(nums)[0])
  {
    hide Itoa;
    if |nums| > 1 { CommaListChars(nums[1..]); }
  }

  lemma {:induction false} ReadCommaList(nums: seq<nat>)
    requires nums != []
    ensures ReadList(CommaList(nums)) == nums
  {
    hide Itoa, Atoi, Before, After;
    ItoaRoundTrip(nums[0]);
    NoStops(nums[0]);
    if |nums| > 1 {
      ReadCommaList(nums[1..]);
      var s := CommaList(nums);
      assert s == Itoa(nums[0]) + [','] + CommaList(nums[1..]);
      assert s[|Itoa(nums[0])|] == ',';
      CutAtStop(Itoa(nums[0]), ',', CommaList(nums[1..]));
    }
  }

  lemma NoStops(n: nat)
    ensures ',' !in Itoa(n) && '-' !in Itoa(n) && '/' !in Itoa(n) && '?' !in Itoa(n)
  {
    hide Itoa;
  }

  lemma {:induction false} ContiguousAt(nums: seq<nat>, i: nat)
    requires Contiguous(nums) && i < |nums|
    ensures nums[i] == nums[0] + i
  {
    if i > 0 { ContiguousAt(nums, i - 1); }
  }

  /** The three ways of writing the numbers are told apart, and each is read back. */
  lemma ReadListedBack(nums: seq<nat>)
    ensures ReadListed(Listed(nums)) == nums
    ensures '/' !in Listed(nums)
  {
    hide Itoa, Atoi, Before, After, CommaList, ReadList;
    if nums != [] {
      var last := |nums| - 1;
      NoStops(nums[0]);
      NoStops(nums[last]);
      CommaListChars(nums);
      if !Contiguous(nums) || |nums| == 1 {
        ListedPlain(nums);
        ReadCommaList(nums);
        assert '-' !in Listed(nums);
      } else {
        var s := Listed(nums);
        assert s == Itoa(nums[0]) + ['-'] + Itoa(nums[last]);
        assert s[|Itoa(nums[0])|] == '-';
        CutAtStop(Itoa(nums[0]), '-', Itoa(nums[last]));
        ItoaRoundTrip(nums[0]);
        ItoaRoundTrip(nums[last]);
        forall i | 0 <= i < |nums| ensures nums[i] == nums[0] + i { ContiguousAt(nums, i); }
      }
    }
  }

  lemma ListedPlain(nums: seq<nat>)
    requires nums != [] && (!Contiguous(nums) || |nums| == 1)
    ensures Listed(nums) == CommaList(nums)
  {
  }

  /** From the summary a reader learns exactly which parts have arrived, and out of how many. */
  lemma SummaryReadable(parts: map<int, string>, total: nat)
    ensures HasPrefix(Summary(parts, total), "Part ")
    ensures ReadSummary(Summary(parts, total)) == (Present(parts, total), total)
  {
    hide Itoa, Atoi, Before, After, Listed, ReadListed;
    var listed := Listed(Present(parts, total));
    var s := Summary(parts, total);
    assert s[5..] == listed + ['/'] + Itoa(total);
    ReadListedBack(Present(parts, total));
    CutAtStop(listed, '/', Itoa(total));
    ItoaRoundTrip(total);
  }

  // ---------------------------------------------------------------- the text of what is there

  predicate Gap(parts: map<int, string>, total: nat, i: nat) {
    && i !in parts
    && (exists j :: 1 <= j < i && j in parts)
    && (exists j :: i < j <= total && j in parts)
  }

  /** What has arrived, in part order, with a mark for every missing part between two received ones. */
  function Available(parts: map<int, string>, total: nat, n: nat): string
    requires n <= total
  {
    if n == 0 then []
    else Available(parts, total, n - 1) + (if Gap(parts, total, n) then " [...] " else TextAt(parts, n))
  }

  /** Without a gap between received parts the text is what was received, in part order. */
  lemma {:induction false} NoGapNoMark(parts: map<int, string>, total: nat, n: nat)
    requires n <= total && forall i: nat :: i <= total ==> !Gap(parts, total, i)
    ensures Available(parts, total, n) == Join(parts, n)
  {
    hide Gap;
    if n > 0 { NoGapNoMark(parts, total, n - 1); }
  }

  method JoinParts(parts: map<int, string>, total: nat) returns (text: string)
    ensures text == Join(parts, total)
  {
    text := [];
    for i := 1 to total + 1
      invariant text == Join(parts, i - 1)
    {
      text := text + if i in parts then parts[i] else [];
    }
  }

  method IsContiguous(nums: seq<nat>) returns (r: bool)
    ensures r == Contiguous(nums)
  {
    if |nums| == 0 { return true; }
    for i := 1 to |nums|
      invariant forall j :: 1 <= j < i ==> nums[j] == nums[j - 1] + 1
    {
      if nums[i] != nums[i - 1] + 1 {
        return false;
      }
    }
    return true;
  }

  method FormatPartsSummary(parts: map<int, string>, total: nat) returns (s: string)
    ensures s == Summary(parts, total)
  {
    hide Itoa, CommaList, Contiguous;
    var nums: seq<nat> := [];
    for i := 1 to total + 1
      invariant nums == Present(parts, i - 1)
    {
      if i in parts {
        nums := nums + [i];
      }
    }
    if |nums| == 0 {
      return "Part " + "?" + "/" + Itoa(total);
    }
    var contiguous := IsContiguous(nums);
    if contiguous {
      if |nums| == 1 {
        return "Part " + Itoa(nums[0]) + "/" + Itoa(total);
      }
      return "Part " + (Itoa(nums[0]) + "-" + Itoa(nums[|nums| - 1])) + "/" + Itoa(total);
    }
    return "Part " + CommaList(nums) + "/" + Itoa(total);
  }

  method BuildAvailableText(parts: map<int, string>, total: nat) returns (text: string)
    ensures text == Available(parts, total, total)
  {
    text := [];
    for i := 1 to total + 1
      invariant text == Available(parts, total, i - 1)
    {
      if i in parts {
        text := text + parts[i];
      } else {
        var hasEarlier := false;
        for j := 1 to i
          invariant hasEarlier <==> exists k :: 1 <= k < j && k in parts
        {
          if j in parts {
            hasEarlier := true;
          }
        }
        var hasLater := false;
        for j := i + 1 to total + 1
          invariant hasLater <==> exists k :: i < k < j && k in parts
        {
          if j in parts {
            hasLater := true;
          }
        }
        assert hasLater <==> exists k :: i < k <= total && k in parts;
        if hasEarlier && hasLater {
          text := text + " [...] ";
        }
      }
    }
  }

  // ---------------------------------------------------------------- the transitions

  function KeyOf(part: Part): string { Key(part.from, part.reference) }

  /** Messages that need no reassembly are handed on at once. */
  predicate Single(part: Part) { !part.isMultipart || part.totalParts <= 1 }

  /** Parts that reach the maps: neither single nor out of bounds. */
  predicate Stored(part: Part) {
    && !Single(part)
    && 0 < part.partNumber <= part.totalParts <= MAX_PARTS
  }

  function FlushedTtl(cfg: Config): int { if 0 < cfg.ttl < FLUSHED_TTL then cfg.ttl else FLUSHED_TTL }

  predicate PendingExpired(cfg: Config, now: int, e: Entry) { cfg.ttl > 0 && now - e.since > cfg.ttl }

  predicate FlushedExpired(cfg: Config, now: int, e: Entry) { now - e.since > FlushedTtl(cfg) }

  function Cleaned(cfg: Config, now: int, st: State): State {
    State(map k | k in st.pending && !PendingExpired(cfg, now, st.pending[k]) :: st.pending[k],
          map k | k in st.flushed && !FlushedExpired(cfg, now, st.flushed[k]) :: st.flushed[k])
  }

  function WithPart(e: Entry, part: Part): (e': Entry)
    ensures e'.totalParts == e.totalParts
  {
    e.(parts := e.parts[part.partNumber := part.text])
  }

  function Fresh(now: int, part: Part): Entry {
    Entry(part.from, map[], part.totalParts, part.timestamp, part.encoding, now)
  }

  function Complete(e: Entry, update: bool): Assembled
    requires e.totalParts >= 0
  {
    var text := Join(e.parts, e.totalParts);
    Assembled(e.from, if update then "[Updated] " + text else text, e.timestamp, e.totalParts, e.encoding, true, update)
  }

  function Progress(e: Entry): Assembled
    requires e.totalParts >= 0
  {
    Assembled(e.from, "[Updated " + Summary(e.parts, e.totalParts) + "]: " + Available(e.parts, e.totalParts, e.totalParts),
              e.timestamp, |e.parts|, e.encoding, false, true)
  }

  function FlushNotice(e: Entry): Assembled
    requires e.totalParts >= 0
  {
    Assembled(e.from, "[" + Summary(e.parts, e.totalParts) + "]: " + Available(e.parts, e.totalParts, e.totalParts),
              e.timestamp, |e.parts|, e.encoding, false, false)
  }

  /** What one key can hold. */
  datatype Slot = Idle | Pending(e: Entry) | Flushed(e: Entry)

  ghost predicate GoodEntry(e: Entry) {
    && 2 <= e.totalParts <= MAX_PARTS
    && 1 <= |e.parts| < e.totalParts
    && (forall i :: i in e.parts ==> 1 <= i <= MAX_PARTS)
  }

  ghost predicate GoodSlot(s: Slot) { s != Idle ==> GoodEntry(s.e) }

  function Aged(cfg: Config, now: int, s: Slot): Slot {
    match s
    case Idle => Idle
    case Pending(e) => if PendingExpired(cfg, now, e) then Idle else s
    case Flushed(e) => if FlushedExpired(cfg, now, e) then Idle else s
  }

  function Collect(e: Entry): (Slot, Option<Assembled>)
    requires e.totalParts >= 0
  {
    if |e.parts| == e.totalParts then (Idle, Some(Complete(e, false))) else (Pending(e), None)
  }

  function SlotAdd(now: int, s: Slot, part: Part): (Slot, Option<Assembled>)
    requires Stored(part) && (s != Idle ==> s.e.totalParts >= 0)
  {
    match s
    case Flushed(e) =>
      var e' := WithPart(e, part);
      if |e'.parts| == e'.totalParts then (Idle, Some(Complete(e', true))) else (Flushed(e'), Some(Progress(e')))
    case Pending(e) => Collect(WithPart(e, part))
    case Idle => Collect(WithPart(Fresh(now, part), part))
  }

  /** The timer callback. The notice is worded after the lock was released, from parts that by then may hold
      `racing` ones too. */
  function SlotFire(now: int, s: Slot, racing: map<int, string>): (Slot, Option<Assembled>)
    requires s != Idle ==> s.e.totalParts >= 0
  {
    match s
    case Pending(e) => (Flushed(e.(since := now)), Some(FlushNotice(e.(since := now, parts := e.parts + racing))))
    case _ => (s, None)
  }

  function View(st: State, k: string): Slot {
    if k in st.flushed then Flushed(st.flushed[k])
    else if k in st.pending then Pending(st.pending[k])
    else Idle
  }

  /** Write a slot back into the two maps. */
  function Put(st: State, k: string, s: Slot): State {
    match s
    case Idle => State(st.pending - {k}, st.flushed - {k})
    case Pending(e) => State(st.pending[k := e], st.flushed - {k})
    case Flushed(e) => State(st.pending - {k}, st.flushed[k := e])
  }

  ghost predicate Inv(st: State) {
    && st.pending.Keys !! st.flushed.Keys
    && (forall k :: GoodSlot(View(st, k)) && OwnKey(k, View(st, k)))
  }

  /** The entry under a key belongs to a sender and a reference that spell that key. */
  ghost predicate OwnKey(k: string, s: Slot) {
    s != Idle ==> exists r: byte :: k == Key(s.e.from, r)
  }

  /** `AddPart`: single messages pass through and malformed parts are dropped before the lock. */
  ghost function AddPartSpec(cfg: Config, st: State, now: int, part: Part): (State, Option<Assembled>)
    requires Inv(st)
  {
    if Single(part) then
      (st, Some(Assembled(part.from, part.text, part.timestamp, 1, part.encoding, true, false)))
    else if !Stored(part) then (st, None)
    else
      var cleaned := Cleaned(cfg, now, st);
      var k := KeyOf(part);
      assert GoodSlot(View(st, k));
      var (slot, out) := SlotAdd(now, View(cleaned, k), part);
      (Put(cleaned, k, slot), out)
  }

  ghost function FlushSpec(st: State, now: int, k: string, racing: map<int, string>): (State, Option<Assembled>)
    requires Inv(st)
  {
    assert GoodSlot(View(st, k));
    var (slot, out) := SlotFire(now, View(st, k), racing);
    (Put(st, k, slot), out)
  }

  // ---------------------------------------------------------------- the code

  lemma DropInserted(m: map<string, Entry>, k: string, e: Entry)
    ensures m[k := e] - {k} == m - {k}
  {
  }

  lemma DropAbsent(m: map<string, Entry>, k: string)
    requires k !in m
    ensures m - {k} == m
  {
  }

  /** A stale timer changes nothing; a live one moves the entry. */
  lemma FlushCases(st: State, now: int, k: string, racing: map<int, string>)
    requires Inv(st)
    ensures k !in st.pending ==> FlushSpec(st, now, k, racing) == (st, None)
    ensures k in st.pending ==>
              var fm := st.pending[k].(since := now);
              && fm.totalParts >= 0
              && FlushSpec(st, now, k, racing)
                 == (State(st.pending - {k}, st.flushed[k := fm]), Some(FlushNotice(fm.(parts := fm.parts + racing))))
  {
    hide FlushNotice, Key;
    assert GoodSlot(View(st, k));
    if k !in st.pending {
      DropAbsent(st.pending, k);
      if k in st.flushed {
        assert st.flushed[k := st.flushed[k]] == st.flushed;
      } else {
        DropAbsent(st.flushed, k);
      }
    }
  }

  /** The notice of a flush, worded from the parts that the shared map holds by then. */
  method WordNotice(fm: Entry, shared: map<int, string>) returns (notice: Assembled)
    requires fm.totalParts >= 0
    ensures notice == FlushNotice(fm.(parts := shared))
  {
    hide Summary, Available;
    var rangeStr := FormatPartsSummary(shared, fm.totalParts);
    var available := BuildAvailableText(shared, fm.totalParts);
    notice := Assembled(fm.from, "[" + rangeStr + "]: " + available, fm.timestamp, |shared|, fm.encoding, false, false);
  }

  class MessageAssembler {
    var cfg: Config
    var pending: map<string, Entry>
    var flushed: map<string, Entry>

    ghost function Abs(): State
      reads this
    {
      State(pending, flushed)
    }

    ghost predicate Valid()
      reads this
    {
      Inv(Abs())
    }

    constructor (cfg: Config)
      ensures this.cfg == cfg && Abs() == State(map[], map[]) && Valid()
    {
      this.cfg := cfg;
      pending := map[];
      flushed := map[];
    }

    /** Cancels everything; a timer that fires later finds no entry. */
    method Close()
      modifies this
      ensures Abs() == State(map[], map[]) && Valid() && cfg == old(cfg)
    {
      pending := map[];
      flushed := map[];
    }

    method CleanupExpired(now: int)
      modifies this
      ensures Abs() == Cleaned(cfg, now, old(Abs())) && cfg == old(cfg)
    {
      if cfg.ttl > 0 {
        var keys := pending.Keys;
        while keys != {}
          invariant keys <= old(pending).Keys
          invariant cfg == old(cfg) && flushed == old(flushed)
          invariant pending == map k | k in old(pending) && (k in keys || !PendingExpired(cfg, now, old(pending)[k])) :: old(pending)[k]
          decreases keys
        {
          var key :| key in keys;
          if now - pending[key].since > cfg.ttl {
            pending := pending - {key};
          }
          keys := keys - {key};
        }
      }
      assert pending == map k | k in old(pending) && !PendingExpired(cfg, now, old(pending)[k]) :: old(pending)[k];
      var flushedTTL := FLUSHED_TTL;
      if cfg.ttl > 0 && cfg.ttl < flushedTTL {
        flushedTTL := cfg.ttl;
      }
      var rest := flushed.Keys;
      ghost var kept := pending;
      while rest != {}
        invariant rest <= old(flushed).Keys
        invariant cfg == old(cfg) && pending == kept
        invariant flushed == map k | k in old(flushed) && (k in rest || !FlushedExpired(cfg, now, old(flushed)[k])) :: old(flushed)[k]
        decreases rest
      {
        var key :| key in rest;
        if now - flushed[key].since > flushedTTL {
          flushed := flushed - {key};
        }
        rest := rest - {key};
      }
    }

    method AddPart(now: int, part: Part) returns (out: Option<Assembled>)
      requires Valid()
      modifies this
      ensures (Abs(), out) == AddPartSpec(cfg, old(Abs()), now, part)
      ensures Valid() && cfg == old(cfg)
    {
      hide Join, Summary, Available, Key, SlotAdd, Cleaned, Put;
      if !part.isMultipart || part.totalParts <= 1 {
        return Some(Assembled(part.from, part.text, part.timestamp, 1, part.encoding, true, false));
      }
      if part.partNumber <= 0 || part.partNumber > part.totalParts || part.totalParts > 20 {
        return None;
      }
      AddPreservesInv(cfg, Abs(), now, part);
      CleanedSlots(cfg, now, Abs());
      ghost var before := Abs();
      CleanupExpired(now);
      var key := KeyOf(part);
      assert GoodSlot(View(Abs(), key));
      if key in flushed {
        out := AddLate(now, key, part);
      } else {
        out := AddPending(now, key, part);
      }
      assert Abs() == AddPartSpec(cfg, before, now, part).0;
    }

    /** The part of a message that was already flushed. */
    method AddLate(now: int, key: string, part: Part) returns (out: Option<Assembled>)
      requires key in flushed && flushed[key].totalParts >= 0 && Stored(part) && pending.Keys !! flushed.Keys
      modifies this
      ensures cfg == old(cfg)
      ensures var (slot, o) := SlotAdd(now, View(old(Abs()), key), part); out == o && Abs() == Put(old(Abs()), key, slot)
    {
      hide Join, Summary, Available, WithPart;
      DropAbsent(pending, key);
      var fm := WithPart(flushed[key], part);
      flushed := flushed[key := fm];
      if |fm.parts| == fm.totalParts {
        var text := JoinParts(fm.parts, fm.totalParts);
        flushed := flushed - {key};
        out := Some(Assembled(fm.from, "[Updated] " + text, fm.timestamp, fm.totalParts, fm.encoding, true, true));
        DropInserted(old(flushed), key, fm);
        return;
      }
      var rangeStr := FormatPartsSummary(fm.parts, fm.totalParts);
      var available := BuildAvailableText(fm.parts, fm.totalParts);
      out := Some(Assembled(fm.from, "[Updated " + rangeStr + "]: " + available, fm.timestamp, |fm.parts|,
                            fm.encoding, false, true));
    }

    /** The part of a message that is being collected, or its first part. */
    method AddPending(now: int, key: string, part: Part) returns (out: Option<Assembled>)
      requires key !in flushed && (key in pending ==> pending[key].totalParts >= 0) && Stored(part)
      modifies this
      ensures cfg == old(cfg)
      ensures var (slot, o) := SlotAdd(now, View(old(Abs()), key), part); out == o && Abs() == Put(old(Abs()), key, slot)
    {
      hide Join, Summary, Available, WithPart, Fresh;
      var pm := Fresh(now, part);
      if key in pending {
        pm := pending[key];
      }
      pm := WithPart(pm, part);
      pending := pending[key := pm];
      DropAbsent(flushed, key);
      if |pm.parts| == pm.totalParts {
        var text := JoinParts(pm.parts, pm.totalParts);
        pending := pending - {key};
        out := Some(Assembled(pm.from, text, pm.timestamp, pm.totalParts, pm.encoding, true, false));
        DropInserted(old(pending), key, pm);
        return;
      }
      out := None;
    }

    /** The timer callback; it may be stale. The result is the notice handed to the flush handler; `racing` are
        the parts that other callers put into the shared map between the unlock and the wording. */
    method FlushPending(now: int, key: string, racing: map<int, string>) returns (out: Option<Assembled>)
      requires Valid()
      modifies this
      ensures (Abs(), out) == FlushSpec(old(Abs()), now, key, racing)
      ensures Valid() && cfg == old(cfg)
    {
      hide FlushNotice, FlushSpec, Inv;
      FirePreservesInv(Abs(), now, key, racing);
      FlushCases(Abs(), now, key, racing);
      if key !in pending {
        return None;
      }
      var pm := pending[key];
      pending := pending - {key};
      var fm := pm.(since := now);
      flushed := flushed[key := fm];
      var notice := WordNotice(fm, fm.parts + racing);
      out := Some(notice);
    }
  }

  // ---------------------------------------------------------------- what every step keeps

  /** Expiry acts on each key alone. */
  lemma CleanedSlots(cfg: Config, now: int, st: State)
    requires Inv(st)
    ensures Inv(Cleaned(cfg, now, st))
    ensures forall k :: View(Cleaned(cfg, now, st), k) == Aged(cfg, now, View(st, k))
  {
    hide Key;
    var c := Cleaned(cfg, now, st);
    forall k ensures View(c, k) == Aged(cfg, now, View(st, k)) { }
    forall k ensures GoodSlot(View(c, k)) && OwnKey(k, View(c, k)) {
      assert GoodSlot(View(st, k)) && OwnKey(k, View(st, k));
    }
  }

  /** Writing one slot changes no other. */
  lemma PutViews(st: State, k: string, s: Slot)
    requires st.pending.Keys !! st.flushed.Keys
    ensures Put(st, k, s).pending.Keys !! Put(st, k, s).flushed.Keys
    ensures View(Put(st, k, s), k) == s
    ensures forall k' :: k' != k ==> View(Put(st, k, s), k') == View(st, k')
  {
    match s
    case Idle =>
    case Pending(e) =>
    case Flushed(e) =>
  }

  lemma PutSlot(st: State, k: string, s: Slot)
    requires Inv(st) && GoodSlot(s) && OwnKey(k, s)
    ensures Inv(Put(st, k, s))
    ensures View(Put(st, k, s), k) == s
    ensures forall k' :: k' != k ==> View(Put(st, k, s), k') == View(st, k')
  {
    hide Key, View, Put, GoodSlot, OwnKey;
    PutViews(st, k, s);
    var p := Put(st, k, s);
    forall k' ensures GoodSlot(View(p, k')) && OwnKey(k', View(p, k')) {
      assert GoodSlot(View(st, k')) && OwnKey(k', View(st, k'));
    }
  }

  lemma InsertSize(m: map<int, string>, i: int, v: string)
    ensures |m[i := v]| == |m| + if i in m then 0 else 1
  {
    assert m[i := v].Keys == m.Keys + {i};
  }

  /** An entry that stays is never full: the part that fills it removes it. */
  lemma SlotAddGood(now: int, s: Slot, part: Part)
    requires GoodSlot(s) && Stored(part)
    ensures GoodSlot(SlotAdd(now, s, part).0)
  {
    hide Join, Summary, Available;
    var e := if s == Idle then Fresh(now, part) else s.e;
    InsertSize(e.parts, part.partNumber, part.text);
  }

  lemma AddPreservesInv(cfg: Config, st: State, now: int, part: Part)
    requires Inv(st)
    ensures Inv(AddPartSpec(cfg, st, now, part).0)
  {
    hide Join, Summary, Available, Key;
    if Stored(part) {
      CleanedSlots(cfg, now, st);
      var cleaned := Cleaned(cfg, now, st);
      var k := KeyOf(part);
      var s := View(cleaned, k);
      assert GoodSlot(s) && OwnKey(k, s);
      SlotAddGood(now, s, part);
      var slot := SlotAdd(now, s, part).0;
      assert OwnKey(k, slot);
      PutSlot(cleaned, k, slot);
    }
  }

  lemma FirePreservesInv(st: State, now: int, k: string, racing: map<int, string>)
    requires Inv(st)
    ensures Inv(FlushSpec(st, now, k, racing).0)
  {
    hide Summary, Available, Key;
    assert GoodSlot(View(st, k)) && OwnKey(k, View(st, k));
    PutSlot(st, k, SlotFire(now, View(st, k), racing).0);
  }
}
