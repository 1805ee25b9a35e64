/** The modem pool: registration, candidate order and failover (internal/pool/pool.go, internal/pool/strategy.go).
    A modem is a snapshot of its identity and status. */
module Pool {
  import opened Octets
  import opened Text

  datatype Modem = Modem(id: string, status: string, signal: int, operator: string)

  datatype Strategy = RoundRobin | Failover | BestSignal | OperatorMatch

  datatype Criteria = Criteria(recipient: string, requiredModemID: string)

  datatype Error = NoReadyModems | ModemNotFound | AllModemsFailed

  const COUNTER_SIZE := 0x1_0000_0000_0000_0000

  // ---------------------------------------------------------------- membership

  ghost predicate UniqueIds(ms: seq<Modem>) { forall i, j :: 0 <= i < j < |ms| ==> ms[i].id != ms[j].id }

  /** The first index from `i` on with that id, or the length. */
  function IndexOf(ms: seq<Modem>, id: string, i: nat): (r: nat)
    requires i <= |ms|
    ensures i <= r <= |ms|
    ensures forall j :: i <= j < r ==> ms[j].id != id
    ensures r < |ms| ==> ms[r].id == id
    decreases |ms| - i
  {
    if i == |ms| || ms[i].id == id then i else IndexOf(ms, id, i + 1)
  }

  function Registered(ms: seq<Modem>, m: Modem): seq<Modem> {
    var i := IndexOf(ms, m.id, 0);
    if i < |ms| then ms[i := m] else ms + [m]
  }

  function Unregistered(ms: seq<Modem>, id: string): seq<Modem> {
    var i := IndexOf(ms, id, 0);
    if i < |ms| then ms[..i] + ms[i + 1..] else ms
  }

  /** Registering keeps ids unique, makes the modem a member and leaves all other members alone. */
  lemma RegisterKeepsUnique(ms: seq<Modem>, m: Modem)
    requires UniqueIds(ms)
    ensures UniqueIds(Registered(ms, m))
    ensures forall x :: x in Registered(ms, m) <==> x == m || (x in ms && x.id != m.id)
    ensures forall j :: 0 <= j < |ms| ==> j < |Registered(ms, m)| && Registered(ms, m)[j].id == ms[j].id
  {
    var i := IndexOf(ms, m.id, 0);
    var after := Registered(ms, m);
    forall x | x in ms && x.id != m.id ensures x in after {
      var j :| 0 <= j < |ms| && ms[j] == x;
      assert after[j] == x;
    }
    assert after[i] == m;
  }

  /** Unregistering removes exactly the member with that id. */
  lemma UnregisterKeepsUnique(ms: seq<Modem>, id: string)
    requires UniqueIds(ms)
    ensures UniqueIds(Unregistered(ms, id))
    ensures forall x :: x in Unregistered(ms, id) <==> x in ms && x.id != id
    ensures Unregistered(ms, id) == ms || exists i :: 0 <= i < |ms| && Unregistered(ms, id) == ms[..i] + ms[i + 1..]
  {
    hide IndexOf, UniqueIds;
    var i := IndexOf(ms, id, 0);
    if i < |ms| {
      RemoveAt(ms, i);
    } else {
      assert forall x :: x in ms ==> x.id != id;
    }
  }

  lemma RemoveAt(ms: seq<Modem>, i: nat)
    requires UniqueIds(ms) && i < |ms|
    ensures UniqueIds(ms[..i] + ms[i + 1..])
    ensures forall x :: x in ms[..i] + ms[i + 1..] <==> x in ms && x.id != ms[i].id
  {
    var after := ms[..i] + ms[i + 1..];
    forall x | x in ms && x.id != ms[i].id ensures x in after {
      var j :| 0 <= j < |ms| && ms[j] == x;
      assert after[if j < i then j else j - 1] == x;
    }
  }

  // ---------------------------------------------------------------- candidates

  predicate IsReady(m: Modem) { m.status == "ready" }

  function ReadyOnes(ms: seq<Modem>): seq<Modem> {
    if ms == [] then []
    else ReadyOnes(ms[..|ms| - 1]) + if IsReady(ms[|ms| - 1]) then [ms[|ms| - 1]] else []
  }

  /** The members other than the one with that id, in order. */
  function Others(ms: seq<Modem>, id: string): seq<Modem> {
    if ms == [] then [] else Others(ms[..|ms| - 1], id) + if ms[|ms| - 1].id != id then [ms[|ms| - 1]] else []
  }

  function Prepended(ms: seq<Modem>, first: Modem): seq<Modem> { [first] + Others(ms, first.id) }

  function Rotated(ms: seq<Modem>, start: nat): (r: seq<Modem>)
    requires ms != []
    ensures |r| == |ms|
  {
    seq(|ms|, i requires 0 <= i => ms[(start + i) % |ms|])
  }

  /** The strongest signal; of equal ones the first. */
  function Strongest(ms: seq<Modem>): (m: Modem)
    requires ms != []
    ensures m in ms
    ensures forall x :: x in ms ==> x.signal <= m.signal
  {
    if |ms| == 1 then ms[0]
    else
      var best := Strongest(ms[..|ms| - 1]);
      var last := ms[|ms| - 1];
      assert ms == ms[..|ms| - 1] + [last];
      if last.signal > best.signal then last else best
  }

  /** Every modem before it is weaker. */
  lemma {:induction false} StrongestIsFirst(ms: seq<Modem>) returns (i: nat)
    requires ms != []
    ensures i < |ms| && ms[i] == Strongest(ms) && forall j :: 0 <= j < i ==> ms[j].signal < ms[i].signal
  {
    hide Strongest;
    var n := |ms| - 1;
    StrongestOfLonger(ms);
    i := n;
    if n > 0 {
      var before := ms[..n];
      var b := StrongestIsFirst(before);
      if ms[n].signal > Strongest(before).signal {
        assert forall j :: 0 <= j < n ==> ms[j] in before;
      } else {
        i := b;
        assert forall j :: 0 <= j <= i ==> ms[j] == before[j];
      }
    }
  }

  lemma StrongestOfLonger(ms: seq<Modem>)
    requires ms != []
    ensures |ms| == 1 ==> Strongest(ms) == ms[0]
    ensures |ms| > 1 ==>
              var best, last := Strongest(ms[..|ms| - 1]), ms[|ms| - 1];
              Strongest(ms) == if last.signal > best.signal then last else best
  {
  }

  method PickBestSignal(ready: seq<Modem>) returns (best: Modem)
    requires ready != []
    ensures best == Strongest(ready)
  {
    best := ready[0];
    for i := 1 to |ready|
      invariant best == Strongest(ready[..i])
    {
      assert ready[..i + 1][..i] == ready[..i];
      if ready[i].signal > best.signal {
        best := ready[i];
      }
    }
    assert ready[..|ready|] == ready;
  }

  /** `strings.EqualFold`, for ASCII names. */
  function LowerChar(c: char): char { if 'A' <= c <= 'Z' then c - 'A' + 'a' else c }

  predicate EqualFold(a: string, b: string) {
    |a| == |b| && forall i :: 0 <= i < |a| ==> LowerChar(a[i]) == LowerChar(b[i])
  }

  predicate IsMts(p: string) { HasPrefix(p, "91") || HasPrefix(p, "98") }

  predicate IsMegaFon(p: string) { HasPrefix(p, "92") || HasPrefix(p, "93") }

  predicate IsBeeline(p: string) { HasPrefix(p, "96") || p == "903" || p == "905" || p == "906" || p == "909" }

  predicate IsTele2(p: string) {
    HasPrefix(p, "95") || HasPrefix(p, "99") || p == "977" || p == "900" || p == "901" || p == "902" || p == "904" || p == "908"
  }

  function OperatorByPrefix(p: string): string {
    if IsMts(p) then "MTS" else if IsMegaFon(p) then "MegaFon" else if IsBeeline(p) then "Beeline"
    else if IsTele2(p) then "Tele2" else ""
  }

  function DetectOperator(number: string): string {
    var d := DigitsOf(number);
    if |d| < 4 then ""
    else OperatorByPrefix(if d[0] == '7' || d[0] == '8' then d[1..4] else d[..3])
  }

  /** The numbering plan by three-digit codes. */
  function OperatorOfCode(code: nat): string {
    if 910 <= code <= 919 || 980 <= code <= 989 then "MTS"
    else if 920 <= code <= 939 then "MegaFon"
    else if 960 <= code <= 969 || code in {903, 905, 906, 909} then "Beeline"
    else if 950 <= code <= 959 || 990 <= code <= 999 || code in {900, 901, 902, 904, 908, 977} then "Tele2"
    else ""
  }

  function Code(a: nat, b: nat, c: nat): string
    requires a < 10 && b < 10 && c < 10
  {
    [DigitChar(a), DigitChar(b), DigitChar(c)]
  }

  lemma CodeStarts(a: nat, b: nat, c: nat, x: nat, y: nat)
    requires a < 10 && b < 10 && c < 10 && x < 10 && y < 10
    ensures HasPrefix(Code(a, b, c), [DigitChar(x), DigitChar(y)]) <==> a == x && b == y
  {
    var head := [DigitChar(x), DigitChar(y)];
    assert Code(a, b, c)[..2] == [DigitChar(a), DigitChar(b)];
    assert head[0] == DigitChar(x) && head[1] == DigitChar(y);
    assert HasPrefix(Code(a, b, c), head) <==> Code(a, b, c)[..2] == head;
  }

  lemma CodeIs(a: nat, b: nat, c: nat, x: nat, y: nat, z: nat)
    requires a < 10 && b < 10 && c < 10 && x < 10 && y < 10 && z < 10
    ensures Code(a, b, c) == Code(x, y, z) <==> a == x && b == y && c == z
  {
    assert Code(a, b, c)[0] == DigitChar(a) && Code(a, b, c)[1] == DigitChar(b) && Code(a, b, c)[2] == DigitChar(c);
  }

  lemma TwoDigitRows(a: nat, b: nat, c: nat)
    requires a < 10 && b < 10 && c < 10
    ensures IsMts(Code(a, b, c)) <==> a == 9 && (b == 1 || b == 8)
    ensures IsMegaFon(Code(a, b, c)) <==> a == 9 && (b == 2 || b == 3)
  {
    hide HasPrefix, Code;
    CodeStarts(a, b, c, 9, 1); CodeStarts(a, b, c, 9, 8); CodeStarts(a, b, c, 9, 2); CodeStarts(a, b, c, 9, 3);
  }

  lemma BeelineRows(a: nat, b: nat, c: nat)
    requires a < 10 && b < 10 && c < 10
    ensures IsBeeline(Code(a, b, c)) <==> a == 9 && (b == 6 || (b == 0 && (c == 3 || c == 5 || c == 6 || c == 9)))
  {
    hide HasPrefix, Code;
    Nines();
    CodeStarts(a, b, c, 9, 6);
    CodeIs(a, b, c, 9, 0, 3); CodeIs(a, b, c, 9, 0, 5); CodeIs(a, b, c, 9, 0, 6); CodeIs(a, b, c, 9, 0, 9);
  }

  lemma Tele2Rows(a: nat, b: nat, c: nat)
    requires a < 10 && b < 10 && c < 10
    ensures IsTele2(Code(a, b, c)) <==>
            a == 9 && (b == 5 || b == 9 || (b == 7 && c == 7) || (b == 0 && (c <= 2 || c == 4 || c == 8)))
  {
    hide HasPrefix, Code;
    Nines();
    CodeStarts(a, b, c, 9, 5); CodeStarts(a, b, c, 9, 9);
    CodeIs(a, b, c, 9, 0, 0); CodeIs(a, b, c, 9, 0, 1); CodeIs(a, b, c, 9, 0, 2); CodeIs(a, b, c, 9, 0, 4);
    CodeIs(a, b, c, 9, 0, 8); CodeIs(a, b, c, 9, 7, 7);
  }

  lemma CodeTable(a: nat, b: nat, c: nat)
    requires a < 10 && b < 10 && c < 10
    ensures OperatorByPrefix(Code(a, b, c)) == OperatorOfCode(100 * a + 10 * b + c)
  {
    hide IsMts, IsMegaFon, IsBeeline, IsTele2, Code;
    TwoDigitRows(a, b, c);
    BeelineRows(a, b, c);
    Tele2Rows(a, b, c);
  }

  lemma Nines()
    ensures Code(9, 0, 0) == "900" && Code(9, 0, 1) == "901" && Code(9, 0, 2) == "902" && Code(9, 0, 3) == "903"
    ensures Code(9, 0, 4) == "904" && Code(9, 0, 5) == "905" && Code(9, 0, 6) == "906" && Code(9, 0, 8) == "908"
    ensures Code(9, 0, 9) == "909" && Code(9, 7, 7) == "977"
  {
  }

  /** The operator of a number is that of the three digits behind a country code 7 or 8, or of its first three. */
  lemma OperatorByNumber(number: string, a: nat, b: nat, c: nat)
    requires a < 10 && b < 10 && c < 10 && |DigitsOf(number)| >= 4
    requires var d := DigitsOf(number);
             (if d[0] == '7' || d[0] == '8' then d[1..4] else d[..3]) == Code(a, b, c)
    ensures DetectOperator(number) == OperatorOfCode(100 * a + 10 * b + c)
  {
    hide OperatorByPrefix, OperatorOfCode, DigitsOf;
    CodeTable(a, b, c);
  }

  /** The number belongs to an operator, and it is this modem's. */
  predicate Matching(m: Modem, number: string) {
    DetectOperator(number) != "" && EqualFold(m.operator, DetectOperator(number))
  }

  /** `m` is the first modem of the number's operator, or the first of all when there is none. */
  ghost predicate OperatorChoice(ready: seq<Modem>, number: string, m: Modem)
    requires ready != []
  {
    if exists i :: 0 <= i < |ready| && Matching(ready[i], number)
    then exists i :: 0 <= i < |ready| && m == ready[i] && Matching(m, number)
                     && forall j :: 0 <= j < i ==> !Matching(ready[j], number)
    else m == ready[0]
  }

  method PickOperatorMatch(ready: seq<Modem>, number: string) returns (m: Modem)
    requires ready != []
    ensures m in ready
    ensures OperatorChoice(ready, number, m)
  {
    hide DetectOperator, EqualFold;
    var targetOp := DetectOperator(number);
    if targetOp != "" {
      for i := 0 to |ready|
        invariant forall j :: 0 <= j < i ==> !EqualFold(ready[j].operator, targetOp)
      {
        if EqualFold(ready[i].operator, targetOp) {
          return ready[i];
        }
      }
    }
    return ready[0];
  }

  method PrependCandidate(list: seq<Modem>, first: Modem) returns (res: seq<Modem>)
    ensures res == Prepended(list, first)
  {
    res := [first];
    for i := 0 to |list|
      invariant res == Prepended(list[..i], first)
    {
      assert list[..i + 1][..i] == list[..i];
      if list[i].id != first.id {
        res := res + [list[i]];
      }
    }
    assert list[..|list|] == list;
  }

  // ---------------------------------------------------------------- permutations

  lemma {:induction false} OthersAll(ms: seq<Modem>, id: string)
    requires forall i :: 0 <= i < |ms| ==> ms[i].id != id
    ensures Others(ms, id) == ms
  {
    if ms != [] {
      OthersAll(ms[..|ms| - 1], id);
      assert ms == ms[..|ms| - 1] + [ms[|ms| - 1]];
    }
  }

  /** With unique ids, moving a member to the front loses and doubles nothing. */
  lemma PrependPermutes(ms: seq<Modem>, first: Modem)
    requires UniqueIds(ms) && first in ms
    ensures multiset(Prepended(ms, first)) == multiset(ms)
  {
    hide UniqueIds, Others;
    var i :| 0 <= i < |ms| && ms[i] == first;
    OthersAre(ms, i);
    FrontPermutes(ms[..i], first, ms[i + 1..]);
    assert ms == ms[..i] + [first] + ms[i + 1..];
  }

  lemma FrontPermutes(a: seq<Modem>, m: Modem, b: seq<Modem>)
    ensures multiset([m] + (a + b)) == multiset(a + [m] + b)
  {
  }

  /** The chosen one moves to the front, the others keep their order. */
  ghost predicate MovedToFront(ms: seq<Modem>, res: seq<Modem>) {
    exists i :: 0 <= i < |ms| && res == [ms[i]] + ms[..i] + ms[i + 1..]
  }

  lemma {:induction false} OthersAre(ms: seq<Modem>, i: nat)
    requires UniqueIds(ms) && i < |ms|
    ensures Others(ms, ms[i].id) == ms[..i] + ms[i + 1..]
  {
    hide UniqueIds;
    var n := |ms| - 1;
    LastIsUnique(ms);
    if i == n {
      OthersAll(ms[..n], ms[n].id);
      assert ms[..n] + ms[n + 1..] == ms[..n];
    } else {
      OthersAre(ms[..n], i);
      assert ms[..n][i] == ms[i] && ms[..n][..i] == ms[..i] && ms[..n][i + 1..] + [ms[n]] == ms[i + 1..];
    }
  }

  lemma PrependMoves(ms: seq<Modem>, first: Modem)
    requires UniqueIds(ms) && first in ms
    ensures MovedToFront(ms, Prepended(ms, first))
  {
    hide UniqueIds, Others;
    var i :| 0 <= i < |ms| && ms[i] == first;
    OthersAre(ms, i);
    assert Prepended(ms, first) == [ms[i]] + ms[..i] + ms[i + 1..];
  }

  lemma LastIsUnique(ms: seq<Modem>)
    requires UniqueIds(ms) && ms != []
    ensures var before, last := ms[..|ms| - 1], ms[|ms| - 1];
            && UniqueIds(before)
            && (forall i :: 0 <= i < |before| ==> before[i].id != last.id)
            && (forall m :: m in before ==> m.id != last.id)
  {
  }

  lemma RotatedSplit(ms: seq<Modem>, start: nat)
    requires ms != []
    ensures var k := start % |ms|; Rotated(ms, start) == ms[k..] + ms[..k]
  {
    var n := |ms|;
    var k := start % n;
    forall i | 0 <= i < n ensures Rotated(ms, start)[i] == (ms[k..] + ms[..k])[i] {
      RotateIndex(start, i, n);
    }
  }

  lemma RotateIndex(start: nat, i: nat, n: nat)
    requires i < n
    ensures (start + i) % n == if start % n + i < n then start % n + i else start % n + i - n
  {
    var q, k := start / n, start % n;
    assert start + i == n * q + (k + i);
    if k + i < n {
      DivModUnique(n, q, k + i);
    } else {
      assert start + i == n * (q + 1) + (k + i - n);
      DivModUnique(n, q + 1, k + i - n);
    }
  }

  lemma SameRotation(start: nat, i: nat, n: nat)
    requires i < n
    ensures (start % n + i) % n == (start + i) % n
  {
    var k := start % n;
    DivModUnique(n, 0, k);
    RotateIndex(start, i, n);
    RotateIndex(k, i, n);
  }

  lemma DivModUnique(n: nat, q: nat, r: nat)
    requires r < n
    ensures (n * q + r) % n == r
  {
    var x := n * q + r;
    var q', r' := x / n, x % n;
    assert n * (q - q') == r' - r;
    MulBound(n, q - q');
  }

  lemma MulBound(n: nat, d: int)
    ensures d >= 1 ==> n * d >= n
    ensures d <= -1 ==> n * d <= -(n as int)
  {
  }

  /** A rotation is a permutation. */
  lemma RotatePermutes(ms: seq<Modem>, start: nat)
    requires ms != []
    ensures multiset(Rotated(ms, start)) == multiset(ms)
  {
    hide Rotated;
    RotatedSplit(ms, start);
    var k := start % |ms|;
    assert ms == ms[..k] + ms[k..];
    assert multiset(ms) == multiset(ms[..k]) + multiset(ms[k..]);
  }

  // ---------------------------------------------------------------- the pool

  lemma {:induction false} ReadyFacts(ms: seq<Modem>)
    ensures forall m :: m in ReadyOnes(ms) <==> m in ms && m.status == "ready"
    ensures UniqueIds(ms) ==> UniqueIds(ReadyOnes(ms))
  {
    if ms != [] {
      ReadyFacts(ms[..|ms| - 1]);
      assert ms == ms[..|ms| - 1] + [ms[|ms| - 1]];
      if UniqueIds(ms) {
        var before := ReadyOnes(ms[..|ms| - 1]);
        forall i | 0 <= i < |before| ensures before[i].id != ms[|ms| - 1].id {
          assert before[i] in before && before[i] in ms[..|ms| - 1];
        }
      }
    }
  }

  class ModemPool {
    const strategy: Strategy
    var modems: seq<Modem>
    var rrIndex: nat

    ghost predicate Valid()
      reads this
    {
      UniqueIds(modems) && rrIndex < COUNTER_SIZE
    }

    constructor (strategy: Strategy)
      ensures Valid() && modems == [] && rrIndex == 0 && this.strategy == strategy
    {
      this.strategy := strategy;
      modems := [];
      rrIndex := 0;
    }

    method Register(m: Modem)
      requires Valid()
      modifies this`modems
      ensures Valid() && modems == Registered(old(modems), m)
    {
      RegisterKeepsUnique(modems, m);
      for i := 0 to |modems|
        invariant modems == old(modems)
        invariant forall j :: 0 <= j < i ==> modems[j].id != m.id
      {
        if modems[i].id == m.id {
          modems := modems[i := m];
          return;
        }
      }
      modems := modems + [m];
    }

    method Unregister(id: string)
      requires Valid()
      modifies this`modems
      ensures Valid() && modems == Unregistered(old(modems), id)
    {
      UnregisterKeepsUnique(modems, id);
      for i := 0 to |modems|
        invariant modems == old(modems)
        invariant forall j :: 0 <= j < i ==> modems[j].id != id
      {
        if modems[i].id == id {
          modems := modems[..i] + modems[i + 1..];
          return;
        }
      }
    }

    /** The candidates are a permutation of the ready modems (or the one required modem); best-signal puts a
        maximum first, operator-match a modem of the recipient's operator, failover keeps the registration order,
        round-robin starts at the counter, which it advances. */
    method Candidates(criteria: Criteria) returns (r: Result<seq<Modem>, Error>)
      requires Valid()
      modifies this`rrIndex
      ensures Valid()
      ensures criteria.requiredModemID != "" && modems != [] ==>
                && rrIndex == old(rrIndex)
                && (r.Ok? ==> exists m :: m in modems && m.id == criteria.requiredModemID && m.status == "ready" && r.value == [m])
                && (r.Err? ==> r.error == ModemNotFound)
                && (r.Err? ==> forall m :: m in modems && m.id == criteria.requiredModemID ==> m.status != "ready")
      ensures criteria.requiredModemID == "" || modems == [] ==>
                && (ReadyOnes(modems) == [] ==> r == Err(NoReadyModems))
                && (ReadyOnes(modems) != [] ==>
                      && r.Ok? && r.value != [] && multiset(r.value) == multiset(ReadyOnes(modems))
                      && (strategy == Failover ==> r.value == ReadyOnes(modems))
                      && (strategy == BestSignal ==> r.value[0] == Strongest(ReadyOnes(modems)))
                      && (strategy == OperatorMatch ==> OperatorChoice(ReadyOnes(modems), criteria.recipient, r.value[0]))
                      && (strategy == BestSignal || strategy == OperatorMatch ==> MovedToFront(ReadyOnes(modems), r.value))
                      && (strategy == RoundRobin ==>
                            var k := old(rrIndex) % |ReadyOnes(modems)|;
                            r.value == ReadyOnes(modems)[k..] + ReadyOnes(modems)[..k])
                      && (strategy != RoundRobin ==> rrIndex == old(rrIndex))
                      && (strategy == RoundRobin ==> r.value[0] == ReadyOnes(modems)[old(rrIndex) % |ReadyOnes(modems)|])
                      && (strategy == RoundRobin ==> rrIndex == (old(rrIndex) + 1) % COUNTER_SIZE))
    {
      hide ReadyOnes, Strongest, Rotated, OperatorChoice, MovedToFront;
      if |modems| == 0 {
        NoneReady();
        return Err(NoReadyModems);
      }
      if criteria.requiredModemID != "" {
        for i := 0 to |modems|
          invariant forall j :: 0 <= j < i ==> !(modems[j].id == criteria.requiredModemID && IsReady(modems[j]))
        {
          if modems[i].id == criteria.requiredModemID && modems[i].status == "ready" {
            return Ok([modems[i]]);
          }
        }
        return Err(ModemNotFound);
      }
      var ready := CollectReady(modems);
      if |ready| == 0 {
        return Err(NoReadyModems);
      }
      ReadyFacts(modems);
      var ordered := OrderCandidates(ready, criteria);
      r := Ok(ordered);
    }

    /** The modem for one operation: the first candidate. */
    method Select(criteria: Criteria) returns (r: Result<Modem, Error>)
      requires Valid()
      modifies this`rrIndex
      ensures Valid()
      ensures r.Ok? ==> r.value in modems && r.value.status == "ready"
      ensures criteria.requiredModemID == "" && ReadyOnes(modems) != [] && strategy == RoundRobin ==>
                && r == Ok(ReadyOnes(modems)[old(rrIndex) % |ReadyOnes(modems)|])
                && rrIndex == (old(rrIndex) + 1) % COUNTER_SIZE
    {
      hide ReadyOnes, Strongest, OperatorChoice;
      var candidates := Candidates(criteria);
      if candidates.Err? {
        return Err(candidates.error);
      }
      r := Ok(candidates.value[0]);
      if criteria.requiredModemID == "" || modems == [] {
        ReadyFacts(modems);
        assert candidates.value[0] in multiset(candidates.value);
      }
    }

    /** Sending with failover: the candidates of the strategy in their order, each at most once. It fails only when
        there is no ready modem or when every ready modem has failed. */
    method SendSMS(to: string, attempt: Modem -> Attempt) returns (r: Result<seq<byte>, Error>, ghost tried: seq<Modem>)
      requires Valid()
      modifies this`rrIndex
      ensures Valid() && UniqueIds(tried)
      ensures forall m :: m in tried ==> m in modems && m.status == "ready"
      ensures r.Ok? ==> tried != [] && attempt(tried[|tried| - 1]) == Sent(r.value)
                        && forall i :: 0 <= i < |tried| - 1 ==> attempt(tried[i]) == Failed
      ensures r == Err(NoReadyModems) <==> ReadyOnes(modems) == []
      ensures r == Err(AllModemsFailed) <==>
                ReadyOnes(modems) != [] && forall m :: m in ReadyOnes(modems) ==> attempt(m) == Failed
      ensures r.Err? ==> r.error == NoReadyModems || r.error == AllModemsFailed
      ensures r.Err? ==> multiset(tried) == multiset(ReadyOnes(modems))
    {
      hide ReadyOnes, Strongest, OperatorChoice, UniqueIds;
      tried := [];
      NoneUnique();
      var candidates := Candidates(Criteria(to, ""));
      if candidates.Err? {
        r := Err(candidates.error);
        return;
      }
      var n;
      r, n := TryCandidates(candidates.value, attempt);
      tried := candidates.value[..n];
      ReadyFacts(modems);
      CandidatesTried(modems, candidates.value, n);
      if r.Err? {
        assert tried == candidates.value;
      }
    }

    method OrderCandidates(ready: seq<Modem>, criteria: Criteria) returns (res: seq<Modem>)
      requires Valid() && ready != [] && UniqueIds(ready)
      modifies this`rrIndex
      ensures Valid() && res != [] && multiset(res) == multiset(ready)
      ensures strategy == Failover ==> res == ready
      ensures strategy == BestSignal ==> res[0] == Strongest(ready)
      ensures strategy == OperatorMatch ==> OperatorChoice(ready, criteria.recipient, res[0])
      ensures strategy == BestSignal || strategy == OperatorMatch ==> MovedToFront(ready, res)
      ensures strategy == RoundRobin ==> res == ready[old(rrIndex) % |ready|..] + ready[..old(rrIndex) % |ready|]
      ensures strategy != RoundRobin ==> rrIndex == old(rrIndex)
      ensures strategy == RoundRobin ==>
                res == Rotated(ready, old(rrIndex)) && res[0] == ready[old(rrIndex) % |ready|]
                && rrIndex == (old(rrIndex) + 1) % COUNTER_SIZE
    {
      hide Strongest, OperatorChoice, MovedToFront;
      match strategy {
        case Failover =>
          res := ready;
        case BestSignal =>
          var best := PickBestSignal(ready);
          res := PrependCandidate(ready, best);
          PrependPermutes(ready, best);
          PrependMoves(ready, best);
        case OperatorMatch =>
          var matched := PickOperatorMatch(ready, criteria.recipient);
          res := PrependCandidate(ready, matched);
          PrependPermutes(ready, matched);
          PrependMoves(ready, matched);
        case RoundRobin =>
          var idx := rrIndex;
          rrIndex := (rrIndex + 1) % COUNTER_SIZE;
          res := RotateFrom(ready, idx);
          RotatePermutes(ready, idx);
          RotatedSplit(ready, idx);
          RotateIndex(idx, 0, |ready|);
      }
    }
  }

  /** The loop that lists the ready modems from the chosen one on. */
  method RotateFrom(ready: seq<Modem>, idx: nat) returns (res: seq<Modem>)
    requires ready != []
    ensures res == Rotated(ready, idx)
  {
    var start := idx % |ready|;
    res := [];
    for i := 0 to |ready|
      invariant |res| == i && forall j :: 0 <= j < i ==> res[j] == Rotated(ready, idx)[j]
    {
      SameRotation(idx, i, |ready|);
      res := res + [ready[(start + i) % |ready|]];
    }
  }

  lemma NoneReady()
    ensures ReadyOnes([]) == []
  {
  }

  method CollectReady(modems: seq<Modem>) returns (ready: seq<Modem>)
    ensures ready == ReadyOnes(modems)
  {
    ready := [];
    for i := 0 to |modems|
      invariant ready == ReadyOnes(modems[..i])
    {
      assert modems[..i + 1][..i] == modems[..i];
      if modems[i].status == "ready" {
        ready := ready + [modems[i]];
      }
    }
    assert modems[..|modems|] == modems;
  }

  // ---------------------------------------------------------------- fairness and failover

  /** The position that the counter's `x`-th value selects; the counter wraps. */
  function Position(x: nat, n: nat): (p: nat)
    requires n > 0
    ensures p < n
  {
    x % COUNTER_SIZE % n
  }

  /** What `count` consecutive round-robin selections from counter value `from` choose. */
  function Selections(ready: seq<Modem>, from: nat, count: nat): seq<Modem>
    requires ready != []
  {
    seq(count, i requires 0 <= i => ready[Position(from + i, |ready|)])
  }

  /** What the pool selects in `n` calls while the ready modems stay the same. */
  method SelectTimes(pool: ModemPool, n: nat) returns (picks: seq<Modem>)
    requires pool.Valid() && pool.strategy == RoundRobin && ReadyOnes(pool.modems) != []
    modifies pool`rrIndex
    ensures pool.Valid()
    ensures picks == Selections(ReadyOnes(pool.modems), old(pool.rrIndex), n)
    ensures n == |ReadyOnes(pool.modems)| && old(pool.rrIndex) + n <= COUNTER_SIZE ==>
              multiset(picks) == multiset(ReadyOnes(pool.modems))
  {
    hide ReadyOnes, Selections;
    SelectionsNone(ReadyOnes(pool.modems), pool.rrIndex);
    ghost var ready, start := ReadyOnes(pool.modems), pool.rrIndex;
    picks := [];
    for i := 0 to n
      invariant pool.Valid() && pool.rrIndex == (start + i) % COUNTER_SIZE
      invariant picks == Selections(ready, start, i)
    {
      var r := pool.Select(Criteria("", ""));
      picks := picks + [r.value];
      SelectionsSnoc(ready, start, i);
      CounterSucc(start + i);
    }
    if n == |ready| && start + n <= COUNTER_SIZE { RoundRobinIsFair(ready, start); }
  }

  lemma SelectionsNone(ready: seq<Modem>, from: nat)
    requires ready != []
    ensures Selections(ready, from, 0) == []
  {
  }

  lemma SelectionsSnoc(ready: seq<Modem>, from: nat, n: nat)
    requires ready != []
    ensures Selections(ready, from, n + 1) == Selections(ready, from, n) + [ready[(from + n) % COUNTER_SIZE % |ready|]]
  {
    var longer := Selections(ready, from, n + 1);
    assert longer[n] == ready[Position(from + n, |ready|)];
    hide Position;
    assert longer[..n] == Selections(ready, from, n);
    assert longer == longer[..n] + [longer[n]];
  }

  lemma CounterSucc(x: nat)
    ensures (x % COUNTER_SIZE + 1) % COUNTER_SIZE == (x + 1) % COUNTER_SIZE
  {
  }

  lemma NoneUnique()
    ensures UniqueIds([])
  {
  }

  /** Candidates are ready members, and no prefix of them holds one twice. */
  lemma CandidatesTried(ms: seq<Modem>, candidates: seq<Modem>, n: nat)
    requires UniqueIds(ReadyOnes(ms)) && multiset(candidates) == multiset(ReadyOnes(ms)) && n <= |candidates|
    ensures UniqueIds(candidates[..n])
    ensures forall m :: m in candidates[..n] ==> m in ms && m.status == "ready"
    ensures forall m :: m in candidates <==> m in ReadyOnes(ms)
  {
    hide ReadyOnes;
    PermutationKeepsUnique(ReadyOnes(ms), candidates);
    forall m ensures m in candidates <==> m in ReadyOnes(ms) {
      assert m in candidates <==> m in multiset(candidates);
    }
    ReadyFacts(ms);
  }

  /** With a fixed ready set of n, any n consecutive selections before the counter wraps choose each modem once. */
  lemma RoundRobinIsFair(ready: seq<Modem>, from: nat)
    requires ready != [] && from + |ready| <= COUNTER_SIZE
    ensures multiset(Selections(ready, from, |ready|)) == multiset(ready)
  {
    hide Position;
    var picks, rotated := Selections(ready, from, |ready|), Rotated(ready, from);
    forall i | 0 <= i < |ready| ensures picks[i] == rotated[i] { PositionPlain(from + i, |ready|); }
    assert picks == rotated;
    RotatePermutes(ready, from);
  }

  lemma PositionPlain(x: nat, n: nat)
    requires n > 0 && x < COUNTER_SIZE
    ensures Position(x, n) == x % n
  {
  }

  /** Across the wrap they do so exactly when n divides the counter's range. */
  lemma FairAcrossWrap(ready: seq<Modem>, from: nat)
    requires ready != [] && UniqueIds(ready)
    requires from < COUNTER_SIZE < from + |ready| && |ready| <= COUNTER_SIZE
    ensures multiset(Selections(ready, from, |ready|)) == multiset(ready) <==> COUNTER_SIZE % |ready| == 0
  {
    hide UniqueIds, Position, Rotated;
    var n := |ready|;
    var picks := Selections(ready, from, n);
    if COUNTER_SIZE % n == 0 {
      WrapUnnoticed(ready, from);
      RotatePermutes(ready, from);
    } else {
      var i, j := Collision(from, n);
      CountTwice(picks, i, j);
      CountOnce(ready, Position(from + i, n));
    }
  }

  /** The failing case: of three modems, the selections around the wrap of the 64-bit counter choose the first
      one twice and the last one never. */
  lemma UnfairWrap(a: Modem, b: Modem, c: Modem)
    ensures Selections([a, b, c], COUNTER_SIZE - 1, 3) == [a, a, b]
  {
    assert Position(COUNTER_SIZE - 1, 3) == 0;
    assert Position(COUNTER_SIZE, 3) == 0;
    assert Position(COUNTER_SIZE + 1, 3) == 1;
    var picks := Selections([a, b, c], COUNTER_SIZE - 1, 3);
    assert picks[0] == a && picks[1] == a && picks[2] == b;
  }

  lemma WrapUnnoticed(ready: seq<Modem>, from: nat)
    requires ready != [] && COUNTER_SIZE % |ready| == 0 && from < COUNTER_SIZE && |ready| <= COUNTER_SIZE
    ensures Selections(ready, from, |ready|) == Rotated(ready, from)
  {
    hide Position;
    var picks, rotated := Selections(ready, from, |ready|), Rotated(ready, from);
    forall i | 0 <= i < |ready| ensures picks[i] == rotated[i] { WrapDivides(from + i, |ready|); }
  }

  lemma WrapDivides(x: nat, n: nat)
    requires n > 0 && COUNTER_SIZE % n == 0 && x < 2 * COUNTER_SIZE
    ensures Position(x, n) == x % n
  {
    if x >= COUNTER_SIZE {
      var y, q := x - COUNTER_SIZE, COUNTER_SIZE / n;
      assert COUNTER_SIZE == n * q;
      assert x == n * (q + y / n) + y % n;
      DivModUnique(n, q + y / n, y % n);
    }
  }

  /** Two selections around the wrap that hit the same position. */
  lemma Collision(from: nat, n: nat) returns (i: nat, j: nat)
    requires from < COUNTER_SIZE < from + n && n <= COUNTER_SIZE && COUNTER_SIZE % n != 0
    ensures i < j < n
    ensures Position(from + i, n) == Position(from + j, n)
  {
    var w, q, k := COUNTER_SIZE % n, COUNTER_SIZE / n, COUNTER_SIZE - from;
    var p := if w <= n - k then w - 1 else n - 1 - k;
    i, j := if w <= n - k then k - 1 else n - 1 - w, k + p;
    assert from + i == n * q + p;
    PositionBefore(n, q, p);
    PositionAfter(n, p);
  }

  lemma PositionBefore(n: nat, q: nat, p: nat)
    requires p < n && n * q + p < COUNTER_SIZE
    ensures Position(n * q + p, n) == p
  {
    DivModUnique(n, q, p);
  }

  lemma PositionAfter(n: nat, p: nat)
    requires p < n <= COUNTER_SIZE
    ensures Position(COUNTER_SIZE + p, n) == p
  {
    DivModUnique(n, 0, p);
  }

  datatype Attempt = Sent(ref: seq<byte>) | Failed

  /** The failover loop of SendSMS and Dial: candidates in order, each at most once, until one succeeds; an error
      only when all of them failed. `attempt` is what the modem answers. */
  method TryCandidates(candidates: seq<Modem>, attempt: Modem -> Attempt) returns (r: Result<seq<byte>, Error>, tried: nat)
    ensures tried <= |candidates|
    ensures r.Ok? ==> 1 <= tried && attempt(candidates[tried - 1]) == Sent(r.value)
                      && forall i :: 0 <= i < tried - 1 ==> attempt(candidates[i]) == Failed
    ensures r.Err? <==> forall i :: 0 <= i < |candidates| ==> attempt(candidates[i]) == Failed
    ensures r.Err? ==> r.error == AllModemsFailed && tried == |candidates|
  {
    tried := 0;
    while tried < |candidates|
      invariant tried <= |candidates|
      invariant forall i :: 0 <= i < tried ==> attempt(candidates[i]) == Failed
    {
      var outcome := attempt(candidates[tried]);
      tried := tried + 1;
      if outcome.Sent? {
        return Ok(outcome.ref), tried;
      }
    }
    return Err(AllModemsFailed), tried;
  }

  lemma CountOnce(a: seq<Modem>, x: nat)
    requires UniqueIds(a) && x < |a|
    ensures multiset(a)[a[x]] == 1
  {
    assert a == a[..x] + [a[x]] + a[x + 1..];
    assert a[x] !in a[..x] && a[x] !in a[x + 1..];
  }

  lemma CountTwice(b: seq<Modem>, i: nat, j: nat)
    requires i < j < |b| && b[i] == b[j]
    ensures multiset(b)[b[i]] >= 2
  {
    assert b == b[..j] + [b[j]] + b[j + 1..];
    assert b[i] in b[..j] by { assert b[..j][i] == b[i]; }
  }

  /** A permutation of modems with unique ids lists none of them twice, so failover tries each at most once. */
  lemma PermutationKeepsUnique(a: seq<Modem>, b: seq<Modem>)
    requires UniqueIds(a) && multiset(a) == multiset(b)
    ensures UniqueIds(b)
  {
    forall i, j | 0 <= i < j < |b| ensures b[i].id != b[j].id {
      assert b[i] in multiset(a) && b[j] in multiset(a);
      var x: nat :| x < |a| && a[x] == b[i];
      var y: nat :| y < |a| && a[y] == b[j];
      if x == y {
        CountOnce(a, x);
        CountTwice(b, i, j);
        assert false;
      }
    }
  }
}
