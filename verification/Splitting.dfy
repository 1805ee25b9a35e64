/** Cutting a long text into message parts (internal/sms/pdu/encoder.go, splitChunks). */
module Splitting {
  import Ucs2

  /** `EncodingAuto` also stands for the empty value; every name the code does not know behaves as `Binary`. */
  datatype Encoding = Auto | Gsm7 | Ucs2 | Binary

  /** What the splitter counts: UTF-16 units for UCS-2, characters for everything else. */
  function Weight(enc: Encoding, c: char): (w: nat)
    ensures 1 <= w <= 2
    ensures enc != Ucs2 ==> w == 1
  {
    if enc == Ucs2 then Ucs2.Units(c) else 1
  }

  function TextWeight(enc: Encoding, s: string): (w: nat)
    ensures w >= |s|
    ensures enc != Ucs2 ==> w == |s|
  {
    if s == [] then 0 else Weight(enc, s[0]) + TextWeight(enc, s[1..])
  }

  function Flatten(parts: seq<string>): string {
    if parts == [] then [] else parts[0] + Flatten(parts[1..])
  }

  /** A way to cut `s` into consecutive pieces of weight at most `max`. */
  ghost predicate Partition(enc: Encoding, s: string, max: nat, parts: seq<string>) {
    Flatten(parts) == s && forall i :: 0 <= i < |parts| ==> TextWeight(enc, parts[i]) <= max
  }

  /** How many characters of `s` fit in `room`. */
  function Fit(enc: Encoding, s: string, room: nat): (n: nat)
    ensures n <= |s|
    ensures n == 0 <==> s == [] || Weight(enc, s[0]) > room
  {
    if s == [] || Weight(enc, s[0]) > room then 0 else 1 + Fit(enc, s[1..], room - Weight(enc, s[0]))
  }

  /** Every piece takes as much as fits. */
  function Greedy(enc: Encoding, s: string, max: nat): (parts: seq<string>)
    requires max >= 2
    decreases |s|
  {
    if s == [] then []
    else
      var n := Fit(enc, s, max);
      [s[..n]] + Greedy(enc, s[n..], max)
  }

  // ---------------------------------------------------------------- weights

  lemma {:induction false} WeightConcat(enc: Encoding, s: string, t: string)
    ensures TextWeight(enc, s + t) == TextWeight(enc, s) + TextWeight(enc, t)
  {
    hide Weight;
    if s == [] {
      assert s + t == t;
    } else {
      assert (s + t)[1..] == s[1..] + t;
      WeightConcat(enc, s[1..], t);
    }
  }

  lemma {:induction false} Ucs2Weight(s: string)
    ensures TextWeight(Ucs2, s) == Ucs2.TextUnits(s)
  {
    if s != [] { Ucs2Weight(s[1..]); }
  }

  /** What fits is a prefix within the room ... */
  lemma {:induction false} FitWithin(enc: Encoding, s: string, room: nat)
    ensures TextWeight(enc, s[..Fit(enc, s, room)]) <= room
  {
    hide Weight;
    var n := Fit(enc, s, room);
    if n > 0 {
      FitWithin(enc, s[1..], room - Weight(enc, s[0]));
      assert s[..n][1..] == s[1..][..n - 1];
    }
  }

  /** ... and the longest such prefix. */
  lemma {:induction false} FitLongest(enc: Encoding, s: string, room: nat, n: nat)
    requires n <= |s| && TextWeight(enc, s[..n]) <= room
    ensures n <= Fit(enc, s, room)
  {
    hide Weight;
    if n > 0 {
      assert s[..n][0] == s[0] && s[..n][1..] == s[1..][..n - 1];
      FitLongest(enc, s[1..], room - Weight(enc, s[0]), n - 1);
    }
  }

  lemma HeavyPrefix(enc: Encoding, current: string, c: char, rest: string, max: nat, n: nat)
    requires max < TextWeight(enc, current) + Weight(enc, c)
    requires |current| < n <= |current| + 1 + |rest|
    ensures TextWeight(enc, (current + [c] + rest)[..n]) > max
  {
    var tail := rest[..n - |current| - 1];
    assert (current + [c] + rest)[..n] == current + ([c] + tail);
    WeightConcat(enc, current, [c] + tail);
    WeightConcat(enc, [c], tail);
    assert TextWeight(enc, [c]) == Weight(enc, c);
  }

  lemma FitExactly(enc: Encoding, current: string, c: char, rest: string, max: nat)
    requires TextWeight(enc, current) <= max < TextWeight(enc, current) + Weight(enc, c)
    ensures Fit(enc, current + [c] + rest, max) == |current|
  {
    hide Weight, Fit;
    var s := current + [c] + rest;
    assert s[..|current|] == current;
    FitLongest(enc, s, max, |current|);
    FitWithin(enc, s, max);
    if Fit(enc, s, max) > |current| {
      HeavyPrefix(enc, current, c, rest, max, Fit(enc, s, max));
    }
  }

  lemma FitAll(enc: Encoding, s: string, max: nat)
    requires TextWeight(enc, s) <= max
    ensures Fit(enc, s, max) == |s|
  {
    assert s[..|s|] == s;
    FitLongest(enc, s, max, |s|);
  }

  // ---------------------------------------------------------------- the code

  method SplitChunks(runes: string, enc: Encoding, maxUnits: nat) returns (chunks: seq<string>)
    requires maxUnits >= 2
    ensures chunks == Greedy(enc, runes, maxUnits)
  {
    if enc != Ucs2 {
      chunks := SplitByCount(runes, enc, maxUnits);
    } else {
      chunks := SplitByUnits(runes, maxUnits);
    }
  }

  /** The branch for UCS-2: a piece is closed when the next character does not fit any more. */
  method SplitByUnits(runes: string, maxUnits: nat) returns (chunks: seq<string>)
    requires maxUnits >= 2
    ensures chunks == Greedy(Ucs2, runes, maxUnits)
  {
    hide Greedy, Fit, Weight, TextWeight;
    chunks := [];
    var current: string := [];
    var currentUnits := 0;
    assert current + runes[0..] == runes;
    WeightOfNothing(Ucs2);
    for i := 0 to |runes|
      invariant currentUnits == TextWeight(Ucs2, current) <= maxUnits
      invariant i > 0 ==> current != []
      invariant chunks + Greedy(Ucs2, current + runes[i..], maxUnits) == Greedy(Ucs2, runes, maxUnits)
    {
      var r := runes[i];
      var units := 1;
      if r as int > 0xFFFF {
        units := 2;
      }
      WeightOfChar(r);
      ghost var rest := runes[i + 1..];
      assert runes[i..] == [r] + rest;
      assert current + runes[i..] == current + [r] + rest == current + ([r] + rest);
      if currentUnits + units > maxUnits {
        FitExactly(Ucs2, current, r, rest, maxUnits);
        CutGreedy(Ucs2, current, [r] + rest, maxUnits);
        chunks := chunks + [current];
        current := [r];
        currentUnits := units;
      } else {
        WeightConcat(Ucs2, current, [r]);
        current := current + [r];
        currentUnits := currentUnits + units;
      }
    }
    assert current + runes[|runes|..] == current + [] == current;
    GreedyNothing(Ucs2, maxUnits);
    if |current| > 0 {
      FitAll(Ucs2, current, maxUnits);
      CutGreedy(Ucs2, current, [], maxUnits);
      chunks := chunks + [current];
    }
  }

  lemma WeightOfNothing(enc: Encoding)
    ensures TextWeight(enc, []) == 0
  {
  }

  lemma WeightOfChar(c: char)
    ensures Weight(Ucs2, c) == TextWeight(Ucs2, [c]) == if c as int > 0xFFFF then 2 else 1
  {
  }

  lemma CutGreedy(enc: Encoding, current: string, rest: string, max: nat)
    requires max >= 2 && current != []
    requires Fit(enc, current + rest, max) == |current|
    ensures Greedy(enc, current + rest, max) == [current] + Greedy(enc, rest, max)
  {
    hide Fit;
    assert (current + rest)[..|current|] == current && (current + rest)[|current|..] == rest;
  }

  /** The branch for everything but UCS-2: pieces of a fixed number of characters. */
  method SplitByCount(runes: string, enc: Encoding, maxUnits: nat) returns (chunks: seq<string>)
    requires maxUnits >= 2 && enc != Ucs2
    ensures chunks == Greedy(enc, runes, maxUnits)
  {
    hide Fit, Greedy;
    chunks := [];
    var rest := runes;
    while |rest| > 0
      invariant chunks + Greedy(enc, rest, maxUnits) == Greedy(enc, runes, maxUnits)
      decreases |rest|
    {
      var chunkSize := maxUnits;
      if |rest| < chunkSize {
        chunkSize := |rest|;
      }
      FitByCount(enc, rest, maxUnits);
      GreedyStep(enc, rest, maxUnits);
      chunks := chunks + [rest[..chunkSize]];
      rest := rest[chunkSize..];
    }
    GreedyNothing(enc, maxUnits);
  }

  lemma FitByCount(enc: Encoding, s: string, max: nat)
    requires enc != Ucs2
    ensures Fit(enc, s, max) == if |s| < max then |s| else max
  {
    var n := if |s| < max then |s| else max;
    FitLongest(enc, s, max, n);
    FitWithin(enc, s, max);
  }

  lemma GreedyStep(enc: Encoding, s: string, max: nat)
    requires max >= 2 && s != []
    ensures Greedy(enc, s, max) == [s[..Fit(enc, s, max)]] + Greedy(enc, s[Fit(enc, s, max)..], max)
  {
    hide Fit;
  }

  lemma GreedyNothing(enc: Encoding, max: nat)
    requires max >= 2
    ensures Greedy(enc, [], max) == []
  {
  }

  // ---------------------------------------------------------------- what it is for

  /** The pieces are not empty, are within the limit and concatenate to the text. */
  lemma {:induction false} GreedyIsPartition(enc: Encoding, s: string, max: nat)
    requires max >= 2
    ensures Partition(enc, s, max, Greedy(enc, s, max))
    ensures forall i :: 0 <= i < |Greedy(enc, s, max)| ==> Greedy(enc, s, max)[i] != []
    decreases |s|
  {
    hide Fit, TextWeight;
    if s != [] {
      var n := Fit(enc, s, max);
      FitWithin(enc, s, max);
      GreedyIsPartition(enc, s[n..], max);
      assert Greedy(enc, s, max)[1..] == Greedy(enc, s[n..], max);
      assert s == s[..n] + s[n..];
    }
  }

  /** A piece that starts later ends no earlier. */
  lemma FitMonotone(enc: Encoding, s: string, i: nat, max: nat)
    requires i <= Fit(enc, s, max)
    ensures i + Fit(enc, s[i..], max) >= Fit(enc, s, max)
  {
    hide Fit, TextWeight;
    var n := Fit(enc, s, max);
    FitWithin(enc, s, max);
    assert s[..n] == s[..i] + s[i..n];
    WeightConcat(enc, s[..i], s[i..n]);
    assert s[i..][..n - i] == s[i..n];
    FitLongest(enc, s[i..], max, n - i);
  }

  /** A suffix never needs more pieces than the whole. */
  lemma {:induction false} SuffixMonotone(enc: Encoding, s: string, i: nat, max: nat)
    requires max >= 2 && i <= |s|
    ensures |Greedy(enc, s[i..], max)| <= |Greedy(enc, s, max)|
    decreases |s|
  {
    hide Greedy, Fit, TextWeight;
    if i == |s| {
      GreedyNothing(enc, max);
    } else {
      var n := Fit(enc, s, max);
      GreedyStep(enc, s, max);
      if i <= n {
        FitMonotone(enc, s, i, max);
        var m := Fit(enc, s[i..], max);
        GreedyStep(enc, s[i..], max);
        assert s[i..][m..] == s[n..][i + m - n..];
        SuffixMonotone(enc, s[n..], i + m - n, max);
      } else {
        assert s[i..] == s[n..][i - n..];
        SuffixMonotone(enc, s[n..], i - n, max);
      }
    }
  }

  /** No way of cutting the text within the limit uses fewer pieces. */
  lemma {:induction false} GreedyIsOptimal(enc: Encoding, s: string, max: nat, parts: seq<string>)
    requires max >= 2
    requires Partition(enc, s, max, parts)
    ensures |Greedy(enc, s, max)| <= |parts|
    decreases |parts|
  {
    hide Greedy, Fit, TextWeight;
    if s == [] {
      GreedyNothing(enc, max);
    } else {
      var k := |parts[0]|;
      assert s[k..] == Flatten(parts[1..]) && s[..k] == parts[0];
      GreedyIsOptimal(enc, s[k..], max, parts[1..]);
      FitLongest(enc, s, max, k);
      var n := Fit(enc, s, max);
      assert s[n..] == s[k..][n - k..];
      SuffixMonotone(enc, s[k..], n - k, max);
      GreedyStep(enc, s, max);
    }
  }

  /** A text over the limit takes at least two pieces. */
  lemma AtLeastTwo(enc: Encoding, s: string, max: nat)
    requires max >= 2 && TextWeight(enc, s) > max
    ensures |Greedy(enc, s, max)| >= 2
  {
    hide Fit, TextWeight;
    FitWithin(enc, s, max);
    var n := Fit(enc, s, max);
    assert n < |s| by { assert s[..|s|] == s; }
    WeightOfNothing(enc);
    GreedyStep(enc, s, max);
    GreedyStep(enc, s[n..], max);
  }

  lemma {:induction false} WeightAtMostDouble(enc: Encoding, s: string)
    ensures TextWeight(enc, s) <= 2 * |s|
  {
    if s != [] { WeightAtMostDouble(enc, s[1..]); }
  }

  /** Every piece but the last leaves no room for one more unit but one. */
  lemma {:induction false} ManyPieces(enc: Encoding, s: string, max: nat)
    requires max >= 67 && s != []
    ensures TextWeight(enc, s) >= 66 * (|Greedy(enc, s, max)| - 1)
    decreases |s|
  {
    hide Greedy, Fit, TextWeight;
    var n := Fit(enc, s, max);
    GreedyStep(enc, s, max);
    if n == |s| {
      assert s[n..] == [];
      GreedyNothing(enc, max);
    } else {
      ManyPieces(enc, s[n..], max);
      assert s == s[..n] + s[n..];
      WeightConcat(enc, s[..n], s[n..]);
      if TextWeight(enc, s[..n]) < max - 1 {
        assert s[..n + 1] == s[..n] + [s[n]];
        WeightConcat(enc, s[..n], [s[n]]);
        WeightOfOne(enc, s[n]);
        FitLongest(enc, s, max, n + 1);
      }
    }
  }

  lemma WeightOfOne(enc: Encoding, c: char)
    ensures TextWeight(enc, [c]) <= 2
  {
    assert [c][1..] == [];
  }

  /** Counted in characters, a text of at most 153 k of them takes at most k pieces. */
  lemma {:induction false} FewPieces(enc: Encoding, s: string, k: nat)
    requires enc != Ucs2 && |s| <= 153 * k
    ensures |Greedy(enc, s, 153)| <= k
    decreases |s|
  {
    hide Greedy, Fit;
    if s == [] {
      GreedyNothing(enc, 153);
    } else {
      GreedyStep(enc, s, 153);
      FitByCount(enc, s, 153);
      FewPieces(enc, s[Fit(enc, s, 153)..], k - 1);
    }
  }
}
