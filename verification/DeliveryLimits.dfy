/** Texts at the edges of what arrives: the ones that do, and the ones that lose characters, their header or the whole
    message (internal/sms/pdu/encoder.go, internal/sms/assembler.go). */
module DeliveryLimits {
  import opened Octets
  import opened Text
  import opened Splitting
  import opened Assembler
  import opened Reassembly
  import opened EndToEnd
  import Encoder
  import Gsm7
  import Relay
  import Submit
  import Ucs2

  // ---------------------------------------------------------------- cutting simple texts

  ghost predicate Addressable(recipient: string) {
    TrimSpace(recipient) != "" && |DigitsOf(TrimSpace(recipient))| <= 255
  }

  lemma {:induction false} PiecesHold(parts: seq<string>, max: nat)
    requires forall i :: 0 <= i < |parts| ==> |parts[i]| <= max
    ensures |Flatten(parts)| <= max * |parts|
  {
    if parts != [] {
      PiecesHold(parts[1..], max);
      assert max * |parts| == max + max * |parts[1..]|;
    }
  }

  /** GSM-7 texts are long from 161 characters on, and within 20 parts up to 3060. */
  lemma LongGsm7(s: Sent)
    requires Addressable(s.recipient) && s.ref != 0 && |s.text| > 160
    requires s.enc == Gsm7 || (s.enc == Auto && forall c :: c in s.text ==> Gsm7.InAlphabet(c))
    ensures LongSent(s) && Chosen(s) == Gsm7 && |Pieces(s)| >= 2
    ensures |Pieces(s)| <= MAX_PARTS <==> |s.text| <= 153 * MAX_PARTS
  {
    hide Greedy, TextWeight, TrimSpace, DigitsOf, Gsm7.InAlphabet, Encoder.PartPDU;
    AtLeastTwo(Gsm7, s.text, 153);
    if |s.text| <= 153 * MAX_PARTS {
      FewPieces(Gsm7, s.text, MAX_PARTS);
    } else {
      GreedyIsPartition(Gsm7, s.text, 153);
      PiecesHold(Pieces(s), 153);
    }
  }

  lemma LetterA()
    ensures Gsm7.InAlphabet('a') && !Gsm7.InExtension('a')
  {
  }

  /** A text that is cut in two, where characters are counted. */
  lemma TwoPieces(s: Sent, first: string, second: string)
    requires Chosen(s) != Ucs2 && s.text == first + second
    requires |first| == Encoder.MaxMultipart(Chosen(s)) && 0 < |second| <= |first|
    ensures Pieces(s) == [first, second]
  {
    hide Greedy, Fit, Encoder.Selected;
    var enc := Chosen(s);
    var max := Encoder.MaxMultipart(enc);
    GreedyStep(enc, s.text, max);
    FitByCount(enc, s.text, max);
    assert s.text[..|first|] == first && s.text[|first|..] == second;
    GreedyStep(enc, second, max);
    FitByCount(enc, second, max);
    assert second[..|second|] == second && second[|second|..] == [];
    GreedyNothing(enc, max);
    assert [second] + [] == [second];
  }

  lemma {:induction false} RepeatConcat(c: char, m: nat, n: nat)
    ensures Repeat(c, m) + Repeat(c, n) == Repeat(c, m + n)
  {
    if m == 0 {
      assert Repeat(c, 0) == [];
    } else {
      RepeatConcat(c, m - 1, n);
      assert Repeat(c, m) + Repeat(c, n) == [c] + (Repeat(c, m - 1) + Repeat(c, n));
    }
  }

  // ---------------------------------------------------------------- what is left of them

  /** If the announced length ends with `kept`, that is what arrives. */
  lemma GotKeptSeptets(kept: string, lost: string, udh: bool)
    requires Relay.Kept(|Gsm7.Encoded(kept)| + |Gsm7.Encoded(lost)|, if udh then 7 else 0) == |Gsm7.Encoded(kept)|
    ensures Relay.Got(Gsm7, kept + lost, udh) == Relay.Received(Gsm7, kept)
  {
    hide Gsm7.Encoded, Gsm7.Decoded, Gsm7.Substituted, Relay.Kept;
    Gsm7.EncodedConcat(kept, lost);
    assert Gsm7.Encoded(kept + lost)[..|Gsm7.Encoded(kept)|] == Gsm7.Encoded(kept);
    Gsm7.RoundTripSubstituted(kept);
  }

  lemma GotKeptUnits(enc: Encoding, kept: string, lost: string, udh: bool)
    requires enc != Gsm7
    requires Relay.Kept(2 * Ucs2.TextUnits(kept) + 2 * Ucs2.TextUnits(lost), if udh then 6 else 0) == 2 * Ucs2.TextUnits(kept)
    ensures Relay.Got(enc, kept + lost, udh) == kept
  {
    hide Ucs2.Decoded, Ucs2.Encoded, Ucs2.TextUnits, Relay.Kept;
    Ucs2.EncodedPrefix(kept, lost);
    Ucs2.RoundTrip(kept);
  }

  lemma FlattenTwo(a: string, b: string)
    ensures Flatten([a, b]) == a + b
  {
    assert [a, b][1..] == [b] && [b][1..] == [];
    assert Flatten([b]) == b;
  }

  /** Two pieces, of which `a` and `b` arrive. */
  lemma TwoArrive(s: Sent, first: string, second: string, a: string, b: string)
    requires Pieces(s) == [first, second]
    requires Relay.Got(Chosen(s), first, true) == a && Relay.Got(Chosen(s), second, true) == b
    ensures Arrived(s) == a + b
  {
    hide Chosen, Pieces, Relay.Got;
    assert Gots(Chosen(s), [first, second]) == [a, b];
    FlattenTwo(a, b);
  }

  // ---------------------------------------------------------------- texts that arrive, and texts that do not

  /** Texts that arrive unharmed: any length that takes 2 to 20 parts. */
  lemma LongTextsExist(recipient: string, n: nat)
    requires Addressable(recipient) && 160 < n <= 153 * MAX_PARTS
    ensures var s := Sent(recipient, Repeat('a', n), Auto, false, 1);
            LongSent(s) && 2 <= |Pieces(s)| <= MAX_PARTS && LengthsFit(s) && Arrived(s) == s.text
  {
    hide Sendable, Long, Addressable, Repeat, Gsm7.InAlphabet, Gsm7.InExtension, LengthsFit, Relay.Received,
         Pieces, Arrived, Chosen;
    var s := Sent(recipient, Repeat('a', n), Auto, false, 1);
    LetterA();
    LongGsm7(s);
    CountedLengthsFit(s);
    WholeText(s);
  }

  /** Texts that do not: carets take two septets each, so the first piece wraps its length octet at every
      length that takes more than one part. */
  lemma CaretsAreLost(recipient: string, n: nat)
    requires Addressable(recipient) && 160 < n <= 153 * MAX_PARTS
    ensures var s := Sent(recipient, Repeat('^', n), Auto, false, 1);
            LongSent(s) && 2 <= |Pieces(s)| <= MAX_PARTS && !LengthsFit(s) && |Arrived(s)| < |s.text|
  {
    hide Sendable, Long, Addressable, Gsm7.InAlphabet, Gsm7.InExtension, LengthsFit, Gsm7.Encoded, Relay.Received,
         Pieces, Arrived, Chosen;
    var s := Sent(recipient, Repeat('^', n), Auto, false, 1);
    Submit.Caret();
    LongGsm7(s);
    FirstPiece(s);
    RepeatConcat('^', 153, n - 153);
    assert s.text[..153] == Repeat('^', 153);
    Submit.RepeatCost('^', 153);
    Misfit(s, 0);
    WholeText(s);
  }

  lemma Misfit(s: Sent, i: nat)
    requires i < |Pieces(s)| && !Relay.LengthFits(Chosen(s), Pieces(s)[i], true)
    ensures !LengthsFit(s)
  {
  }

  /** A GSM-7 piece takes 153 characters if there are as many. */
  lemma FirstPiece(s: Sent)
    requires Chosen(s) == Gsm7 && |s.text| >= 153
    ensures |Pieces(s)| > 0 && Pieces(s)[0] == s.text[..153]
  {
    hide Greedy, Fit, Encoder.Selected;
    GreedyStep(Gsm7, s.text, 153);
    FitByCount(Gsm7, s.text, 153);
  }

  lemma CaretCost(n: nat)
    ensures |Gsm7.Encoded(Repeat('^', n))| == 2 * n
    ensures Relay.Received(Gsm7, Repeat('^', n)) == Repeat('^', n)
    ensures Encoder.CoveredByGsm7(Repeat('^', n))
  {
    hide Gsm7.Encoded, Gsm7.InAlphabet, Gsm7.InExtension, Relay.Received;
    Submit.Caret();
    Submit.RepeatCost('^', n);
    Relay.ReceivedUnchanged(Gsm7, Repeat('^', n));
  }

  /** The smallest of them: of 161 carets, sent as 153 and 8, the receiver is handed 25 and 8 as complete. */
  lemma CaretsArrived(recipient: string)
    ensures var s := Sent(recipient, Repeat('^', 161), Auto, false, 1);
            HeadersFit(s) && Arrived(s) == Repeat('^', 33)
  {
    hide Gsm7.Encoded, Encoder.CoveredByGsm7, Relay.Received, Relay.Got, Arrived, Pieces, Repeat;
    var s := Sent(recipient, Repeat('^', 161), Auto, false, 1);
    CaretCost(161); CaretCost(153); CaretCost(8); CaretCost(25); CaretCost(128); CaretCost(0);
    RepeatConcat('^', 153, 8);
    TwoPieces(s, Repeat('^', 153), Repeat('^', 8));
    RepeatConcat('^', 25, 128);
    GotKeptSeptets(Repeat('^', 25), Repeat('^', 128), true);
    RepeatConcat('^', 8, 0);
    GotKeptSeptets(Repeat('^', 8), Repeat('^', 0), true);
    TwoArrive(s, Repeat('^', 153), Repeat('^', 8), Repeat('^', 25), Repeat('^', 8));
    RepeatConcat('^', 25, 8);
  }

  /** A single PDU loses even more: of 128 carets, whose 256 septets wrap to none, nothing arrives. */
  lemma CaretsVanish(recipient: string)
    requires Addressable(recipient)
    ensures var s := Sent(recipient, Repeat('^', 128), Auto, false, 1);
            Sendable(s) && !Long(s) && Relay.Got(Chosen(s), s.text, false) == ""
  {
    hide Gsm7.Encoded, Encoder.CoveredByGsm7, Relay.Received, Relay.Got, TrimSpace, DigitsOf, TextWeight, Encoder.SinglePDU;
    CaretCost(128); CaretCost(0);
    RepeatConcat('^', 0, 128);
    GotKeptSeptets(Repeat('^', 0), Repeat('^', 128), false);
  }

  /** A length that wraps to less than the header takes the whole message with it: the first piece of 96 carets and
      57 letters has 249 septets, and 7 more are 256. */
  lemma HeaderCutOff(recipient: string)
    requires Addressable(recipient)
    ensures var s := Sent(recipient, Repeat('^', 96) + Repeat('a', 65), Auto, false, 1);
            LongSent(s) && |Pieces(s)| == 2 && !Relay.HeaderFits(Chosen(s), Pieces(s)[0])
  {
    hide Sendable, Long, Addressable, Gsm7.Encoded, Gsm7.InAlphabet, Gsm7.InExtension, Pieces, Chosen, Repeat;
    var s := Sent(recipient, Repeat('^', 96) + Repeat('a', 65), Auto, false, 1);
    Submit.Caret();
    LetterA();
    LongGsm7(s);
    RepeatConcat('a', 57, 8);
    var first := Repeat('^', 96) + Repeat('a', 57);
    assert s.text == first + Repeat('a', 8);
    TwoPieces(s, first, Repeat('a', 8));
    CaretCost(96);
    Gsm7.EncodedConcat(Repeat('^', 96), Repeat('a', 57));
    Gsm7.EncodedLength(Repeat('a', 57));
  }

  /** An explicit choice of GSM-7 is honoured for any text: 161 Cyrillic letters arrive as question marks. */
  lemma CyrillicIsLost(recipient: string)
    requires Addressable(recipient)
    ensures var s := Sent(recipient, Repeat('\U{416}', 161), Gsm7, false, 1);
            LongSent(s) && |Pieces(s)| == 2 && LengthsFit(s) && Arrived(s) == Repeat('?', 161) != s.text
  {
    hide Sendable, Long, Addressable, Gsm7.InAlphabet, Gsm7.InExtension, LengthsFit, Pieces, Arrived, Repeat;
    var s := Sent(recipient, Repeat('\U{416}', 161), Gsm7, false, 1);
    Cyrillic();
    LongGsm7(s);
    RepeatConcat('\U{416}', 153, 8);
    TwoPieces(s, Repeat('\U{416}', 153), Repeat('\U{416}', 8));
    CountedLengthsFit(s);
    WholeText(s);
    assert s.text[0] in s.text && Repeat('?', 161)[0] in Repeat('?', 161);
    assert Gsm7.Substituted(s.text) == Repeat('?', 161) by {
      forall i | 0 <= i < 161 ensures Gsm7.Substituted(s.text)[i] == Repeat('?', 161)[i] {
        assert s.text[i] in s.text && Repeat('?', 161)[i] in Repeat('?', 161);
      }
    }
  }

  lemma Cyrillic()
    ensures !Gsm7.InAlphabet('\U{416}') && !Gsm7.InExtension('\U{416}')
  {
  }

  lemma {:induction false} EmojiUnits(n: nat)
    ensures Ucs2.TextUnits(Repeat('\U{1F600}', n)) == 2 * n
  {
    if n > 0 {
      EmojiUnits(n - 1);
      assert Repeat('\U{1F600}', n)[1..] == Repeat('\U{1F600}', n - 1);
    }
  }

  /** The binary encoding counts characters where UTF-16 units are written: of 71 supplementary characters, sent as
      67 and 4, the receiver is handed 3 and 4. */
  lemma BinaryIsCut(recipient: string)
    requires Addressable(recipient)
    ensures var s := Sent(recipient, Repeat('\U{1F600}', 71), Binary, false, 1);
            && LongSent(s) && |Pieces(s)| == 2 && HeadersFit(s) && !LengthsFit(s)
            && Arrived(s) == Repeat('\U{1F600}', 7)
  {
    hide Relay.Got, Arrived, Repeat, TrimSpace, DigitsOf, TextWeight, Encoder.PartPDU, Ucs2.TextUnits, Greedy, LengthsFit;
    var c, s := '\U{1F600}', Sent(recipient, Repeat('\U{1F600}', 71), Binary, false, 1);
    EmojiUnits(67); EmojiUnits(4); EmojiUnits(3); EmojiUnits(64); EmojiUnits(0);
    RepeatConcat(c, 67, 4);
    TwoPieces(s, Repeat(c, 67), Repeat(c, 4));
    RepeatConcat(c, 3, 64);
    GotKeptUnits(Binary, Repeat(c, 3), Repeat(c, 64), true);
    RepeatConcat(c, 4, 0);
    GotKeptUnits(Binary, Repeat(c, 4), Repeat(c, 0), true);
    TwoArrive(s, Repeat(c, 67), Repeat(c, 4), Repeat(c, 3), Repeat(c, 4));
    RepeatConcat(c, 3, 4);
    Misfit(s, 0);
  }

  // ---------------------------------------------------------------- why at most twenty parts

  const MAX_PIECE := 153

  ghost predicate SmallSlot(s: Slot) {
    s != Idle ==> forall i :: i in s.e.parts ==> |s.e.parts[i]| <= MAX_PIECE
  }

  ghost predicate SmallOutput(out: Option<Assembled>) {
    out.Some? && out.value.isComplete ==> |out.value.text| <= 10 + MAX_PIECE * MAX_PARTS
  }

  lemma {:induction false} JoinSmall(parts: map<int, string>, n: nat)
    requires forall i :: i in parts ==> |parts[i]| <= MAX_PIECE
    ensures |Join(parts, n)| <= MAX_PIECE * n
  {
    if n > 0 { JoinSmall(parts, n - 1); }
  }

  lemma SmallStep(cfg: Config, k: string, s: Slot, ev: Event)
    requires GoodSlot(s) && SmallSlot(s)
    requires Own(k, ev) ==> |ev.part.text| <= MAX_PIECE
    ensures SmallSlot(SlotStep(cfg, k, s, ev).0)
    ensures Own(k, ev) ==> SmallOutput(SlotStep(cfg, k, s, ev).1)
  {
    hide Key, Summary, Available, Join;
    if Own(k, ev) {
      var aged := Aged(cfg, ev.now, s);
      var e := WithPart(if aged == Idle then Fresh(ev.now, ev.part) else aged.e, ev.part);
      assert forall i :: i in e.parts ==> |e.parts[i]| <= MAX_PIECE;
      JoinSmall(e.parts, e.totalParts);
    }
  }

  lemma {:induction false} SmallRun(cfg: Config, st: State, s: Sent, from: string, evs: seq<Event>)
    requires LongSent(s) && Inv(st) && View(st, Key(from, s.ref)) == Idle
    requires OnlyArrivals(s, from, evs)
    ensures SmallSlot(View(Run(cfg, st, evs), Key(from, s.ref)))
  {
    hide Sendable, Encoder.Multipart, Relay.HeaderFits, Chosen, Pieces, Arrives, Key, View, Step, SlotStep, SmallSlot;
    if evs == [] {
      SmallIdle();
    } else {
      var n := |evs| - 1;
      SmallRun(cfg, st, s, from, evs[..n]);
      var st' := Run(cfg, st, evs[..n]);
      Projection(cfg, st', evs[n], Key(from, s.ref));
      if Own(Key(from, s.ref), evs[n]) {
        KeyedPart(s, from, evs[n].part);
      }
      SmallStep(cfg, Key(from, s.ref), View(st', Key(from, s.ref)), evs[n]);
    }
  }

  lemma SmallIdle()
    ensures SmallSlot(Idle)
  {
  }

  /** A text of more than twenty parts is never put together again: the assembler drops its parts or, when
      the part count wrapped in its octet, can only complete something shorter than the text. */
  lemma TooManyParts(cfg: Config, st: State, s: Sent, from: string, evs: seq<Event>, i: nat)
    requires LongSent(s) && |Pieces(s)| > MAX_PARTS
    requires Inv(st) && View(st, Key(from, s.ref)) == Idle
    requires OnlyArrivals(s, from, evs)
    requires i < |evs| && evs[i].Add? && KeyOf(evs[i].part) == Key(from, s.ref)
    ensures var out := Output(cfg, st, evs, i);
            && (|Pieces(s)| <= 255 ==> out == None)
            && (out.Some? && out.value.isComplete ==> |out.value.text| < |s.text|)
  {
    hide Sendable, Encoder.Multipart, Relay.HeaderFits, Chosen, Arrives, Key, View, SlotStep, SmallSlot, Pieces, Run, AddPartSpec;
    var k := Key(from, s.ref);
    var st' := Run(cfg, st, evs[..i]);
    SmallRun(cfg, st, s, from, evs[..i]);
    KeyedPart(s, from, evs[i].part);
    if |Pieces(s)| <= 255 {
      DroppedPart(cfg, st', evs[i].now, evs[i].part);
    } else {
      LongText(s);
      if Stored(evs[i].part) {
        Projection(cfg, st', evs[i], k);
        SmallStep(cfg, k, View(st', k), evs[i]);
      } else {
        DroppedPart(cfg, st', evs[i].now, evs[i].part);
      }
    }
  }

  /** Such texts: every length above 3060, such as 3061 letters. */
  lemma TooLongTextsExist(recipient: string, n: nat)
    requires Addressable(recipient) && n > 153 * MAX_PARTS
    ensures var s := Sent(recipient, Repeat('a', n), Auto, false, 1);
            LongSent(s) && |Pieces(s)| > MAX_PARTS && LengthsFit(s)
  {
    hide Sendable, Long, Addressable, Repeat, Gsm7.InAlphabet, Gsm7.InExtension, LengthsFit, Pieces, Chosen;
    var s := Sent(recipient, Repeat('a', n), Auto, false, 1);
    LetterA();
    LongGsm7(s);
    CountedLengthsFit(s);
  }

  lemma LongText(s: Sent)
    requires LongSent(s) && |Pieces(s)| >= 256
    ensures |s.text| >= 33 * 255
  {
    hide Greedy, TextWeight, Encoder.EncodedSMS;
    GreedyNothing(Chosen(s), Encoder.MaxMultipart(Chosen(s)));
    assert s.text != [];
    ManyPieces(Chosen(s), s.text, Encoder.MaxMultipart(Chosen(s)));
    WeightAtMostDouble(Chosen(s), s.text);
  }
}
