/**
  From on/off durations to text: element and gap classification, the batch
  decoder, and the view a receiver has of a keyed signal.
*/
module Keying {
  import opened Wrappers
  import opened Text
  import opened MorseCode

  datatype Kind = OnDit | OnDah | OffIntra | OffChar | OffWord {
    predicate IsOn() { OnDit? || OnDah? }
  }

  const UNKNOWN_BATCH: char := '*'
  const UNKNOWN_APPEND: char := '?'

  /** Elements split at 2 dots; gaps at 2 and at 5. */
  function Classify(isOn: bool, duration: real, dot: real): Kind {
    if isOn then
      if duration >= 2.0 * dot then OnDah else OnDit
    else if duration >= 5.0 * dot then OffWord
    else if duration >= 2.0 * dot then OffChar
    else OffIntra
  }

  // ---------------------------------------------------------------------
  // The meaning of a sequence of kinds
  // ---------------------------------------------------------------------

  /** Text copied so far, and the elements of the character not yet ended. */
  datatype Copy = Copy(text: string, pending: string)

  const BLANK: Copy := Copy("", "")

  /** How a decoder reads a finished code; the two differ in the mark for an unknown one. */
  type Reader = string -> char

  function BatchChar(code: string): char {
    match MorseToChar(code)
    case Some(c) => c
    case None => UNKNOWN_BATCH
  }

  function AppendChar(code: string): char {
    match MorseToChar(code)
    case Some(c) => c
    case None => UNKNOWN_APPEND
  }

  function Flush(c: Copy, read: Reader): Copy {
    if c.pending == "" then c else Copy(c.text + [read(c.pending)], "")
  }

  function WordSpace(c: Copy): Copy {
    if c.text == "" || EndsWithSpace(c.text) then c else c.(text := c.text + " ")
  }

  function Step(c: Copy, k: Kind, read: Reader): Copy {
    match k
    case OnDit => c.(pending := c.pending + ".")
    case OnDah => c.(pending := c.pending + "-")
    case OffIntra => c
    case OffChar => Flush(c, read)
    case OffWord => WordSpace(Flush(c, read))
  }

  /** One left-to-right pass over the kinds. */
  function Play(kinds: seq<Kind>, read: Reader): Copy {
    if kinds == [] then BLANK else Step(Play(kinds[..|kinds| - 1], read), kinds[|kinds| - 1], read)
  }

  lemma PlayAppend(kinds: seq<Kind>, k: Kind, read: Reader)
    ensures Play(kinds + [k], read) == Step(Play(kinds, read), k, read)
  {
    assert (kinds + [k])[..|kinds|] == kinds;
  }

  /** The text once the pass has ended: last character flushed, trailing space dropped. */
  function Copied(kinds: seq<Kind>, read: Reader): string {
    TrimEnd(Flush(Play(kinds, read), read).text)
  }

  // ---------------------------------------------------------------------
  // The batch decoder
  // ---------------------------------------------------------------------

  /** The kinds of the first n elements, each with the gap that follows it, if there is one. */
  function Interleave(ons: seq<real>, offs: seq<real>, dot: real, n: nat): seq<Kind>
    requires n <= |ons|
  {
    if n == 0 then []
    else
      Interleave(ons, offs, dot, n - 1) + [Classify(true, ons[n - 1], dot)]
        + if n - 1 < |offs| then [Classify(false, offs[n - 1], dot)] else []
  }

  /** An element, and the gap after it if there is one. */
  lemma InterleaveNext(ons: seq<real>, offs: seq<real>, dot: real, i: nat, read: Reader)
    requires i < |ons|
    ensures var c := Step(Play(Interleave(ons, offs, dot, i), read), Classify(true, ons[i], dot), read);
            var next := if i < |offs| then Step(c, Classify(false, offs[i], dot), read) else c;
            Play(Interleave(ons, offs, dot, i + 1), read) == next
  {
    var before, on := Interleave(ons, offs, dot, i), Classify(true, ons[i], dot);
    PlayAppend(before, on, read);
    if i < |offs| {
      PlayAppend(before + [on], Classify(false, offs[i], dot), read);
    } else {
      assert before + [on] + [] == before + [on];
    }
  }

  /** An element of two dots is a dah, a gap of two dots ends the character, and one of five the word. */
  lemma TwoElements(on: real, gap: real, next: real, dot: real, read: Reader)
    ensures var x, y := if on >= 2.0 * dot then "-" else ".", if next >= 2.0 * dot then "-" else ".";
            Play(Interleave([on, next], [gap], dot, 2), read)
              == if gap >= 5.0 * dot then Copy(SpaceAfter(read(x)), y)
                 else if gap >= 2.0 * dot then Copy([read(x)], y)
                 else Copy("", x + y)
  {
    var ons, offs := [on, next], [gap];
    var first, second := Classify(true, on, dot), Classify(true, next, dot);
    assert Interleave(ons, offs, dot, 0) == [];
    InterleaveNext(ons, offs, dot, 0, read);
    InterleaveNext(ons, offs, dot, 1, read);
    FirstCode(first, Classify(false, gap, dot), second, read);
  }

  function SpaceAfter(c: char): string { if c == ' ' then [c] else [c, ' '] }

  lemma FirstCode(first: Kind, gap: Kind, second: Kind, read: Reader)
    requires first.IsOn() && !gap.IsOn() && second.IsOn()
    ensures var x, y := if first.OnDah? then "-" else ".", if second.OnDah? then "-" else ".";
            Step(Step(Step(BLANK, first, read), gap, read), second, read)
              == match gap
                 case OffWord => Copy(SpaceAfter(read(x)), y)
                 case OffChar => Copy([read(x)], y)
                 case _ => Copy("", x + y)
  {
    assert "" + "." == "." && "" + "-" == "-";
    var x := if first.OnDah? then "-" else ".";
    assert "" + [read(x)] == [read(x)] && [read(x)] + " " == [read(x), ' '];
  }

  method DecodeEvents(ons: seq<real>, offs: seq<real>, dot: real) returns (text: string)
    ensures text == Copied(Interleave(ons, offs, dot, |ons|), BatchChar)
  {
    var elemSplit := 2.0 * dot;
    var charGap, wordGap := 2.0 * dot, 5.0 * dot;
    var out, current := "", "";
    for i := 0 to |ons|
      invariant Copy(out, current) == Play(Interleave(ons, offs, dot, i), BatchChar)
    {
      InterleaveNext(ons, offs, dot, i, BatchChar);
      current := current + if ons[i] >= elemSplit then "-" else ".";
      if i < |offs| {
        var gap := offs[i];
        if gap >= wordGap {
          out, current := FlushInto(current, out);
          if !EndsWithSpace(out) {
            out := out + " ";
          }
        } else if gap >= charGap {
          out, current := FlushInto(current, out);
        }
      }
    }
    out, current := FlushInto(current, out);
    text := TrimEnd(out);
  }

  method FlushInto(buf: string, out: string) returns (out': string, buf': string)
    ensures Copy(out', buf') == Flush(Copy(out, buf), BatchChar)
    ensures buf != "" ==> |out'| > 0
  {
    if buf == "" {
      return out, buf;
    }
    match MorseToChar(buf) {
      case Some(c) => out' := out + [c];
      case None => out' := out + "*";
    }
    buf' := "";
  }

  // ---------------------------------------------------------------------
  // The two marks for an unknown code
  // ---------------------------------------------------------------------

  function Remark(text: string): string {
    seq(|text|, i requires 0 <= i < |text| => if text[i] == UNKNOWN_BATCH then UNKNOWN_APPEND else text[i])
  }

  /** Decoding with '?' for unknown codes is decoding with '*' and then replacing the mark. */
  lemma {:induction false} PlayRemarked(kinds: seq<Kind>)
    ensures Play(kinds, AppendChar).text == Remark(Play(kinds, BatchChar).text)
    ensures Play(kinds, AppendChar).pending == Play(kinds, BatchChar).pending
  {
    if kinds != [] {
      PlayRemarked(kinds[..|kinds| - 1]);
      FlushRemarked(Play(kinds[..|kinds| - 1], AppendChar), Play(kinds[..|kinds| - 1], BatchChar));
    }
  }

  lemma FlushRemarked(q: Copy, s: Copy)
    requires q.text == Remark(s.text) && q.pending == s.pending
    ensures Flush(q, AppendChar).text == Remark(Flush(s, BatchChar).text)
    ensures EndsWithSpace(q.text) == EndsWithSpace(s.text)
    ensures EndsWithSpace(Flush(q, AppendChar).text) == EndsWithSpace(Flush(s, BatchChar).text)
    ensures Remark(Flush(s, BatchChar).text + " ") == Remark(Flush(s, BatchChar).text) + " "
  {
    if MorseToChar(s.pending).Some? {
      DecodedIsPrintable(s.pending);
    }
  }

  lemma {:induction false} TrimRemarked(text: string)
    ensures TrimEnd(Remark(text)) == Remark(TrimEnd(text))
  {
    if text != [] && IsWhitespace(text[|text| - 1]) {
      TrimRemarked(text[..|text| - 1]);
      assert Remark(text)[..|text| - 1] == Remark(text[..|text| - 1]);
    }
  }

  lemma CopiedRemarked(kinds: seq<Kind>)
    ensures Copied(kinds, AppendChar) == Remark(Copied(kinds, BatchChar))
  {
    PlayRemarked(kinds);
    FlushRemarked(Play(kinds, AppendChar), Play(kinds, BatchChar));
    TrimRemarked(Flush(Play(kinds, BatchChar), BatchChar).text);
  }

  // ---------------------------------------------------------------------
  // What a receiver hears of a keyed signal
  // ---------------------------------------------------------------------

  /** One stretch of a keyed signal, as the encoder meant it, with the length it really has. */
  datatype Keyed = Keyed(kind: Kind, duration: real)

  /** On lengths, gaps between them, and the silence since the last of them. */
  datatype Heard = Heard(ons: seq<real>, offs: seq<real>, gap: real)

  /** Silence before the first element is not a gap; adjacent silences are one gap, adjacent sounds one element. */
  function Hear(h: Heard, k: Keyed): Heard {
    if !k.kind.IsOn() then h.(gap := h.gap + k.duration)
    else if h.ons == [] then Heard([k.duration], [], 0.0)
    else if h.gap == 0.0 then h.(ons := h.ons[|h.ons| - 1 := h.ons[|h.ons| - 1] + k.duration])
    else Heard(h.ons + [k.duration], h.offs + [h.gap], 0.0)
  }

  function Listen(keyed: seq<Keyed>): (h: Heard)
    ensures |h.ons| == if h.ons == [] then |h.offs| else |h.offs| + 1
  {
    if keyed == [] then Heard([], [], 0.0) else Hear(Listen(keyed[..|keyed| - 1]), keyed[|keyed| - 1])
  }

  function Kinds(keyed: seq<Keyed>): seq<Kind> {
    seq(|keyed|, i requires 0 <= i < |keyed| => keyed[i].kind)
  }

  /** Every stretch has a length the decoder classifies as what it was meant to be. */
  ghost predicate RightlyTimed(keyed: seq<Keyed>, dot: real) {
    forall i :: 0 <= i < |keyed| ==>
      keyed[i].duration > 0.0 && Classify(keyed[i].kind.IsOn(), keyed[i].duration, dot) == keyed[i].kind
  }

  /** No two elements run together, and of two adjacent silences one is a word gap. */
  ghost predicate WellKeyed(kinds: seq<Kind>) {
    forall i :: 0 <= i < |kinds| - 1 ==> Adjacent(kinds[i], kinds[i + 1])
  }

  predicate Adjacent(k: Kind, next: Kind) {
    if k.IsOn() then !next.IsOn() else next.IsOn() || k.OffWord? || next.OffWord?
  }

  /** The pass over what was heard, the silence still open taken as a gap. */
  ghost function View(h: Heard, dot: real, read: Reader): Copy {
    var c := Play(Interleave(h.ons, h.offs, dot, |h.ons|), read);
    if h.ons == [] || h.gap == 0.0 then c else Step(c, Classify(false, h.gap, dot), read)
  }

  lemma {:induction false} InterleaveExtend(ons: seq<real>, offs: seq<real>, on: real, gap: real, dot: real, n: nat)
    requires n <= |ons| == |offs| + 1
    ensures Interleave(ons + [on], offs + [gap], dot, n)
         == Interleave(ons, offs, dot, n) + if n == |ons| then [Classify(false, gap, dot)] else []
    decreases n
  {
    if n > 0 {
      InterleaveExtend(ons, offs, on, gap, dot, n - 1);
    }
  }

  lemma {:induction false} ListenIsPlay(keyed: seq<Keyed>, dot: real, read: Reader)
    requires dot > 0.0 && RightlyTimed(keyed, dot) && WellKeyed(Kinds(keyed))
    ensures View(Listen(keyed), dot, read) == Play(Kinds(keyed), read)
    ensures keyed != [] ==> (Listen(keyed).gap == 0.0 <==> keyed[|keyed| - 1].kind.IsOn())
    ensures Listen(keyed).gap >= 0.0
    ensures keyed != [] && keyed[|keyed| - 1].kind.OffWord? ==> Listen(keyed).gap >= 5.0 * dot
    decreases |keyed|
  {
    if keyed != [] {
      var init, k := keyed[..|keyed| - 1], keyed[|keyed| - 1];
      forall i | 0 <= i < |init| - 1 ensures Adjacent(Kinds(init)[i], Kinds(init)[i + 1]) {
        assert Adjacent(Kinds(keyed)[i], Kinds(keyed)[i + 1]);
      }
      ListenIsPlay(init, dot, read);
      assert Kinds(keyed)[..|init|] == Kinds(init);
      if init != [] {
        assert Adjacent(Kinds(keyed)[|init| - 1], Kinds(keyed)[|init|]);
      }
      ListenStep(Listen(init), if init == [] then None else Some(init[|init| - 1].kind), k, dot, read);
    }
  }

  /** A gap after a gap: the stronger of the two decides, and a word gap is strongest. */
  lemma GapAfterGap(c: Copy, g: Kind, k: Kind, read: Reader)
    requires !g.IsOn() && !k.IsOn()
    ensures g.OffWord? || k.OffWord? ==> Step(Step(c, g, read), k, read) == Step(c, OffWord, read)
    ensures Step(BLANK, g, read) == BLANK
  {
  }

  lemma ListenGap(h: Heard, k: Keyed, dot: real, read: Reader)
    requires dot > 0.0 && !k.kind.IsOn() && k.duration > 0.0 && h.gap >= 0.0
    requires Classify(false, k.duration, dot) == k.kind
    requires h.gap == 0.0 || h.gap >= 5.0 * dot || k.kind.OffWord?
    ensures View(h.(gap := h.gap + k.duration), dot, read) == Step(View(h, dot, read), k.kind, read)
  {
    var c := Play(Interleave(h.ons, h.offs, dot, |h.ons|), read);
    GapAfterGap(c, Classify(false, h.gap, dot), k.kind, read);
  }

  lemma ListenFirst(h: Heard, k: Keyed, dot: real, read: Reader)
    requires k.kind.IsOn() && Classify(true, k.duration, dot) == k.kind && h.ons == []
    ensures View(Hear(h, k), dot, read) == Step(View(h, dot, read), k.kind, read)
  {
    assert Interleave([k.duration], [], dot, 1) == [k.kind];
    PlayAppend([], k.kind, read);
    assert [] + [k.kind] == [k.kind];
  }

  lemma ListenNext(h: Heard, k: Keyed, dot: real, read: Reader)
    requires k.kind.IsOn() && Classify(true, k.duration, dot) == k.kind
    requires h.ons != [] && h.gap > 0.0 && |h.ons| == |h.offs| + 1
    ensures View(Hear(h, k), dot, read) == Step(View(h, dot, read), k.kind, read)
  {
    var before := Interleave(h.ons, h.offs, dot, |h.ons|);
    var gap := Classify(false, h.gap, dot);
    InterleaveExtend(h.ons, h.offs, k.duration, h.gap, dot, |h.ons|);
    PlayAppend(before, gap, read);
    PlayAppend(before + [gap], k.kind, read);
    assert before + [gap] + [k.kind] + [] == before + [gap] + [k.kind];
  }

  lemma ListenStep(h: Heard, last: Option<Kind>, k: Keyed, dot: real, read: Reader)
    requires dot > 0.0 && k.duration > 0.0 && Classify(k.kind.IsOn(), k.duration, dot) == k.kind
    requires h.gap >= 0.0 && |h.ons| == if h.ons == [] then |h.offs| else |h.offs| + 1
    requires last.None? ==> h == Heard([], [], 0.0)
    requires last.Some? ==> (h.gap == 0.0 <==> last.value.IsOn()) && Adjacent(last.value, k.kind)
    requires last.Some? && last.value.OffWord? ==> h.gap >= 5.0 * dot
    ensures View(Hear(h, k), dot, read) == Step(View(h, dot, read), k.kind, read)
  {
    if !k.kind.IsOn() {
      ListenGap(h, k, dot, read);
    } else if h.ons == [] {
      ListenFirst(h, k, dot, read);
    } else {
      ListenNext(h, k, dot, read);
    }
  }

  lemma TrimSpace(text: string)
    ensures TrimEnd(text + " ") == TrimEnd(text)
  {
    assert (text + " ")[..|text|] == text;
  }

  /** Silence at the end changes nothing in the finished text. */
  lemma TrailingGap(c: Copy, g: Kind, read: Reader)
    requires !g.IsOn()
    ensures TrimEnd(Flush(Step(c, g, read), read).text) == TrimEnd(Flush(c, read).text)
  {
    TrimSpace(Flush(c, read).text);
  }

  /** What the batch decoder makes of a rightly timed signal is the pass over the kinds meant. */
  lemma DecodeRightlyTimed(keyed: seq<Keyed>, dot: real)
    requires dot > 0.0 && RightlyTimed(keyed, dot) && WellKeyed(Kinds(keyed))
    ensures var h := Listen(keyed);
            Copied(Interleave(h.ons, h.offs, dot, |h.ons|), BatchChar) == Copied(Kinds(keyed), BatchChar)
  {
    ListenIsPlay(keyed, dot, BatchChar);
    var h := Listen(keyed);
    TrailingGap(Play(Interleave(h.ons, h.offs, dot, |h.ons|), BatchChar), Classify(false, h.gap, dot), BatchChar);
  }
}
