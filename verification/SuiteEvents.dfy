/**
  The adversarial-suite generator's sample-accurate Morse encoder with Farnsworth
  gaps, and exactly when the batch decoder gives its text back.
*/
module SuiteEvents {
  import opened Arithmetic
  import opened Wrappers
  import opened Text
  import opened MorseCode
  import opened Keying
  import opened Encoding

  // ---------------------------------------------------------------------
  // Lengths in samples
  // ---------------------------------------------------------------------

  /** Python's round: to the nearest integer, ties to the even one. */
  function Round(x: real): int {
    var f := x.Floor;
    var rest := x - f as real;
    if rest < 0.5 || (rest == 0.5 && f % 2 == 0) then f else f + 1
  }

  function Samples(x: real): nat {
    if Round(x) < 1 then 1 else Round(x)
  }

  lemma SamplesNear(x: real)
    ensures Samples(x) >= 1 && x - 0.5 <= Samples(x) as real
    ensures Samples(x) == 1 || Samples(x) as real <= x + 0.5
  {
  }

  /** n is the whole number nearest to x, ties to the even one, and at least 1. */
  ghost predicate IsRounded(n: nat, x: real) {
    && n >= 1 && x <= n as real + 0.5 && (n as real <= x + 0.5 || n == 1)
    && (x == n as real + 0.5 ==> n % 2 == 0) && (n as real == x + 0.5 ==> n % 2 == 0 || n == 1)
  }

  lemma SamplesExactly(x: real, n: nat)
    ensures n == Samples(x) <==> IsRounded(n, x)
  {
  }

  datatype Timing = Timing(dot: nat, dah: nat, elementGap: nat, letterGap: nat, wordGap: nat) {
    function Length(kind: Kind): nat {
      match kind
      case OnDit => dot
      case OnDah => dah
      case OffIntra => elementGap
      case OffChar => letterGap
      case OffWord => wordGap
    }
  }

  /** Samples in a dot of the given speed, before rounding. */
  function DotSamples(wpm: real, sampleRate: nat): real
    requires wpm > 0.0
  {
    1.2 / wpm * sampleRate as real
  }

  /** The dot that sets letter and word gaps: the Farnsworth one when it is the slower. */
  function GapDot(elementWpm: real, farnsworthWpm: Option<real>, sampleRate: nat): real
    requires elementWpm > 0.0 && (farnsworthWpm.Some? ==> farnsworthWpm.value > 0.0)
  {
    if farnsworthWpm.None? || farnsworthWpm.value >= elementWpm then DotSamples(elementWpm, sampleRate)
    else DotSamples(farnsworthWpm.value, sampleRate)
  }

  function TimingFor(d: real, g: real): Timing {
    Timing(Samples(d), Samples(3.0 * d), Samples(d), Samples(3.0 * g), Samples(7.0 * g))
  }

  // ---------------------------------------------------------------------
  // What is keyed
  // ---------------------------------------------------------------------

  datatype ElementEvent = ElementEvent(kind: Kind, start: int, length: nat)

  /** A word's characters, or the first of them if more follow: a letter gap after every one but the last of all. */
  function WordKinds(word: string, table: Encoder, more: bool): seq<Kind> {
    if word == [] then []
    else
      var before, code := WordKinds(word[..|word| - 1], table, true), table(word[|word| - 1]);
      if code.None? then before else before + (CharKinds(code.value) + if more then [OffChar] else [])
  }

  /** The words, or the first of them if more follow: a word gap after every one but the last of all, sent or not. */
  function TextKinds(words: seq<string>, table: Encoder, more: bool): seq<Kind> {
    if words == [] then []
    else
      TextKinds(words[..|words| - 1], table, true)
        + (WordKinds(words[|words| - 1], table, false) + if more then [OffWord] else [])
  }

  /** Events of these kinds, each with its kind's length, laid end to end from the start sample. */
  ghost predicate LaidOut(events: seq<ElementEvent>, kinds: seq<Kind>, timing: Timing, start: int, end: int) {
    && |events| == |kinds|
    && (forall i :: 0 <= i < |kinds| ==> events[i].kind == kinds[i] && events[i].length == timing.Length(kinds[i]))
    && (forall i :: 0 <= i < |events| - 1 ==> events[i + 1].start == events[i].start + events[i].length)
    && (events != [] ==> events[0].start == start)
    && end == EndOf(events, start)
  }

  /** Where the last event ends. */
  function EndOf(events: seq<ElementEvent>, start: int): int {
    if events == [] then start else events[|events| - 1].start + events[|events| - 1].length
  }

  method Emit(kind: Kind, timing: Timing, events0: seq<ElementEvent>, cur0: int,
              ghost kinds: seq<Kind>, ghost start: int) returns (events: seq<ElementEvent>, cur: int)
    requires LaidOut(events0, kinds, timing, start, cur0)
    ensures LaidOut(events, kinds + [kind], timing, start, cur)
  {
    var n := timing.Length(kind);
    events, cur := events0 + [ElementEvent(kind, cur0, n)], cur0 + n;
  }

  method EmitChar(code: string, timing: Timing, events0: seq<ElementEvent>, cur0: int,
                  ghost kinds: seq<Kind>, ghost start: int) returns (events: seq<ElementEvent>, cur: int)
    requires LaidOut(events0, kinds, timing, start, cur0)
    ensures LaidOut(events, kinds + CharKinds(code), timing, start, cur)
  {
    events, cur := events0, cur0;
    assert kinds + [] == kinds;
    for i := 0 to |code|
      invariant LaidOut(events, kinds + Elements(code[..i], i < |code|), timing, start, cur)
    {
      ElementsJoin(kinds, code, i);
      events, cur := EmitElement(code[i], i < |code| - 1, timing, events, cur, kinds + Elements(code[..i], true), start);
    }
    assert code[..|code|] == code;
    assert kinds + Elements(code, false) == kinds + CharKinds(code);
  }

  /** The elements of a code, and the gap after them when more follow. */
  ghost function Elements(code: string, more: bool): seq<Kind> {
    CharKinds(code) + if more && code != [] then [OffIntra] else []
  }

  lemma ElementsNext(init: string, e: char, more: bool)
    ensures Elements(init + [e], more) == Elements(init, true) + ([OnKind(e)] + if more then [OffIntra] else [])
  {
    CharKindsNext(init, e);
    Regroup(CharKinds(init), if init == [] then [] else [OffIntra], OnKind(e), if more then [OffIntra] else []);
  }

  lemma ElementsJoin(kinds: seq<Kind>, code: string, i: nat)
    requires i < |code|
    ensures kinds + Elements(code[..i], true) + ([OnKind(code[i])] + if i < |code| - 1 then [OffIntra] else [])
         == kinds + Elements(code[..i + 1], i + 1 < |code|)
  {
    assert code[..i + 1] == code[..i] + [code[i]];
    ElementsNext(code[..i], code[i], i + 1 < |code|);
    var sent, element := Elements(code[..i], true), [OnKind(code[i])] + if i < |code| - 1 then [OffIntra] else [];
    assert kinds + sent + element == kinds + (sent + element);
  }

  lemma Regroup(sent: seq<Kind>, gap: seq<Kind>, k: Kind, next: seq<Kind>)
    ensures sent + gap + [k] + next == sent + gap + ([k] + next)
  {
  }

  method EmitElement(element: char, gap: bool, timing: Timing, events0: seq<ElementEvent>, cur0: int,
                     ghost kinds: seq<Kind>, ghost start: int) returns (events: seq<ElementEvent>, cur: int)
    requires LaidOut(events0, kinds, timing, start, cur0)
    ensures LaidOut(events, kinds + ([OnKind(element)] + if gap then [OffIntra] else []), timing, start, cur)
  {
    events, cur := Emit(OnKind(element), timing, events0, cur0, kinds, start);
    assert [OnKind(element)] + [] == [OnKind(element)];
    if gap {
      events, cur := Emit(OffIntra, timing, events, cur, kinds + [OnKind(element)], start);
      assert kinds + [OnKind(element)] + [OffIntra] == kinds + ([OnKind(element)] + [OffIntra]);
    }
  }

  method EmitWord(word: string, table: Encoder, timing: Timing, events0: seq<ElementEvent>, cur0: int,
                  ghost kinds: seq<Kind>, ghost start: int) returns (events: seq<ElementEvent>, cur: int)
    requires LaidOut(events0, kinds, timing, start, cur0)
    ensures LaidOut(events, kinds + WordKinds(word, table, false), timing, start, cur)
  {
    events, cur := events0, cur0;
    assert kinds + [] == kinds;
    for i := 0 to |word|
      invariant LaidOut(events, kinds + WordKinds(word[..i], table, i < |word|), timing, start, cur)
    {
      WordJoin(kinds, word, table, i);
      var code := table(word[i]);
      if code.Some? {
        events, cur := EmitLetter(code.value, i < |word| - 1, timing, events, cur,
                                  kinds + WordKinds(word[..i], table, true), start);
      }
    }
    assert word[..|word|] == word;
  }

  /** One more character of a word, and the letter gap after it unless it is the last. */
  lemma WordJoin(kinds: seq<Kind>, word: string, table: Encoder, i: nat)
    requires i < |word|
    ensures var sent, code := WordKinds(word[..i], table, true), table(word[i]);
            kinds + WordKinds(word[..i + 1], table, i + 1 < |word|)
            == if code.None? then kinds + sent
               else kinds + sent + (CharKinds(code.value) + if i < |word| - 1 then [OffChar] else [])
  {
    var sent, code := WordKinds(word[..i], table, true), table(word[i]);
    assert word[..i + 1][..i] == word[..i];
    if code.Some? {
      var letter := CharKinds(code.value) + if i < |word| - 1 then [OffChar] else [];
      assert kinds + sent + letter == kinds + (sent + letter);
    }
  }

  method EmitLetter(code: string, gap: bool, timing: Timing, events0: seq<ElementEvent>, cur0: int,
                    ghost kinds: seq<Kind>, ghost start: int) returns (events: seq<ElementEvent>, cur: int)
    requires LaidOut(events0, kinds, timing, start, cur0)
    ensures LaidOut(events, kinds + (CharKinds(code) + if gap then [OffChar] else []), timing, start, cur)
  {
    events, cur := EmitChar(code, timing, events0, cur0, kinds, start);
    assert CharKinds(code) + [] == CharKinds(code);
    if gap {
      events, cur := Emit(OffChar, timing, events, cur, kinds + CharKinds(code), start);
      assert kinds + CharKinds(code) + [OffChar] == kinds + (CharKinds(code) + [OffChar]);
    }
  }

  method EmitText(words: seq<string>, table: Encoder, timing: Timing, start: int)
    returns (events: seq<ElementEvent>)
    ensures LaidOut(events, TextKinds(words, table, false), timing, start, EndOf(events, start))
  {
    var cur := start;
    events := [];
    for i := 0 to |words|
      invariant LaidOut(events, TextKinds(words[..i], table, i < |words|), timing, start, cur)
    {
      assert words[..i + 1][..i] == words[..i];
      ghost var kinds, w := TextKinds(words[..i], table, true), WordKinds(words[i], table, false);
      events, cur := EmitWord(words[i], table, timing, events, cur, kinds, start);
      assert kinds + (w + []) == kinds + w && kinds + w + [OffWord] == kinds + (w + [OffWord]);
      if i < |words| - 1 {
        events, cur := Emit(OffWord, timing, events, cur, kinds + w, start);
      }
    }
    assert words[..|words|] == words;
  }

  /** The generator's entry point, on the upper-cased text split into words. */
  method TextToEvents(words: seq<string>, sampleRate: nat, elementWpm: real, farnsworthWpm: Option<real>, start: int)
    returns (events: seq<ElementEvent>)
    requires elementWpm > 0.0 && (farnsworthWpm.Some? ==> farnsworthWpm.value > 0.0)
    ensures LaidOut(events, SuiteKinds(words), SuiteTiming(sampleRate, elementWpm, farnsworthWpm), start, EndOf(events, start))
  {
    events := EmitText(words, SuiteMorse, SuiteTiming(sampleRate, elementWpm, farnsworthWpm), start);
  }

  function SuiteTiming(sampleRate: nat, elementWpm: real, farnsworthWpm: Option<real>): Timing
    requires elementWpm > 0.0 && (farnsworthWpm.Some? ==> farnsworthWpm.value > 0.0)
  {
    TimingFor(DotSamples(elementWpm, sampleRate), GapDot(elementWpm, farnsworthWpm, sampleRate))
  }

  /**
    The lengths: one dot, three, one for the gap between elements, at 1.2 seconds by the
    element speed; three and seven for letter and word gaps at the slower of the speeds;
    each rounded to samples.
  */
  lemma TimingExactly(sampleRate: nat, elementWpm: real, farnsworthWpm: Option<real>, slower: real, d: real, g: real)
    requires elementWpm > 0.0 && (farnsworthWpm.Some? ==> farnsworthWpm.value > 0.0)
    requires slower == if farnsworthWpm.Some? && farnsworthWpm.value < elementWpm then farnsworthWpm.value else elementWpm
    requires d == 1.2 / elementWpm * sampleRate as real && g == 1.2 / slower * sampleRate as real
    ensures var t := SuiteTiming(sampleRate, elementWpm, farnsworthWpm);
            && IsRounded(t.dot, d) && IsRounded(t.dah, 3.0 * d) && IsRounded(t.elementGap, d)
            && IsRounded(t.letterGap, 3.0 * g) && IsRounded(t.wordGap, 7.0 * g)
  {
    assert d == DotSamples(elementWpm, sampleRate) && g == GapDot(elementWpm, farnsworthWpm, sampleRate);
    TimingOf(d, g);
  }

  lemma TimingOf(d: real, g: real)
    ensures var t := TimingFor(d, g);
            && IsRounded(t.dot, d) && IsRounded(t.dah, 3.0 * d) && IsRounded(t.elementGap, d)
            && IsRounded(t.letterGap, 3.0 * g) && IsRounded(t.wordGap, 7.0 * g)
  {
    SamplesExactly(d, Samples(d));
    SamplesExactly(3.0 * d, Samples(3.0 * d));
    SamplesExactly(3.0 * g, Samples(3.0 * g));
    SamplesExactly(7.0 * g, Samples(7.0 * g));
  }

  ghost function SuiteKinds(words: seq<string>): seq<Kind> { TextKinds(words, SuiteMorse, false) }

  // ---------------------------------------------------------------------
  // One pass over it copies the words joined
  // ---------------------------------------------------------------------

  /** One more character of a word, and the letter gap after it unless it is the last. */
  lemma PlayNextChar(kinds: seq<Kind>, sent: seq<Kind>, text: string, shown: string, c: char, table: Encoder, gap: bool)
    requires Sends(table) && table(c).Some? && Play(kinds + sent, BatchChar) == Copy(text + shown, "")
    ensures var next := Play(kinds + (sent + (CharKinds(table(c).value) + if gap then [OffChar] else [])), BatchChar);
            Reads(next, text + (shown + [ToAsciiUppercase(c)]), BatchChar) && (gap ==> next.pending == "")
  {
    PlaySentChar(kinds + sent, c, table);
    assert text + shown + [ToAsciiUppercase(c)] == text + (shown + [ToAsciiUppercase(c)]);
    PlayLetterGap(kinds, sent, CharKinds(table(c).value), text + (shown + [ToAsciiUppercase(c)]), gap);
  }

  lemma PlayLetterGap(kinds: seq<Kind>, sent: seq<Kind>, code: seq<Kind>, text: string, gap: bool)
    requires Reads(Play(kinds + sent + code, BatchChar), text, BatchChar)
    ensures var next := Play(kinds + (sent + (code + if gap then [OffChar] else [])), BatchChar);
            Reads(next, text, BatchChar) && (gap ==> next.pending == "")
  {
    if gap {
      PlayAppend(kinds + sent + code, OffChar, BatchChar);
      assert kinds + (sent + (code + [OffChar])) == kinds + sent + code + [OffChar];
    } else {
      assert kinds + (sent + (code + [])) == kinds + sent + code;
    }
  }

  lemma {:induction false} PlayWord(kinds: seq<Kind>, word: string, table: Encoder, more: bool)
    requires Sends(table) && Play(kinds, BatchChar).pending == ""
    ensures var next := Play(kinds + WordKinds(word, table, more), BatchChar);
            && Reads(next, Play(kinds, BatchChar).text + Shown(word, table), BatchChar)
            && (more ==> next.pending == "")
    decreases word
  {
    var text := Play(kinds, BatchChar).text;
    if word == [] {
      assert kinds + [] == kinds && text + "" == text;
    } else {
      var init, c := word[..|word| - 1], word[|word| - 1];
      PlayWord(kinds, init, table, true);
      if table(c).Some? {
        PlayNextChar(kinds, WordKinds(init, table, true), text, Shown(init, table), c, table, more);
      } else {
        assert Shown(init, table) + "" == Shown(init, table);
      }
    }
  }

  lemma SpacedThenWord(words: seq<string>, w: string, table: Encoder)
    ensures var t := Spaced(words, table) + Shown(w, table);
            t == Joined(words + [w], table) || t == Spaced(words + [w], table)
    ensures Joined(words + [w], table) == "" ==> Spaced(words, table) + Shown(w, table) == ""
  {
    assert (words + [w])[..|words|] == words;
    assert Spaced(words, table) + "" == Spaced(words, table);
  }

  lemma PlayLastWord(kinds: seq<Kind>, words: seq<string>, w: string, table: Encoder)
    requires Sends(table) && Play(kinds, BatchChar) == Copy(Spaced(words, table), "")
    ensures var sent := kinds + WordKinds(w, table, false);
            && Copied(sent, BatchChar) == Joined(words + [w], table)
            && (|| Reads(Play(sent, BatchChar), Joined(words + [w], table), BatchChar)
                || Reads(Play(sent, BatchChar), Spaced(words + [w], table), BatchChar))
  {
    PlayWord(kinds, w, table, false);
    SpacedThenWord(words, w, table);
    JoinedIsTrimmed(words + [w], table);
  }

  lemma PlayGapAfter(kinds: seq<Kind>, words: seq<string>, table: Encoder)
    requires Sends(table)
    requires || Reads(Play(kinds, BatchChar), Joined(words, table), BatchChar)
             || Reads(Play(kinds, BatchChar), Spaced(words, table), BatchChar)
    ensures Play(kinds + [OffWord], BatchChar) == Copy(Spaced(words, table), "")
  {
    if Reads(Play(kinds, BatchChar), Joined(words, table), BatchChar) {
      PlayWordGap(kinds, words, table);
    } else {
      PlayAppend(kinds, OffWord, BatchChar);
    }
  }

  lemma GapKeepsCopy(kinds: seq<Kind>, words: seq<string>, table: Encoder)
    requires Sends(table) && Play(kinds + [OffWord], BatchChar) == Copy(Spaced(words, table), "")
    ensures Copied(kinds + [OffWord], BatchChar) == Joined(words, table)
  {
    JoinedIsTrimmed(words, table);
  }

  /** One more word; then, unless it is the last, a word gap. */
  lemma PlayNextWord(kinds: seq<Kind>, words: seq<string>, w: string, table: Encoder, more: bool)
    requires Sends(table) && Play(kinds, BatchChar) == Copy(Spaced(words, table), "")
    ensures var next := kinds + (WordKinds(w, table, false) + if more then [OffWord] else []);
            && Copied(next, BatchChar) == Joined(words + [w], table)
            && (more ==> Play(next, BatchChar) == Copy(Spaced(words + [w], table), ""))
  {
    var sent := WordKinds(w, table, false);
    PlayLastWord(kinds, words, w, table);
    if more {
      PlayGapAfter(kinds + sent, words + [w], table);
      GapKeepsCopy(kinds + sent, words + [w], table);
      assert kinds + (sent + [OffWord]) == kinds + sent + [OffWord];
    } else {
      assert sent + [] == sent;
    }
  }

  ghost predicate Spells(words: seq<string>, table: Encoder, more: bool) {
    && (more ==> Play(TextKinds(words, table, more), BatchChar) == Copy(Spaced(words, table), ""))
    && Copied(TextKinds(words, table, more), BatchChar) == Joined(words, table)
  }

  lemma OneMoreWordSpells(init: seq<string>, w: string, table: Encoder, more: bool)
    requires Sends(table) && Spells(init, table, true)
    ensures Spells(init + [w], table, more)
  {
    var sent := TextKinds(init, table, true);
    assert (init + [w])[..|init|] == init;
    assert TextKinds(init + [w], table, more) == sent + (WordKinds(w, table, false) + if more then [OffWord] else []);
    PlayNextWord(sent, init, w, table, more);
  }

  lemma {:induction false} PlayText(words: seq<string>, table: Encoder, more: bool)
    requires Sends(table)
    ensures more ==> Play(TextKinds(words, table, more), BatchChar) == Copy(Spaced(words, table), "")
    ensures Copied(TextKinds(words, table, more), BatchChar) == Joined(words, table)
    decreases |words|
  {
    if words == [] {
      assert Spaced(words, table) == "";
    } else {
      var init, w := words[..|words| - 1], words[|words| - 1];
      PlayText(init, table, true);
      assert init + [w] == words;
      OneMoreWordSpells(init, w, table, more);
    }
  }

  // ---------------------------------------------------------------------
  // No two elements run together, and of two adjacent gaps one is a word gap
  // ---------------------------------------------------------------------

  lemma LetterKeyed(code: string, gap: bool)
    requires code != []
    ensures var k := CharKinds(code) + if gap then [OffChar] else [];
            k != [] && WellKeyed(k) && StartsOn(k) && (if gap then k[|k| - 1].OffChar? else k[|k| - 1].IsOn())
  {
    CharKeyed(code);
    if gap {
      WellKeyedJoin(CharKinds(code), [OffChar]);
    } else {
      assert CharKinds(code) + [] == CharKinds(code);
    }
  }

  /** Well keyed, starting with an element, and ending with a letter gap, or if nothing follows with an element. */
  ghost predicate WordShape(k: seq<Kind>, more: bool) {
    && WellKeyed(k)
    && StartsOn(k)
    && (k != [] ==> k[|k| - 1].OffChar? || (!more && k[|k| - 1].IsOn()))
  }

  lemma WordShapeJoin(sent: seq<Kind>, letter: seq<Kind>, more: bool)
    requires WordShape(sent, true) && WordShape(letter, more) && letter != []
    ensures WordShape(sent + letter, more)
  {
    WellKeyedJoin(sent, letter);
  }

  lemma {:induction false} WordKeyed(word: string, table: Encoder, more: bool)
    requires Sends(table)
    ensures WordShape(WordKinds(word, table, more), more)
    decreases word
  {
    if word != [] {
      var code := table(word[|word| - 1]);
      WordKeyed(word[..|word| - 1], table, true);
      if code.Some? {
        LetterKeyed(code.value, more);
        WordShapeJoin(WordKinds(word[..|word| - 1], table, true),
                      CharKinds(code.value) + if more then [OffChar] else [], more);
      }
    }
  }

  lemma {:induction false} TextKeyed(words: seq<string>, table: Encoder, more: bool)
    requires Sends(table)
    ensures var k := TextKinds(words, table, more); WellKeyed(k) && (k != [] && more ==> k[|k| - 1].OffWord?)
    decreases words
  {
    if words != [] {
      var k, w := TextKinds(words[..|words| - 1], table, true), WordKinds(words[|words| - 1], table, false);
      TextKeyed(words[..|words| - 1], table, true);
      WordKeyed(words[|words| - 1], table, false);
      if more {
        WellKeyedJoin(w, [OffWord]);
        WellKeyedJoin(k, w + [OffWord]);
      } else {
        WellKeyedJoin(k, w);
        assert w + [] == w;
      }
    }
  }

  // ---------------------------------------------------------------------
  // Exactly when the text comes back
  // ---------------------------------------------------------------------

  /** Lengths that depend on the kind alone. */
  ghost function Fixed(length: Kind -> real): Lengther {
    (kind: Kind, i: nat) => length(kind)
  }

  /** The rounded lengths, in samples. */
  ghost function Rounded(timing: Timing): Kind -> real {
    (kind: Kind) => timing.Length(kind) as real
  }

  /** The lengths before rounding, for an element dot of d and a gap dot of g. */
  ghost function Exact(d: real, g: real): Kind -> real {
    (kind: Kind) =>
      match kind
      case OnDit => d
      case OnDah => 3.0 * d
      case OffIntra => d
      case OffChar => 3.0 * g
      case OffWord => 7.0 * g
  }

  /** The events as a keyed signal, lengths in samples. */
  ghost function AsKeyed(events: seq<ElementEvent>): seq<Keyed> {
    seq(|events|, i requires 0 <= i < |events| => Keyed(events[i].kind, events[i].length as real))
  }

  /** Every text keyed with these lengths comes back from the decoder at this dot. */
  ghost predicate AllComeBack(length: Kind -> real, dot: real) {
    forall words: seq<string> :: Decoded(Timed(SuiteKinds(words), Fixed(length)), dot) == Joined(words, SuiteMorse)
  }

  ghost predicate Right(length: Kind -> real, dot: real, kind: Kind) {
    length(kind) > 0.0 && Classify(kind.IsOn(), length(kind), dot) == kind
  }

  lemma ComesBack(words: seq<string>, length: Kind -> real, dot: real)
    requires dot > 0.0 && forall kind :: Right(length, dot, kind)
    ensures Decoded(Timed(SuiteKinds(words), Fixed(length)), dot) == Joined(words, SuiteMorse)
  {
    var kinds := SuiteKinds(words);
    var keyed := Timed(kinds, Fixed(length));
    assert Kinds(keyed) == kinds;
    forall i | 0 <= i < |keyed|
      ensures keyed[i].duration > 0.0 && Classify(keyed[i].kind.IsOn(), keyed[i].duration, dot) == keyed[i].kind
    {
      assert Right(length, dot, kinds[i]);
    }
    TablesSend();
    TextKeyed(words, SuiteMorse, false);
    DecodeRightlyTimed(keyed, dot);
    PlayText(words, SuiteMorse, false);
  }

  lemma TwoLetters()
    ensures SuiteKinds(["EE"]) == [OnDit, OffChar, OnDit] && Joined(["EE"], SuiteMorse) == "EE"
  {
    TwoOf("EE", 'E', SuiteMorse);
    OneWord("EE", SuiteMorse);
  }

  lemma TwoOf(w: string, c: char, table: Encoder)
    requires w == [c, c] && table(c) == Some(".") && ToAsciiUppercase(c) == c
    ensures WordKinds(w, table, false) == [OnDit, OffChar, OnDit] && Shown(w, table) == w
  {
    assert w[..1] == [c] && [c][..0] == [];
    assert "."[..0] == "" && CharKinds(".") == [OnDit];
    assert WordKinds([c], table, true) == [OnDit, OffChar] && Shown([c], table) == [c];
  }

  lemma OneLetter(w: string, c: char, table: Encoder)
    requires w == [c] && table(c) == Some(".") && ToAsciiUppercase(c) == c
    ensures TextKinds([w], table, false) == [OnDit] && Joined([w], table) == w
  {
    OneWord(w, table);
    assert w[..0] == [];
    assert "."[..0] == "" && CharKinds(".") == [OnDit];
    assert WordKinds(w, table, false) == [OnDit] && Shown(w, table) == w;
  }

  lemma OneWord(w: string, table: Encoder)
    ensures TextKinds([w], table, false) == WordKinds(w, table, false) && Joined([w], table) == Shown(w, table)
  {
    assert [w][..0] == [];
  }

  lemma CopiedApart()
    ensures Copied([OnDit, OffWord, OnDit], BatchChar) == "E E"
  {
    LettersOfOneElement();
    assert [OnDit, OffWord, OnDit][..2] == [OnDit, OffWord] && [OnDit, OffWord][..1] == [OnDit] && [OnDit][..0] == [];
    assert "" + "." == "." && "" + ['E'] == "E" && "E" + " " == "E ";
    assert Play([OnDit, OffWord], BatchChar) == Copy("E ", "");
    assert "E " + ['E'] == "E E";
  }

  /** A letter gap of five dots or more tears a word of two letters apart. */
  lemma LettersDriftApart(length: Kind -> real, dot: real)
    requires dot > 0.0 && Right(length, dot, OnDit) && length(OffChar) >= 5.0 * dot
    ensures !AllComeBack(length, dot)
  {
    TwoLetters();
    var k, gap := Keyed(OnDit, length(OnDit)), Keyed(OffChar, length(OffChar));
    assert Timed([OnDit, OffChar, OnDit], Fixed(length)) == [k, gap, k];
    ListenPair(k, gap, k);
    InterleavePair(k.duration, gap.duration, k.duration, dot);
    CopiedApart();
  }

  /** A dit of two dots or more is read as a dah. */
  lemma DitTooLong(length: Kind -> real, dot: real)
    requires length(OnDit) >= 2.0 * dot
    ensures !AllComeBack(length, dot)
  {
    OneLetter("E", 'E', SuiteMorse);
    var k := Keyed(OnDit, length(OnDit));
    assert Timed([OnDit], Fixed(length)) == [k];
    DecodedAsDah(k, dot);
    assert Decoded(Timed(SuiteKinds(["E"]), Fixed(length)), dot) == "T" != Joined(["E"], SuiteMorse);
  }

  lemma DecodedAsDah(k: Keyed, dot: real)
    requires k.kind.IsOn() && k.duration >= 2.0 * dot
    ensures Decoded([k], dot) == "T"
  {
    assert [k][..0] == [];
    assert Listen([k]) == Heard([k.duration], [], 0.0);
    assert Interleave([k.duration], [], dot, 1) == [OnDah];
    LettersOfOneElement();
    assert [OnDah][..0] == [] && "" + "-" == "-";
    assert Play([OnDah], BatchChar) == Copy("", "-");
    assert "" + ['T'] == "T";
  }

  /** With a dot of more than half a sample every length but the letter gap is safe after rounding. */
  lemma RoundedRight(d: real, g: real, kind: Kind)
    requires d > 0.5 && g >= d
    requires kind.OffChar? ==> TimingFor(d, g).letterGap as real < 5.0 * d
    ensures Right(Rounded(TimingFor(d, g)), d, kind)
  {
    SamplesNear(d);
    SamplesNear(3.0 * d);
    SamplesNear(3.0 * g);
    SamplesNear(7.0 * g);
  }

  /**
    Decoded at the element dot, every text comes back exactly when the dot is longer than half a sample and the
    rounded letter gap is below five dots: otherwise a dit is read as a dah, or a word of two letters torn apart.
  */
  lemma RoundTripExactly(d: real, g: real)
    requires 0.0 < d <= g
    ensures AllComeBack(Rounded(TimingFor(d, g)), d) <==> d > 0.5 && TimingFor(d, g).letterGap as real < 5.0 * d
  {
    var length := Rounded(TimingFor(d, g));
    if d <= 0.5 {
      assert Samples(d) == 1;
      DitTooLong(length, d);
    } else if TimingFor(d, g).letterGap as real < 5.0 * d {
      forall kind
        ensures Right(length, d, kind)
      {
        RoundedRight(d, g, kind);
      }
      forall words: seq<string>
        ensures Decoded(Timed(SuiteKinds(words), Fixed(length)), d) == Joined(words, SuiteMorse)
      {
        ComesBack(words, length, d);
      }
    } else {
      RoundedRight(d, g, OnDit);
      LettersDriftApart(length, d);
    }
  }

  /** Before rounding, every text comes back exactly when the letter gap is below five dots. */
  lemma ExactRoundTrip(d: real, g: real)
    requires 0.0 < d <= g
    ensures AllComeBack(Exact(d, g), d) <==> 3.0 * g < 5.0 * d
  {
    var length := Exact(d, g);
    assert Right(length, d, OnDit);
    if 3.0 * g < 5.0 * d {
      assert forall kind :: Right(length, d, kind);
      forall words: seq<string>
        ensures Decoded(Timed(SuiteKinds(words), Fixed(length)), d) == Joined(words, SuiteMorse)
      {
        ComesBack(words, length, d);
      }
    } else {
      LettersDriftApart(length, d);
    }
  }

  lemma Reciprocal(x: real, y: real, k: real)
    requires 0.0 < x && 0.0 < y && 0.0 < k
    ensures 1.2 / x * k > 0.0
    ensures x <= y <==> 1.2 / y * k <= 1.2 / x * k
    ensures 3.0 * (1.2 / x * k) < 5.0 * (1.2 / y * k) <==> 3.0 * y < 5.0 * x
  {
    var p, q := 1.2 / x, 1.2 / y;
    assert p * x == 1.2 && q * y == 1.2;
    Ordered(x, y, p, q);
    Ordered(5.0 * x, 3.0 * y, p / 5.0, q / 3.0);
    Scaled(k, p, q);
    Scaled(k, 3.0 * p, 5.0 * q);
  }

  lemma Ordered(x: real, y: real, p: real, q: real)
    requires 0.0 < x && 0.0 < y && p * x == q * y && p * x > 0.0
    ensures p > 0.0 && q > 0.0
    ensures x <= y <==> q <= p
  {
    PositiveFactor(p, x);
    PositiveFactor(q, y);
    if x <= y {
      if q > p {
        Scaled(x, q, p);
        Scaled(q, x, y);
        assert false;
      }
    } else if q <= p {
      Scaled(y, q, p);
      Scaled(p, y, x);
      assert false;
    }
  }

  lemma PositiveFactor(p: real, x: real)
    requires x > 0.0 && p * x > 0.0
    ensures p > 0.0
  {
    if p <= 0.0 {
      Scaled(x, p, 0.0);
      assert false;
    }
  }

  /** Before rounding, the letter gap stays below five dots exactly above three fifths of the element speed. */
  lemma FarnsworthThreshold(sampleRate: nat, elementWpm: real, farnsworthWpm: Option<real>)
    requires sampleRate > 0 && elementWpm > 0.0 && (farnsworthWpm.Some? ==> farnsworthWpm.value > 0.0)
    ensures var d, g := DotSamples(elementWpm, sampleRate), GapDot(elementWpm, farnsworthWpm, sampleRate);
            && 0.0 < d <= g
            && (3.0 * g < 5.0 * d <==> farnsworthWpm.None? || 5.0 * farnsworthWpm.value > 3.0 * elementWpm)
  {
    var k := sampleRate as real;
    Reciprocal(elementWpm, elementWpm, k);
    if farnsworthWpm.Some? {
      Reciprocal(farnsworthWpm.value, elementWpm, k);
    }
  }

  /** In exact durations, every text comes back if and only if the Farnsworth speed, if any, exceeds 3/5 of the element speed. */
  lemma FarnsworthRoundTrip(sampleRate: nat, elementWpm: real, farnsworthWpm: Option<real>)
    requires sampleRate > 0 && elementWpm > 0.0 && (farnsworthWpm.Some? ==> farnsworthWpm.value > 0.0)
    ensures var d, g := DotSamples(elementWpm, sampleRate), GapDot(elementWpm, farnsworthWpm, sampleRate);
            AllComeBack(Exact(d, g), d) <==> farnsworthWpm.None? || 5.0 * farnsworthWpm.value > 3.0 * elementWpm
  {
    FarnsworthThreshold(sampleRate, elementWpm, farnsworthWpm);
    ExactRoundTrip(DotSamples(elementWpm, sampleRate), GapDot(elementWpm, farnsworthWpm, sampleRate));
  }

  /** The generator's own output, with its rounded letter gap below five dots. */
  lemma SuiteRoundTrip(words: seq<string>, events: seq<ElementEvent>, sampleRate: nat, elementWpm: real,
                       farnsworthWpm: Option<real>, start: int)
    requires sampleRate > 0 && elementWpm > 0.0 && (farnsworthWpm.Some? ==> farnsworthWpm.value > 0.0)
    requires LaidOut(events, SuiteKinds(words), SuiteTiming(sampleRate, elementWpm, farnsworthWpm), start, EndOf(events, start))
    requires DotSamples(elementWpm, sampleRate) > 0.5
    requires SuiteTiming(sampleRate, elementWpm, farnsworthWpm).letterGap as real < 5.0 * DotSamples(elementWpm, sampleRate)
    ensures Decoded(AsKeyed(events), DotSamples(elementWpm, sampleRate)) == Joined(words, SuiteMorse)
  {
    var d, g := DotSamples(elementWpm, sampleRate), GapDot(elementWpm, farnsworthWpm, sampleRate);
    FarnsworthThreshold(sampleRate, elementWpm, farnsworthWpm);
    RoundTripExactly(d, g);
    assert AsKeyed(events) == Timed(SuiteKinds(words), Fixed(Rounded(TimingFor(d, g))));
  }
}
