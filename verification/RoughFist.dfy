/**
  The rough-fist generator: a text keyed with jittered lengths, the canonical
  text written beside it, and exactly when the batch decoder gives that text back.
*/
module RoughFist {
  import opened Arithmetic
  import opened Wrappers
  import opened Text
  import opened MorseCode
  import opened Keying
  import opened Encoding

  /** The generator's settings; draw(i) is the i-th number of its random sequence. */
  datatype Fist = Fist(dot: real, jitter: real, dahRatio: real, ditWeight: real, draw: nat -> real)

  /** The nominal length of a stretch, in dots. */
  function Units(kind: Kind, dahRatio: real, ditWeight: real): real {
    match kind
    case OnDit => ditWeight
    case OnDah => dahRatio
    case OffIntra => 1.0
    case OffChar => 3.0
    case OffWord => 7.0
  }

  /** The jitter multiplier, never below a tenth. */
  function Factor(jitter: real, draw: real): real {
    if 1.0 + jitter * draw > 0.1 then 1.0 + jitter * draw else 0.1
  }

  /** The i-th stretch: its nominal length jittered by the i-th draw. */
  function Length(kind: Kind, fist: Fist, i: nat): real {
    Times(fist.dot, Units(kind, fist.dahRatio, fist.ditWeight) * Factor(fist.jitter, fist.draw(i)))
  }

  function Times(x: real, y: real): real { x * y }

  function Lengths(fist: Fist): Lengther {
    (kind: Kind, i: nat) => Length(kind, fist, i)
  }

  /**
    The i-th stretch of what is keyed lasts the nominal 1, 3 or 7 dots of a gap, or the
    set weight or ratio in dots, times one and its draw of the jitter, and at least a tenth.
  */
  lemma StretchLengths(words: seq<string>, fist: Fist, i: nat)
    requires i < |FistKinds(words)|
    ensures var k := Timed(FistKinds(words), Lengths(fist))[i];
            var nominal := match k.kind
                           case OnDit => fist.ditWeight
                           case OnDah => fist.dahRatio
                           case OffIntra => 1.0
                           case OffChar => 3.0
                           case OffWord => 7.0;
            var f := 1.0 + fist.jitter * fist.draw(i);
            && k.kind == FistKinds(words)[i]
            && k.duration == fist.dot * (nominal * if f >= 0.1 then f else 0.1)
  {
    var kind := FistKinds(words)[i];
    assert Timed(FistKinds(words), Lengths(fist))[i] == Keyed(kind, Lengths(fist)(kind, i));
    assert Lengths(fist)(kind, i) == Length(kind, fist, i);
  }

  // ---------------------------------------------------------------------
  // What is keyed
  // ---------------------------------------------------------------------

  function WordKinds(word: string, table: Encoder): seq<Kind> {
    if word == [] then []
    else
      var before, code := WordKinds(word[..|word| - 1], table), table(word[|word| - 1]);
      if code.None? then before
      else before + (if before == [] then [] else [OffChar]) + CharKinds(code.value)
  }

  /** The first n of the words; only a word of which something was sent is followed by a word gap. */
  function TextKinds(words: seq<string>, table: Encoder, n: nat): seq<Kind>
    requires n <= |words|
  {
    if n == 0 then []
    else
      var w := WordKinds(words[n - 1], table);
      TextKinds(words, table, n - 1) + w + if n < |words| && w != [] then [OffWord] else []
  }

  /** The truth text: a space before every shown word that is not the first of the list. */
  function Canonical(words: seq<string>, table: Encoder, n: nat): string
    requires n <= |words|
  {
    if n == 0 then ""
    else
      var w := Shown(words[n - 1], table);
      Canonical(words, table, n - 1) + if w == "" then "" else (if n - 1 > 0 then " " else "") + w
  }

  function Stretch(kind: Kind, len: Lengther, i: nat): Keyed { Keyed(kind, len(kind, i)) }

  method KeyChar(code: string, len: Lengther, keyed0: seq<Keyed>, ghost kinds: seq<Kind>) returns (keyed: seq<Keyed>)
    requires keyed0 == Timed(kinds, len)
    ensures keyed == Timed(kinds + CharKinds(code), len)
  {
    keyed := keyed0;
    var firstElem := true;
    assert kinds + [] == kinds;
    for i := 0 to |code|
      invariant firstElem <==> i == 0
      invariant keyed == Timed(kinds + CharKinds(code[..i]), len)
    {
      assert code[..i + 1][..i] == code[..i];
      ghost var before := CharKinds(code[..i]);
      assert before + [] == before;
      assert kinds + (before + [OffIntra] + [OnKind(code[i])]) == kinds + before + [OffIntra] + [OnKind(code[i])];
      assert kinds + (before + [OnKind(code[i])]) == kinds + before + [OnKind(code[i])];
      if !firstElem {
        keyed := keyed + [Stretch(OffIntra, len, |keyed|)];
      }
      firstElem := false;
      keyed := keyed + [Stretch(OnKind(code[i]), len, |keyed|)];
    }
    assert code[..|code|] == code;
  }

  /** A character of a word, with a character gap before it unless it is the first sent. */
  method KeyNextChar(code: string, wordEmitted: bool, len: Lengther, keyed0: seq<Keyed>,
                     ghost kinds: seq<Kind>, ghost sent: seq<Kind>) returns (keyed: seq<Keyed>)
    requires keyed0 == Timed(kinds + sent, len) && (wordEmitted <==> sent != [])
    ensures keyed == Timed(kinds + (sent + (if sent == [] then [] else [OffChar]) + CharKinds(code)), len)
  {
    ghost var gap := if sent == [] then [] else [OffChar];
    keyed := keyed0;
    if wordEmitted {
      keyed := keyed + [Stretch(OffChar, len, |keyed|)];
    }
    assert kinds + (sent + gap) == kinds + sent + gap;
    keyed := KeyChar(code, len, keyed, kinds + (sent + gap));
    assert kinds + (sent + gap) + CharKinds(code) == kinds + (sent + gap + CharKinds(code));
  }

  lemma NextCharKinds(word: string, table: Encoder, i: nat)
    requires Sends(table) && i < |word|
    ensures var sent, code := WordKinds(word[..i], table), table(word[i]);
            WordKinds(word[..i + 1], table) == if code.None? then sent
            else sent + (if sent == [] then [] else [OffChar]) + CharKinds(code.value)
    ensures Shown(word[..i + 1], table)
         == Shown(word[..i], table) + if table(word[i]).Some? then [ToAsciiUppercase(word[i])] else ""
    ensures table(word[i]).Some? ==> CharKinds(table(word[i]).value) != []
  {
    assert word[..i + 1][..i] == word[..i];
  }

  method KeyWord(word: string, table: Encoder, len: Lengther, keyed0: seq<Keyed>, ghost kinds: seq<Kind>)
    returns (keyed: seq<Keyed>, wordChars: string, wordEmitted: bool)
    requires Sends(table)
    requires keyed0 == Timed(kinds, len)
    ensures keyed == Timed(kinds + WordKinds(word, table), len)
    ensures wordChars == Shown(word, table)
    ensures wordEmitted <==> WordKinds(word, table) != []
  {
    keyed, wordChars, wordEmitted := keyed0, "", false;
    assert kinds + [] == kinds;
    for i := 0 to |word|
      invariant keyed == Timed(kinds + WordKinds(word[..i], table), len)
      invariant wordChars == Shown(word[..i], table)
      invariant wordEmitted <==> WordKinds(word[..i], table) != []
    {
      NextCharKinds(word, table, i);
      var code := table(word[i]);
      if code.Some? {
        keyed := KeyNextChar(code.value, wordEmitted, len, keyed, kinds, WordKinds(word[..i], table));
        wordEmitted := true;
        wordChars := wordChars + [ToAsciiUppercase(word[i])];
      }
    }
    assert word[..|word|] == word;
  }

  /** A word and, unless nothing was sent of it or it is the last, the word gap after it. */
  method KeyNextWord(word: string, last: bool, table: Encoder, len: Lengther, keyed0: seq<Keyed>, ghost kinds: seq<Kind>)
    returns (keyed: seq<Keyed>, wordChars: string)
    requires Sends(table) && keyed0 == Timed(kinds, len)
    ensures var w := WordKinds(word, table);
            keyed == Timed(kinds + w + if !last && w != [] then [OffWord] else [], len)
    ensures wordChars == Shown(word, table)
  {
    var wordEmitted;
    keyed, wordChars, wordEmitted := KeyWord(word, table, len, keyed0, kinds);
    ghost var sent := kinds + WordKinds(word, table);
    assert sent + [] == sent;
    if !last && wordEmitted {
      keyed := keyed + [Stretch(OffWord, len, |keyed|)];
      assert keyed == Timed(sent + [OffWord], len);
    }
  }

  method KeyText(words: seq<string>, table: Encoder, len: Lengther) returns (keyed: seq<Keyed>, canonical: string)
    requires Sends(table)
    ensures keyed == Timed(TextKinds(words, table, |words|), len)
    ensures canonical == Canonical(words, table, |words|)
  {
    keyed, canonical := [], "";
    for i := 0 to |words|
      invariant keyed == Timed(TextKinds(words, table, i), len)
      invariant canonical == Canonical(words, table, i)
    {
      var wordChars;
      keyed, wordChars := KeyNextWord(words[i], i + 1 == |words|, table, len, keyed, TextKinds(words, table, i));
      canonical := WriteTruth(canonical, wordChars, i);
    }
  }

  method WriteTruth(canonical0: string, wordChars: string, i: nat) returns (canonical: string)
    ensures canonical == canonical0 + if wordChars == "" then "" else (if i > 0 then " " else "") + wordChars
  {
    canonical := canonical0;
    if wordChars != "" {
      if i > 0 {
        canonical := canonical + " ";
      }
      canonical := canonical + wordChars;
    }
  }

  method RunGenRoughFist(words: seq<string>, fist: Fist) returns (keyed: seq<Keyed>, canonical: string)
    ensures keyed == Timed(FistKinds(words), Lengths(fist))
    ensures canonical == Truth(words)
  {
    TablesSend();
    keyed, canonical := KeyText(words, MorseForChar, Lengths(fist));
  }

  ghost function FistKinds(words: seq<string>): seq<Kind> { TextKinds(words, MorseForChar, |words|) }

  ghost function Truth(words: seq<string>): string { Canonical(words, MorseForChar, |words|) }

  // ---------------------------------------------------------------------
  // One pass over it copies the words joined
  // ---------------------------------------------------------------------

  lemma {:induction false} WordKindsEmpty(word: string, table: Encoder)
    requires Sends(table)
    ensures WordKinds(word, table) == [] <==> Shown(word, table) == ""
  {
    if word != [] {
      WordKindsEmpty(word[..|word| - 1], table);
    }
  }

  /** One more character of a word, after those already sent of it. */
  lemma PlayNextChar(kinds: seq<Kind>, sent: seq<Kind>, text: string, c: char, table: Encoder)
    requires Sends(table) && table(c).Some?
    requires Reads(Play(kinds + sent, BatchChar), text, BatchChar)
    requires sent == [] ==> Play(kinds, BatchChar).pending == ""
    ensures Reads(Play(kinds + (sent + (if sent == [] then [] else [OffChar]) + CharKinds(table(c).value)), BatchChar),
                  text + [ToAsciiUppercase(c)], BatchChar)
  {
    var code := CharKinds(table(c).value);
    if sent == [] {
      assert kinds + sent == kinds && kinds + (sent + [] + code) == kinds + code;
      PlaySentChar(kinds, c, table);
    } else {
      PlayAppend(kinds + sent, OffChar, BatchChar);
      assert kinds + (sent + [OffChar] + code) == kinds + sent + [OffChar] + code;
      PlaySentChar(kinds + sent + [OffChar], c, table);
    }
  }

  lemma {:induction false} PlayWord(kinds: seq<Kind>, word: string, table: Encoder)
    requires Sends(table)
    requires Play(kinds, BatchChar).pending == ""
    ensures Reads(Play(kinds + WordKinds(word, table), BatchChar),
                  Play(kinds, BatchChar).text + Shown(word, table), BatchChar)
  {
    var text := Play(kinds, BatchChar).text;
    if word == [] {
      assert kinds + [] == kinds && text + "" == text;
    } else {
      var init, c := word[..|word| - 1], word[|word| - 1];
      PlayWord(kinds, init, table);
      if table(c).Some? {
        PlayNextChar(kinds, WordKinds(init, table), text + Shown(init, table), c, table);
        assert text + Shown(init, table) + [ToAsciiUppercase(c)] == text + Shown(word, table);
      } else {
        assert Shown(word, table) == Shown(init, table);
      }
    }
  }

  lemma {:induction false} PlayText(words: seq<string>, table: Encoder, n: nat)
    requires Sends(table)
    requires n <= |words|
    ensures n < |words| || n == 0 ==> Play(TextKinds(words, table, n), BatchChar) == Copy(Spaced(words[..n], table), "")
    ensures TrimEnd(Flush(Play(TextKinds(words, table, n), BatchChar), BatchChar).text) == Joined(words[..n], table)
    decreases n
  {
    JoinedIsTrimmed(words[..n], table);
    if n > 0 {
      PlayText(words, table, n - 1);
      var kinds, w := TextKinds(words, table, n - 1), words[n - 1];
      assert words[..n][..n - 1] == words[..n - 1];
      WordKindsEmpty(w, table);
      PlayWord(kinds, w, table);
      if WordKinds(w, table) == [] {
        assert TextKinds(words, table, n) == kinds;
      } else {
        assert Spaced(words[..n - 1], table) + Shown(w, table) == Joined(words[..n], table);
        if n < |words| {
          PlayWordGap(kinds + WordKinds(w, table), words[..n], table);
        } else {
          assert TextKinds(words, table, n) == kinds + WordKinds(w, table);
        }
      }
    }
  }

  // ---------------------------------------------------------------------
  // No two elements, and no two gaps, run together
  // ---------------------------------------------------------------------

  lemma {:induction false} WordKeyed(word: string, table: Encoder)
    requires Sends(table)
    ensures var k := WordKinds(word, table); WellKeyed(k) && StartsOn(k) && EndsOn(k)
  {
    if word != [] {
      var before, code := WordKinds(word[..|word| - 1], table), table(word[|word| - 1]);
      WordKeyed(word[..|word| - 1], table);
      if code.Some? {
        CharKeyed(code.value);
        if before != [] {
          WellKeyedJoin(before, [OffChar]);
          WellKeyedJoin(before + [OffChar], CharKinds(code.value));
        } else {
          assert WordKinds(word, table) == CharKinds(code.value);
        }
      }
    }
  }

  lemma {:induction false} TextKeyed(words: seq<string>, table: Encoder, n: nat)
    requires Sends(table)
    requires n <= |words|
    ensures var k := TextKinds(words, table, n); WellKeyed(k) && (k != [] && n < |words| ==> k[|k| - 1].OffWord?)
    decreases n
  {
    if n > 0 {
      var k, w := TextKinds(words, table, n - 1), WordKinds(words[n - 1], table);
      TextKeyed(words, table, n - 1);
      WordKeyed(words[n - 1], table);
      WellKeyedJoin(k, w);
      if n < |words| && w != [] {
        WellKeyedJoin(k + w, [OffWord]);
      } else {
        assert TextKinds(words, table, n) == k + w;
      }
    }
  }

  /** The canonical text is the words joined, after a space if the first word was not sent but a later one was. */
  lemma {:induction false} CanonicalIsJoined(words: seq<string>, table: Encoder, n: nat)
    requires n <= |words|
    ensures Canonical(words, table, n)
         == (if n > 0 && Shown(words[0], table) == "" && Joined(words[..n], table) != "" then " " else "")
            + Joined(words[..n], table)
    ensures n > 0 && Shown(words[0], table) != "" ==> Joined(words[..n], table) != ""
    decreases n
  {
    if n > 0 {
      CanonicalIsJoined(words, table, n - 1);
      JoinedNext(words, table, n - 1);
      AttachAfter(Joined(words[..n - 1], table), Shown(words[n - 1], table));
    }
  }

  lemma AttachAfter(text: string, word: string)
    ensures text != "" && word != "" ==>
      text + (" " + word) == Attach(text, word) && " " + text + (" " + word) == " " + Attach(text, word)
    ensures word != "" ==> "" + ("" + word) == word && "" + (" " + word) == " " + word
    ensures "" + text == text
  {
  }

  // ---------------------------------------------------------------------
  // Which settings survive
  // ---------------------------------------------------------------------

  /** Draws lie between -1 and top: 1 as the comment on the generator has it, 0 in fact. */
  ghost predicate ValidFist(fist: Fist, top: real) {
    && fist.dot > 0.0 && fist.jitter >= 0.0 && fist.dahRatio > 0.0 && fist.ditWeight > 0.0
    && 0.0 <= top <= 1.0 && forall i :: -1.0 <= fist.draw(i) <= top
  }

  const TOP_DRAW: real := 0.0

  /** The draw made of a state of the generator: 64 bits shifted by 33 leave 31, divided by all of 32 bits. */
  function DrawOf(state: nat): real {
    2.0 * ((state / 0x2_0000_0000) as real / 0xFFFF_FFFF as real) - 1.0
  }

  lemma DrawIsAtMostTop(state: nat)
    requires state < 0x1_0000_0000_0000_0000
    ensures -1.0 <= DrawOf(state) <= TOP_DRAW
  {
    var shifted := state / 0x2_0000_0000;
    assert 0 <= shifted <= 0x7FFF_FFFF;
  }

  /** The largest jitter multiplier. */
  function Most(jitter: real, top: real): real { 1.0 + jitter * top }

  /** Nothing is left of the first word while something is left of a later one. */
  ghost predicate FirstWordLost(words: seq<string>) {
    words != [] && Shown(words[0], MorseForChar) == "" && Joined(words, MorseForChar) != ""
  }

  /** The bounds on the three settings: gaps fall apart past 2/7, elements where they meet the 2-dot split. */
  predicate Survives(top: real, jitter: real, dahRatio: real, ditWeight: real) {
    && jitter <= 2.0 / 7.0
    && Times(ditWeight, Most(jitter, top)) < 2.0
    && Times(dahRatio, 1.0 - jitter) >= 2.0
  }

  lemma ClassifyScaled(isOn: bool, dot: real, x: real)
    requires dot > 0.0
    ensures Classify(isOn, Times(dot, x), dot) == Classify(isOn, x, 1.0)
    ensures x > 0.0 ==> Times(dot, x) > 0.0
  {
    TimesOrder(dot, x, 0.0);
    TimesOrder(dot, x, 2.0);
    TimesOrder(dot, x, 5.0);
    SameSides(isOn, Times(dot, x), dot, x);
  }

  lemma TimesOrder(dot: real, x: real, split: real)
    requires dot > 0.0
    ensures x < split <==> Times(dot, x) < split * dot
    ensures x > split <==> Times(dot, x) > split * dot
  {
    Scaled(dot, x, split);
    Scaled(dot, split, x);
  }

  lemma SameSides(isOn: bool, duration: real, dot: real, x: real)
    requires x < 2.0 <==> duration < 2.0 * dot
    requires x < 5.0 <==> duration < 5.0 * dot
    ensures Classify(isOn, duration, dot) == Classify(isOn, x, 1.0)
  {}

  lemma FactorBounds(jitter: real, top: real, draw: real)
    requires 0.0 <= jitter <= 2.0 / 7.0 && -1.0 <= draw <= top <= 1.0
    ensures 1.0 - jitter <= Factor(jitter, draw) <= Most(jitter, top) <= 1.0 + jitter
  {
    ProductNotNegative(jitter, top - draw);
    ProductNotNegative(jitter, 1.0 + draw);
    ProductNotNegative(jitter, 1.0 - top);
    assert jitter * (top - draw) == jitter * top - jitter * draw;
    assert jitter * (1.0 + draw) == jitter + jitter * draw;
    assert jitter * (1.0 - top) == jitter - jitter * top;
  }

  lemma DitRightlyTimed(w: real, most: real, f: real, x: real)
    requires w > 0.0 && 0.0 < f <= most && Times(w, most) < 2.0 && x == w * f
    ensures 0.0 < x < 2.0
  {
    PositiveProduct(w, f);
    Scaled(w, most, f);
  }

  lemma DahRightlyTimed(w: real, least: real, f: real, x: real)
    requires w > 0.0 && f >= least && Times(w, least) >= 2.0 && x == w * f
    ensures x >= 2.0
  {
    Scaled(w, f, least);
  }

  lemma UnitsRightlyTimed(kind: Kind, jitter: real, most: real, dahRatio: real, ditWeight: real, f: real, x: real)
    requires x == Units(kind, dahRatio, ditWeight) * f
    requires 0.0 <= jitter <= 2.0 / 7.0 && dahRatio > 0.0 && ditWeight > 0.0
    requires Times(ditWeight, most) < 2.0 && Times(dahRatio, 1.0 - jitter) >= 2.0
    requires 1.0 - jitter <= f <= most <= 1.0 + jitter
    ensures x > 0.0 && Classify(kind.IsOn(), x, 1.0) == kind
  {
    match kind
    case OnDit => DitRightlyTimed(ditWeight, most, f, x);
    case OnDah => DahRightlyTimed(dahRatio, 1.0 - jitter, f, x);
    case OffIntra =>
    case OffChar =>
    case OffWord =>
  }

  lemma LengthRightlyTimed(kind: Kind, dot: real, jitter: real, most: real, dahRatio: real, ditWeight: real, f: real)
    requires dot > 0.0 && 0.0 <= jitter <= 2.0 / 7.0 && dahRatio > 0.0 && ditWeight > 0.0
    requires Times(ditWeight, most) < 2.0 && Times(dahRatio, 1.0 - jitter) >= 2.0
    requires 1.0 - jitter <= f <= most <= 1.0 + jitter
    ensures var d := Times(dot, Units(kind, dahRatio, ditWeight) * f);
            d > 0.0 && Classify(kind.IsOn(), d, dot) == kind
  {
    var x := Units(kind, dahRatio, ditWeight) * f;
    UnitsRightlyTimed(kind, jitter, most, dahRatio, ditWeight, f, x);
    ClassifyScaled(kind.IsOn(), dot, x);
  }

  lemma StretchRightlyTimed(kind: Kind, fist: Fist, top: real, i: nat)
    requires ValidFist(fist, top) && Survives(top, fist.jitter, fist.dahRatio, fist.ditWeight)
    ensures var d := Length(kind, fist, i);
            d > 0.0 && Classify(kind.IsOn(), d, fist.dot) == kind
  {
    FactorBounds(fist.jitter, top, fist.draw(i));
    LengthRightlyTimed(kind, fist.dot, fist.jitter, Most(fist.jitter, top), fist.dahRatio, fist.ditWeight,
                       Factor(fist.jitter, fist.draw(i)));
  }

  /** Within the bounds, whatever the draws, the decoder prints the words joined. */
  lemma DecodedIsJoined(words: seq<string>, fist: Fist, top: real)
    requires ValidFist(fist, top) && Survives(top, fist.jitter, fist.dahRatio, fist.ditWeight)
    ensures Decoded(Timed(FistKinds(words), Lengths(fist)), fist.dot) == Joined(words, MorseForChar)
  {
    var kinds := FistKinds(words);
    var keyed := Timed(kinds, Lengths(fist));
    assert Kinds(keyed) == kinds;
    forall i | 0 <= i < |keyed|
      ensures keyed[i].duration > 0.0
      ensures Classify(keyed[i].kind.IsOn(), keyed[i].duration, fist.dot) == keyed[i].kind
    {
      StretchRightlyTimed(kinds[i], fist, top, i);
    }
    TablesSend();
    TextKeyed(words, MorseForChar, |words|);
    DecodeRightlyTimed(keyed, fist.dot);
    PlayText(words, MorseForChar, |words|);
    assert words[..|words|] == words;
  }

  /**
    Round trip, exactly: within the bounds the decoder gives the canonical text
    back if and only if the first word was not lost while a later one was sent.
    When it was, the canonical text starts with a space the decoder does not print.
  */
  lemma RoundTrip(words: seq<string>, fist: Fist, top: real)
    requires ValidFist(fist, top) && Survives(top, fist.jitter, fist.dahRatio, fist.ditWeight)
    ensures var decoded := Decoded(Timed(FistKinds(words), Lengths(fist)), fist.dot);
            && (decoded == Truth(words) <==> !FirstWordLost(words))
            && (FirstWordLost(words) ==> Truth(words) == " " + decoded)
  {
    DecodedIsJoined(words, fist, top);
    CanonicalIsJoined(words, MorseForChar, |words|);
    assert words[..|words|] == words;
    var t := Joined(words, MorseForChar);
    assert |" " + t| != |t|;
  }

  // ---------------------------------------------------------------------
  // The bounds are sharp
  // ---------------------------------------------------------------------

  ghost predicate HasSettings(fist: Fist, top: real, dot: real, jitter: real, dahRatio: real, ditWeight: real) {
    && ValidFist(fist, top)
    && fist.dot == dot && fist.jitter == jitter && fist.dahRatio == dahRatio && fist.ditWeight == ditWeight
  }

  /** Every text whose first word is not lost comes back, whatever the draws. */
  ghost predicate AlwaysComesBack(top: real, dot: real, jitter: real, dahRatio: real, ditWeight: real) {
    forall words: seq<string>, fist: Fist :: HasSettings(fist, top, dot, jitter, dahRatio, ditWeight) && !FirstWordLost(words)
      ==> Decoded(Timed(FistKinds(words), Lengths(fist)), dot) == Truth(words)
  }

  lemma OneLetter(letter: string, kind: Kind)
    requires (letter == "E" && kind == OnDit) || (letter == "T" && kind == OnDah)
    ensures Shown(letter, MorseForChar) == letter && WordKinds(letter, MorseForChar) == [kind]
  {
    var c := letter[0];
    var code := MorseForChar(c).value;
    assert code == if letter == "E" then "." else "-";
    assert letter[..0] == "" && code[..0] == "";
    assert CharKinds(code) == [kind];
  }

  lemma OneWord(letter: string, kind: Kind)
    requires (letter == "E" && kind == OnDit) || (letter == "T" && kind == OnDah)
    ensures FistKinds([letter]) == [kind] && Truth([letter]) == letter && !FirstWordLost([letter])
  {
    OneLetter(letter, kind);
    assert TextKinds([letter], MorseForChar, 0) == [];
    assert Canonical([letter], MorseForChar, 0) == "";
  }

  lemma CopiedOne(k: Kind)
    requires k.IsOn()
    ensures Copied([k], BatchChar) == if k.OnDah? then "T" else "E"
  {
    LettersOfOneElement();
    assert [k][..0] == [];
    assert "" + "." == "." && "" + "-" == "-";
    assert Play([k], BatchChar) == Copy("", if k.OnDah? then "-" else ".");
    assert "" + ['E'] == "E" && "" + ['T'] == "T";
  }

  lemma DecodedOne(k: Keyed, dot: real)
    requires k.kind.IsOn()
    ensures Decoded([k], dot) == if k.duration >= 2.0 * dot then "T" else "E"
  {
    assert [k][..0] == [];
    assert Listen([k]) == Heard([k.duration], [], 0.0);
    var heard := Classify(true, k.duration, dot);
    assert Interleave([k.duration], [], dot, 1) == [heard];
    CopiedOne(heard);
  }

  lemma PlayPair(a: Kind, g: Kind, b: Kind)
    requires a.IsOn() && b.IsOn() && (g.OffIntra? || g.OffChar?)
    ensures |Flush(Play([a, g, b], BatchChar), BatchChar).text| <= 2
  {
    assert [a, g, b][..2] == [a, g] && [a, g][..1] == [a] && [a][..0] == [];
    assert |Play([a], BatchChar).text| == 0;
    assert |Play([a, g], BatchChar).text| <= 1;
  }

  /** Two letters keyed too close for a word gap are never printed as two words. */
  lemma DecodedPairHasNoSpace(k: Keyed, gap: Keyed, l: Keyed, dot: real)
    requires k.kind.IsOn() && l.kind.IsOn() && !gap.kind.IsOn()
    requires 0.0 < gap.duration < 5.0 * dot
    ensures |Decoded([k, gap, l], dot)| <= 2
  {
    ListenPair(k, gap, l);
    InterleavePair(k.duration, gap.duration, l.duration, dot);
    PlayPair(Classify(true, k.duration, dot), Classify(false, gap.duration, dot), Classify(true, l.duration, dot));
  }

  lemma TwoWords()
    ensures FistKinds(["E", "E"]) == [OnDit, OffWord, OnDit] && Truth(["E", "E"]) == "E E" && !FirstWordLost(["E", "E"])
  {
    OneLetter("E", OnDit);
    WordTwice("E", OnDit);
  }

  lemma WordTwice(w: string, k: Kind)
    requires w != "" && Shown(w, MorseForChar) == w && WordKinds(w, MorseForChar) == [k]
    ensures FistKinds([w, w]) == [k, OffWord, k] && Truth([w, w]) == w + " " + w && !FirstWordLost([w, w])
  {
    var words := [w, w];
    assert TextKinds(words, MorseForChar, 0) == [] && Canonical(words, MorseForChar, 0) == "";
    assert TextKinds(words, MorseForChar, 1) == [k, OffWord];
    assert Canonical(words, MorseForChar, 1) == "" + w == w;
  }

  lemma StretchAgainstSplit(kind: Kind, fist: Fist, i: nat, split: real)
    requires fist.dot > 0.0
    ensures Length(kind, fist, i) < split * fist.dot
       <==> Units(kind, fist.dahRatio, fist.ditWeight) * Factor(fist.jitter, fist.draw(i)) < split
  {
    Scaled(fist.dot, Units(kind, fist.dahRatio, fist.ditWeight) * Factor(fist.jitter, fist.draw(i)), split);
  }

  lemma WordGapTooShort(fist: Fist)
    requires fist.dot > 0.0 && fist.jitter > 2.0 / 7.0 && fist.draw(1) == -1.0
    ensures 0.0 < Length(OffWord, fist, 1) < 5.0 * fist.dot
  {
    StretchAgainstSplit(OffWord, fist, 1, 5.0);
    assert 0.1 <= Factor(fist.jitter, fist.draw(1)) < 5.0 / 7.0;
    Scaled(fist.dot, 0.0, 7.0 * Factor(fist.jitter, fist.draw(1)));
  }

  lemma LostBetweenWords(top: real, dot: real, jitter: real, dahRatio: real, ditWeight: real)
    requires 0.0 <= top <= 1.0 && dot > 0.0 && jitter > 2.0 / 7.0 && dahRatio > 0.0 && ditWeight > 0.0
    ensures !AlwaysComesBack(top, dot, jitter, dahRatio, ditWeight)
  {
    var fist := Fist(dot, jitter, dahRatio, ditWeight, (i: nat) => if i == 1 then -1.0 else 0.0);
    assert HasSettings(fist, top, dot, jitter, dahRatio, ditWeight);
    WordGapTooShort(fist);
    PairLost(fist, top, Lengths(fist));
  }

  lemma PairLost(fist: Fist, top: real, len: Lengther)
    requires ValidFist(fist, top) && len == Lengths(fist) && 0.0 < len(OffWord, 1) < 5.0 * fist.dot
    ensures !AlwaysComesBack(top, fist.dot, fist.jitter, fist.dahRatio, fist.ditWeight)
  {
    assert HasSettings(fist, top, fist.dot, fist.jitter, fist.dahRatio, fist.ditWeight);
    TwoWords();
    var k, gap, l := Keyed(OnDit, len(OnDit, 0)), Keyed(OffWord, len(OffWord, 1)), Keyed(OnDit, len(OnDit, 2));
    assert Timed([OnDit, OffWord, OnDit], len) == [k, gap, l];
    DecodedPairHasNoSpace(k, gap, l, fist.dot);
  }

  lemma LetterMisread(letter: string, kind: Kind, fist: Fist, top: real)
    requires (letter == "E" && kind == OnDit) || (letter == "T" && kind == OnDah)
    requires ValidFist(fist, top)
    requires kind.OnDit? <==> Units(kind, fist.dahRatio, fist.ditWeight) * Factor(fist.jitter, fist.draw(0)) >= 2.0
    ensures !AlwaysComesBack(top, fist.dot, fist.jitter, fist.dahRatio, fist.ditWeight)
  {
    StretchAgainstSplit(kind, fist, 0, 2.0);
    LetterLost(letter, kind, fist, top, Lengths(fist));
  }

  lemma LetterLost(letter: string, kind: Kind, fist: Fist, top: real, len: Lengther)
    requires (letter == "E" && kind == OnDit) || (letter == "T" && kind == OnDah)
    requires ValidFist(fist, top) && len == Lengths(fist)
    requires kind.OnDit? <==> len(kind, 0) >= 2.0 * fist.dot
    ensures !AlwaysComesBack(top, fist.dot, fist.jitter, fist.dahRatio, fist.ditWeight)
  {
    assert HasSettings(fist, top, fist.dot, fist.jitter, fist.dahRatio, fist.ditWeight);
    OneWord(letter, kind);
    DecodedLetter(kind, len, fist.dot);
  }

  lemma DecodedLetter(kind: Kind, len: Lengther, dot: real)
    requires kind.IsOn()
    ensures Decoded(Timed([kind], len), dot) == if len(kind, 0) >= 2.0 * dot then "T" else "E"
  {
    var k := Keyed(kind, len(kind, 0));
    assert Timed([kind], len) == [k];
    DecodedOne(k, dot);
  }

  lemma BoundsSuffice(top: real, dot: real, jitter: real, dahRatio: real, ditWeight: real)
    requires Survives(top, jitter, dahRatio, ditWeight)
    ensures AlwaysComesBack(top, dot, jitter, dahRatio, ditWeight)
  {
    forall words: seq<string>, fist: Fist | HasSettings(fist, top, dot, jitter, dahRatio, ditWeight) && !FirstWordLost(words)
      ensures Decoded(Timed(FistKinds(words), Lengths(fist)), dot) == Truth(words)
    {
      RoundTrip(words, fist, top);
    }
  }

  /**
    The bounds are sharp, whatever the largest draw: settings within them always come back,
    and settings outside them sometimes do not.
  */
  lemma BoundsAreSharpUpTo(top: real, dot: real, jitter: real, dahRatio: real, ditWeight: real)
    requires 0.0 <= top <= 1.0
    requires dot > 0.0 && jitter >= 0.0 && dahRatio > 0.0 && ditWeight > 0.0
    ensures AlwaysComesBack(top, dot, jitter, dahRatio, ditWeight) <==> Survives(top, jitter, dahRatio, ditWeight)
  {
    if Survives(top, jitter, dahRatio, ditWeight) {
      BoundsSuffice(top, dot, jitter, dahRatio, ditWeight);
    } else if jitter > 2.0 / 7.0 {
      LostBetweenWords(top, dot, jitter, dahRatio, ditWeight);
    } else if Times(ditWeight, Most(jitter, top)) >= 2.0 {
      FactorBounds(jitter, top, top);
      LetterMisread("E", OnDit, Fist(dot, jitter, dahRatio, ditWeight, (i: nat) => top), top);
    } else {
      LetterMisread("T", OnDah, Fist(dot, jitter, dahRatio, ditWeight, (i: nat) => -1.0), top);
    }
  }

  /** With the draws the generator makes, none above 0, jitter shortens elements and never lengthens them. */
  lemma BoundsAreSharp(dot: real, jitter: real, dahRatio: real, ditWeight: real)
    requires dot > 0.0 && jitter >= 0.0 && dahRatio > 0.0 && ditWeight > 0.0
    ensures AlwaysComesBack(TOP_DRAW, dot, jitter, dahRatio, ditWeight)
       <==> jitter <= 2.0 / 7.0 && ditWeight < 2.0 && dahRatio * (1.0 - jitter) >= 2.0
  {
    BoundsAreSharpUpTo(TOP_DRAW, dot, jitter, dahRatio, ditWeight);
    assert Most(jitter, TOP_DRAW) == 1.0;
  }

  /** At the nominal 1:3 elements the bound is a jitter of 2/7, with draws of either sign too. */
  lemma NominalTolerance(top: real, dot: real, jitter: real)
    requires 0.0 <= top <= 1.0 && dot > 0.0 && jitter >= 0.0
    ensures AlwaysComesBack(top, dot, jitter, 3.0, 1.0) <==> jitter <= 2.0 / 7.0
  {
    BoundsAreSharpUpTo(top, dot, jitter, 3.0, 1.0);
    if jitter <= 2.0 / 7.0 {
      FactorBounds(jitter, top, top);
    }
  }

  // ---------------------------------------------------------------------
  // A first word with nothing to encode
  // ---------------------------------------------------------------------

  /** The words "%" and "E": the percent sign is skipped, and the canonical text is a space and an E. */
  lemma LostFirstWord()
    ensures FirstWordLost(["%", "E"]) && Truth(["%", "E"]) == " E"
  {
    OneLetter("E", OnDit);
    NothingShown("%", '%');
    LostThenKept("%", "E");
  }

  lemma NothingShown(w: string, c: char)
    requires w == [c] && MorseForChar(c).None?
    ensures Shown(w, MorseForChar) == ""
  {
    assert w[..0] == "";
  }

  lemma LostThenKept(lost: string, kept: string)
    requires Shown(lost, MorseForChar) == "" && Shown(kept, MorseForChar) == kept && kept != ""
    ensures FirstWordLost([lost, kept]) && Truth([lost, kept]) == " " + kept
  {
    var words := [lost, kept];
    assert words[..1] == [lost] && [lost][..0] == [];
    assert Joined([lost], MorseForChar) == "";
    assert Joined(words, MorseForChar) == kept;
    CanonicalIsJoined(words, MorseForChar, 2);
    assert words[..2] == words;
  }
}
