/** What the two Morse encoders key for a text, and that one pass over it copies the text. */
module Encoding {
  import opened Wrappers
  import opened Text
  import opened MorseCode
  import opened Keying

  /** A character table: the code of every character that can be sent. */
  type Encoder = char -> Option<string>

  ghost predicate Sends(table: Encoder) {
    forall c :: table(c).Some? ==> IsCode(table(c).value) && MorseToChar(table(c).value) == Some(ToAsciiUppercase(c))
  }

  lemma TablesSend()
    ensures Sends(MorseForChar) && Sends(SuiteMorse)
  {
    forall c | MorseForChar(c).Some?
      ensures IsCode(MorseForChar(c).value) && MorseToChar(MorseForChar(c).value) == Some(ToAsciiUppercase(c))
    {
      TableRoundTrip(c);
    }
  }

  function OnKind(element: char): Kind { if element == '.' then OnDit else OnDah }

  /** One character: its elements with intra-character gaps between them. */
  function CharKinds(code: string): seq<Kind> {
    if code == [] then []
    else
      CharKinds(code[..|code| - 1]) + (if |code| == 1 then [] else [OffIntra]) + [OnKind(code[|code| - 1])]
  }

  /** What is sent of a word: its encodable characters, in upper case. */
  function Shown(word: string, table: Encoder): string {
    if word == [] then ""
    else
      var c := word[|word| - 1];
      Shown(word[..|word| - 1], table) + if table(c).Some? then [ToAsciiUppercase(c)] else ""
  }

  /** The words of which something is sent, one space between them. */
  function Joined(words: seq<string>, table: Encoder): string {
    if words == [] then "" else Attach(Joined(words[..|words| - 1], table), Shown(words[|words| - 1], table))
  }

  function Attach(text: string, word: string): string {
    if word == "" then text else if text == "" then word else text + " " + word
  }

  lemma JoinedNext(words: seq<string>, table: Encoder, i: nat)
    requires i < |words|
    ensures Joined(words[..i + 1], table) == Attach(Joined(words[..i], table), Shown(words[i], table))
  {
    assert words[..i + 1][..i] == words[..i];
  }

  /** The length an encoder gives the i-th stretch it keys. */
  type Lengther = (Kind, nat) -> real

  function Timed(kinds: seq<Kind>, len: Lengther): seq<Keyed> {
    seq(|kinds|, i requires 0 <= i < |kinds| => Keyed(kinds[i], len(kinds[i], i)))
  }

  // ---------------------------------------------------------------------
  // One pass over one character
  // ---------------------------------------------------------------------

  /** One more element of a character, with the gap before it unless it is the first. */
  lemma PlayNextElement(kinds: seq<Kind>, sent: seq<Kind>, text: string, code: string, e: char, read: Reader)
    requires Play(kinds + sent, read) == Copy(text, code) && (e == '.' || e == '-')
    ensures Play(kinds + (sent + (if code == [] then [] else [OffIntra]) + [OnKind(e)]), read) == Copy(text, code + [e])
  {
    if code == [] {
      assert kinds + (sent + [] + [OnKind(e)]) == kinds + sent + [OnKind(e)];
      PlayAppend(kinds + sent, OnKind(e), read);
    } else {
      assert kinds + (sent + [OffIntra] + [OnKind(e)]) == kinds + sent + [OffIntra] + [OnKind(e)];
      PlayAppend(kinds + sent, OffIntra, read);
      PlayAppend(kinds + sent + [OffIntra], OnKind(e), read);
    }
  }

  lemma CharKindsNext(init: string, e: char)
    ensures CharKinds(init + [e]) == CharKinds(init) + (if init == [] then [] else [OffIntra]) + [OnKind(e)]
  {
    assert (init + [e])[..|init|] == init;
  }

  lemma PlayOneMore(kinds: seq<Kind>, init: string, e: char, text: string, read: Reader)
    requires Play(kinds + CharKinds(init), read) == Copy(text, init) && (e == '.' || e == '-')
    ensures Play(kinds + CharKinds(init + [e]), read) == Copy(text, init + [e])
  {
    CharKindsNext(init, e);
    PlayNextElement(kinds, CharKinds(init), text, init, e, read);
  }

  lemma {:induction false} PlayChar(kinds: seq<Kind>, code: string, read: Reader)
    requires Play(kinds, read).pending == "" && (forall i :: 0 <= i < |code| ==> code[i] == '.' || code[i] == '-')
    ensures Play(kinds + CharKinds(code), read) == Copy(Play(kinds, read).text, code)
    decreases |code|
  {
    if code == [] {
      assert kinds + CharKinds([]) == kinds;
    } else {
      var init, e := code[..|code| - 1], code[|code| - 1];
      PlayChar(kinds, init, read);
      assert init + [e] == code;
      PlayOneMore(kinds, init, e, Play(kinds, read).text, read);
    }
  }

  /** Text is shown so far; of the last character only the flush may be missing. */
  ghost predicate Reads(c: Copy, text: string, read: Reader) {
    Flush(c, read) == Copy(text, "")
  }

  lemma PlaySentChar(kinds: seq<Kind>, c: char, table: Encoder)
    requires Sends(table) && table(c).Some? && Play(kinds, BatchChar).pending == ""
    ensures Reads(Play(kinds + CharKinds(table(c).value), BatchChar),
                  Play(kinds, BatchChar).text + [ToAsciiUppercase(c)], BatchChar)
  {
    PlayChar(kinds, table(c).value, BatchChar);
  }

  lemma {:induction false} ShownIsPrintable(word: string, table: Encoder)
    requires Sends(table)
    ensures forall i :: 0 <= i < |Shown(word, table)| ==>
      '!' <= Shown(word, table)[i] <= '_' && Shown(word, table)[i] != UNKNOWN_BATCH
  {
    if word != [] {
      ShownIsPrintable(word[..|word| - 1], table);
      var c := word[|word| - 1];
      if table(c).Some? {
        DecodedIsPrintable(table(c).value);
      }
    }
  }

  lemma {:induction false} JoinedEndsPrintable(words: seq<string>, table: Encoder)
    requires Sends(table)
    ensures var t := Joined(words, table); t != "" ==> '!' <= t[0] <= '_' && '!' <= t[|t| - 1] <= '_'
  {
    if words != [] {
      JoinedEndsPrintable(words[..|words| - 1], table);
      ShownIsPrintable(words[|words| - 1], table);
    }
  }

  lemma {:induction false} JoinedHasNoMark(words: seq<string>, table: Encoder)
    requires Sends(table)
    ensures Remark(Joined(words, table)) == Joined(words, table)
  {
    if words != [] {
      JoinedHasNoMark(words[..|words| - 1], table);
      ShownIsPrintable(words[|words| - 1], table);
      RemarkAttach(Joined(words[..|words| - 1], table), Shown(words[|words| - 1], table));
    }
  }

  lemma RemarkAttach(text: string, word: string)
    requires Remark(text) == text && forall i :: 0 <= i < |word| ==> word[i] != UNKNOWN_BATCH
    ensures Remark(Attach(text, word)) == Attach(text, word)
  {
    forall i | 0 <= i < |text| ensures text[i] == Remark(text)[i] {
    }
  }

  lemma JoinedIsTrimmed(words: seq<string>, table: Encoder)
    requires Sends(table)
    ensures TrimEnd(Joined(words, table)) == Joined(words, table) == TrimEnd(Joined(words, table) + " ")
    ensures !EndsWithSpace(Joined(words, table))
  {
    JoinedEndsPrintable(words, table);
    TrimSpace(Joined(words, table));
  }

  /** After a word that is not the last: the words so far and, unless nothing was sent yet, a space. */
  function Spaced(words: seq<string>, table: Encoder): string {
    var t := Joined(words, table);
    if t == "" then "" else t + " "
  }

  lemma PlayWordGap(kinds: seq<Kind>, words: seq<string>, table: Encoder)
    requires Sends(table)
    requires Reads(Play(kinds, BatchChar), Joined(words, table), BatchChar)
             || Reads(Play(kinds, BatchChar), Spaced(words, table), BatchChar)
    ensures Play(kinds + [OffWord], BatchChar) == Copy(Spaced(words, table), "")
  {
    PlayAppend(kinds, OffWord, BatchChar);
    JoinedIsTrimmed(words, table);
  }

  // ---------------------------------------------------------------------
  // No two elements, and no two gaps, run together
  // ---------------------------------------------------------------------

  ghost predicate StartsOn(kinds: seq<Kind>) { kinds != [] ==> kinds[0].IsOn() }

  ghost predicate EndsOn(kinds: seq<Kind>) { kinds != [] ==> kinds[|kinds| - 1].IsOn() }

  lemma WellKeyedJoin(left: seq<Kind>, right: seq<Kind>)
    requires WellKeyed(left) && WellKeyed(right)
    requires left != [] && right != [] ==> Adjacent(left[|left| - 1], right[0])
    ensures WellKeyed(left + right)
  {
    forall i | 0 <= i < |left + right| - 1 ensures Adjacent((left + right)[i], (left + right)[i + 1]) {
      if i < |left| - 1 {
        assert Adjacent(left[i], left[i + 1]);
      } else if i >= |left| {
        assert Adjacent(right[i - |left|], right[i - |left| + 1]);
      }
    }
  }

  lemma {:induction false} CharKeyed(code: string)
    ensures var k := CharKinds(code); WellKeyed(k) && StartsOn(k) && EndsOn(k)
  {
    if code != [] {
      CharKeyed(code[..|code| - 1]);
      var e := OnKind(code[|code| - 1]);
      if |code| > 1 {
        assert CharKinds(code) == CharKinds(code[..|code| - 1]) + [OffIntra, e];
        WellKeyedJoin(CharKinds(code[..|code| - 1]), [OffIntra, e]);
      }
    }
  }

  /** What the decoder prints for a keyed signal at the nominal dot. */
  ghost function Decoded(keyed: seq<Keyed>, dot: real): string {
    var h := Listen(keyed);
    Copied(Interleave(h.ons, h.offs, dot, |h.ons|), BatchChar)
  }

  // ---------------------------------------------------------------------
  // Two elements and the gap between them
  // ---------------------------------------------------------------------

  lemma ListenPair(k: Keyed, gap: Keyed, l: Keyed)
    requires k.kind.IsOn() && l.kind.IsOn() && !gap.kind.IsOn() && gap.duration > 0.0
    ensures Listen([k, gap, l]) == Heard([k.duration, l.duration], [gap.duration], 0.0)
  {
    assert [k, gap, l][..2] == [k, gap] && [k, gap][..1] == [k] && [k][..0] == [];
    assert Listen([k]) == Heard([k.duration], [], 0.0);
    assert Listen([k, gap]) == Heard([k.duration], [], 0.0 + gap.duration);
    assert [k.duration] + [l.duration] == [k.duration, l.duration] && [] + [gap.duration] == [gap.duration];
  }

  lemma InterleavePair(k: real, gap: real, l: real, dot: real)
    ensures Interleave([k, l], [gap], dot, 2) == [Classify(true, k, dot), Classify(false, gap, dot), Classify(true, l, dot)]
  {
    assert Interleave([k, l], [gap], dot, 0) == [];
    assert Interleave([k, l], [gap], dot, 1) == [Classify(true, k, dot), Classify(false, gap, dot)];
  }

  lemma LettersOfOneElement()
    ensures BatchChar(".") == 'E' && BatchChar("-") == 'T'
  {
  }
}
