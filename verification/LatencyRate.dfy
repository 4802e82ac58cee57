/** The latency bench's character error rate: the edit distance of texts with spacing and case evened out. */
module LatencyRate {
  import opened Arithmetic
  import opened EditDistance
  import opened Text
  import opened Tokens
  import opened Wrappers

  /** What upper-casing makes of one character: any table of texts. */
  type Casing = char -> string

  function Upper(word: string, upper: Casing): string {
    if word == "" then "" else Upper(word[..|word| - 1], upper) + upper(word[|word| - 1])
  }

  function UpperEach(words: seq<string>, upper: Casing): (r: seq<string>)
    ensures |r| == |words|
    ensures forall i :: 0 <= i < |r| ==> r[i] == Upper(words[i], upper)
  {
    if words == [] then [] else UpperEach(words[..|words| - 1], upper) + [Upper(words[|words| - 1], upper)]
  }

  /** The words, upper-cased, with single spaces between them. */
  function Evened(s: string, upper: Casing): string {
    Join(UpperEach(Split(s), upper))
  }

  // ---------------------------------------------------------------------
  // Splitting and joining at the end
  // ---------------------------------------------------------------------

  /** The words of a text one character longer. */
  function SplitNext(s: string, c: char): seq<string> {
    var words := Split(s);
    if IsWhitespace(c) then words
    else if s == "" || IsWhitespace(s[|s| - 1]) || words == [] then words + [[c]]
    else words[..|words| - 1] + [words[|words| - 1] + [c]]
  }

  lemma WordLenNext(s: string, c: char)
    ensures WordLen(s) < |s| ==> WordLen(s + [c]) == WordLen(s)
    ensures WordLen(s) == |s| ==> WordLen(s + [c]) == if IsWhitespace(c) then |s| else |s| + 1
  {
    var n := WordLen(s + [c]);
    assert forall i :: 0 <= i < |s| ==> (s + [c])[i] == s[i];
    assert (s + [c])[|s|] == c;
  }

  lemma {:induction false} SplitGrows(s: string, c: char)
    ensures Split(s + [c]) == SplitNext(s, c)
    decreases |s|
  {
    if s == "" {
      SplitOne(c);
    } else if IsWhitespace(s[0]) {
      SplitGrows(s[1..], c);
      assert (s + [c])[1..] == s[1..] + [c];
    } else {
      SplitGrowsWord(s, c);
    }
  }

  lemma SplitOne(c: char)
    ensures Split("" + [c]) == SplitNext("", c)
  {
    assert "" + [c] == [c] && [c][1..] == "";
    if !IsWhitespace(c) {
      assert WordLen([c]) == 1 && [c][..1] == [c] && [c][1..] == "";
    }
  }

  lemma {:induction false} SplitGrowsWord(s: string, c: char)
    requires s != "" && !IsWhitespace(s[0])
    ensures Split(s + [c]) == SplitNext(s, c)
    decreases |s|, 0
  {
    var n := WordLen(s);
    if n < |s| {
      SplitGrows(s[n..], c);
      SplitAfterWord(s, c);
    } else {
      SplitOneWord(s, c);
    }
  }

  lemma SplitAfterWord(s: string, c: char)
    requires s != "" && !IsWhitespace(s[0]) && WordLen(s) < |s|
    requires Split(s[WordLen(s)..] + [c]) == SplitNext(s[WordLen(s)..], c)
    ensures Split(s + [c]) == SplitNext(s, c)
  {
    var n := WordLen(s);
    WordLenNext(s, c);
    assert (s + [c])[..n] == s[..n] && (s + [c])[n..] == s[n..] + [c];
    assert Split(s) == [s[..n]] + Split(s[n..]);
    if !IsWhitespace(c) {
      PrependNext(s[..n], s[n..], c, s);
    }
  }

  lemma SplitWhole(s: string)
    requires s != "" && WordLen(s) == |s|
    ensures Split(s) == [s]
  {
    assert s[..|s|] == s && s[|s|..] == "";
  }

  lemma SplitWordThenSpace(s: string, c: char)
    requires s != "" && WordLen(s) == |s| && IsWhitespace(c)
    ensures Split(s + [c]) == [s]
  {
    WordLenNext(s, c);
    assert (s + [c])[..|s|] == s && (s + [c])[|s|..] == [c];
    assert [c][1..] == "" && Split([c]) == [];
  }

  lemma SplitOneWord(s: string, c: char)
    requires s != "" && WordLen(s) == |s|
    ensures Split(s + [c]) == SplitNext(s, c)
  {
    SplitWhole(s);
    if IsWhitespace(c) {
      SplitWordThenSpace(s, c);
    } else {
      WordLenNext(s, c);
      SplitWhole(s + [c]);
    }
  }

  lemma PrependNext(word: string, rest: string, c: char, s: string)
    requires !IsWhitespace(c) && rest != "" && s != "" && s[|s| - 1] == rest[|rest| - 1]
    requires IsWhitespace(rest[0]) && Split(s) == [word] + Split(rest)
    ensures SplitNext(s, c) == [word] + SplitNext(rest, c)
  {
    if !IsWhitespace(rest[|rest| - 1]) {
      WordsRemain(rest);
      PrependLonger(word, Split(rest), c);
    }
  }

  lemma PrependLonger(word: string, words: seq<string>, c: char)
    requires words != []
    ensures var all := [word] + words;
            all[..|all| - 1] + [all[|all| - 1] + [c]] == [word] + (words[..|words| - 1] + [words[|words| - 1] + [c]])
  {}

  /** A text that ends in a word has one. */
  lemma {:induction false} WordsRemain(s: string)
    requires s != "" && !IsWhitespace(s[|s| - 1])
    ensures Split(s) != []
    decreases |s|
  {
    if IsWhitespace(s[0]) {
      WordsRemain(s[1..]);
    }
  }

  lemma {:induction false} JoinGrows(words: seq<string>, word: string)
    ensures Join(words + [word]) == if words == [] then word else Join(words) + " " + word
  {
    if |words| > 0 {
      JoinGrows(words[1..], word);
      assert (words + [word])[1..] == words[1..] + [word];
      if |words| > 1 {
        assert words[0] + " " + (Join(words[1..]) + " " + word) == words[0] + " " + Join(words[1..]) + " " + word;
      }
    }
  }

  lemma UpperGrows(word: string, c: char, upper: Casing)
    ensures Upper(word + [c], upper) == Upper(word, upper) + upper(c)
  {
    assert (word + [c])[..|word|] == word;
  }

  lemma UpperEachGrows(words: seq<string>, word: string, upper: Casing)
    ensures UpperEach(words + [word], upper) == UpperEach(words, upper) + [Upper(word, upper)]
  {
    assert (words + [word])[..|words|] == words;
  }

  lemma NewWord(words: seq<string>, c: char, upper: Casing)
    ensures Join(UpperEach(words + [[c]], upper))
         == Join(UpperEach(words, upper)) + ((if words != [] then " " else "") + upper(c))
  {
    UpperGrows("", c, upper);
    assert "" + [c] == [c] && "" + upper(c) == upper(c);
    UpperEachGrows(words, [c], upper);
    JoinGrows(UpperEach(words, upper), upper(c));
    Regroup(Join(UpperEach(words, upper)), upper(c));
  }

  lemma Regroup(text: string, more: string)
    ensures text + " " + more == text + (" " + more)
    ensures "" + ("" + more) == more
  {}

  lemma LongerWord(init: seq<string>, last: string, c: char, upper: Casing)
    ensures Join(UpperEach(init + [last + [c]], upper)) == Join(UpperEach(init + [last], upper)) + upper(c)
  {
    UpperGrows(last, c, upper);
    UpperEachGrows(init, last, upper);
    UpperEachGrows(init, last + [c], upper);
    JoinLonger(UpperEach(init, upper), Upper(last, upper), upper(c));
  }

  lemma JoinLonger(words: seq<string>, word: string, more: string)
    ensures Join(words + [word + more]) == Join(words + [word]) + more
  {
    JoinGrows(words, word);
    JoinGrows(words, word + more);
    var head := Join(words) + " ";
    assert head + (word + more) == head + word + more;
  }

  /** What one more character adds to the evened text. */
  function Added(s: string, c: char, upper: Casing): string {
    if IsWhitespace(c) then ""
    else (if (s == "" || IsWhitespace(s[|s| - 1])) && Split(s) != [] then " " else "") + upper(c)
  }

  lemma EvenedGrows(s: string, c: char, upper: Casing)
    ensures Evened(s + [c], upper) == Evened(s, upper) + Added(s, c, upper)
  {
    var words := Split(s);
    SplitGrows(s, c);
    if s != "" && !IsWhitespace(s[|s| - 1]) {
      WordsRemain(s);
    }
    if IsWhitespace(c) {
      assert Evened(s, upper) + "" == Evened(s, upper);
    } else if s == "" || IsWhitespace(s[|s| - 1]) {
      NewWord(words, c, upper);
    } else {
      assert words == words[..|words| - 1] + [words[|words| - 1]];
      LongerWord(words[..|words| - 1], words[|words| - 1], c, upper);
      assert "" + upper(c) == upper(c);
    }
  }

  // ---------------------------------------------------------------------
  // The bench's normalisation
  // ---------------------------------------------------------------------

  lemma {:induction false} TrimEndKeepsWords(s: string)
    ensures Split(TrimEnd(s)) == Split(s)
  {
    if s != "" && IsWhitespace(s[|s| - 1]) {
      TrimEndKeepsWords(s[..|s| - 1]);
      SplitGrows(s[..|s| - 1], s[|s| - 1]);
      assert s[..|s| - 1] + [s[|s| - 1]] == s;
    }
  }

  lemma {:induction false} TrimStartKeepsWords(s: string)
    ensures Split(TrimStart(s)) == Split(s)
    ensures TrimStart(s) != "" ==> !IsWhitespace(TrimStart(s)[0])
  {
    if s != "" && IsWhitespace(s[0]) {
      TrimStartKeepsWords(s[1..]);
    }
  }

  /** The loop's state after the first i characters of a trimmed text. */
  ghost predicate EvenedSoFar(t: string, i: nat, out: string, prevSpace: bool, upper: Casing)
    requires i <= |t|
  {
    && (prevSpace <==> i > 0 && IsWhitespace(t[i - 1]))
    && (i > 0 ==> Split(t[..i]) != [])
    && out == Evened(t[..i], upper) + if prevSpace then " " else ""
  }

  lemma EvenedNext(t: string, i: nat, out: string, prevSpace: bool, upper: Casing)
    requires i < |t| && !IsWhitespace(t[0]) && EvenedSoFar(t, i, out, prevSpace, upper)
    ensures IsWhitespace(t[i]) ==> EvenedSoFar(t, i + 1, if prevSpace then out else out + " ", true, upper)
    ensures !IsWhitespace(t[i]) ==> EvenedSoFar(t, i + 1, out + upper(t[i]), false, upper)
  {
    var s, c := t[..i], t[i];
    assert t[..i + 1] == s + [c] && (i > 0 ==> s[|s| - 1] == t[i - 1]);
    EvenedGrows(s, c, upper);
    SplitGrows(s, c);
    SpacedAdds(Evened(s, upper), upper(c));
    assert Evened(s, upper) + "" == Evened(s, upper);
  }

  lemma SpacedAdds(text: string, more: string)
    ensures text + " " + more == text + (" " + more) && text + ("" + more) == text + more && text + "" + more == text + more
  {}

  method NormaliseForCer(s: string, upper: Casing) returns (out: string)
    ensures out == Evened(s, upper)
  {
    var t := Trim(s);
    TrimEndKeepsWords(s);
    TrimStartKeepsWords(TrimEnd(s));
    TrimmedEnds(s);
    out := "";
    var prevSpace := false;
    assert t[..0] == "" && Evened("", upper) == "";
    for i := 0 to |t|
      invariant EvenedSoFar(t, i, out, prevSpace, upper)
    {
      EvenedNext(t, i, out, prevSpace, upper);
      var c := t[i];
      if IsWhitespace(c) {
        if !prevSpace {
          out := out + " ";
          prevSpace := true;
        }
      } else {
        out := out + upper(c);
        prevSpace := false;
      }
    }
    assert t[..|t|] == t && Evened(t, upper) + "" == Evened(t, upper);
  }

  lemma {:induction false} TrimStartEnds(s: string)
    requires s != "" ==> !IsWhitespace(s[|s| - 1])
    ensures TrimStart(s) != "" ==> !IsWhitespace(TrimStart(s)[|TrimStart(s)| - 1])
  {
    if s != "" && IsWhitespace(s[0]) {
      TrimStartEnds(s[1..]);
    }
  }

  lemma TrimmedEnds(s: string)
    ensures Trim(s) != "" ==> !IsWhitespace(Trim(s)[|Trim(s)| - 1])
  {
    TrimStartEnds(TrimEnd(s));
  }

  /** No rate for two texts without words; otherwise the distance over the larger length, of the evened texts. */
  method CharacterErrorRate(transcript: string, truth: string, upper: Casing) returns (rate: Option<real>)
    ensures var a, b := Evened(transcript, upper), Evened(truth, upper);
            && (rate.None? <==> a == "" && b == "")
            && (rate.Some? ==>
                  && rate.value == Lev(a, b) as real / Max(|a|, |b|) as real
                  && 0.0 <= rate.value <= 1.0 && (rate.value == 0.0 <==> a == b))
  {
    var a := NormaliseForCer(transcript, upper);
    var b := NormaliseForCer(truth, upper);
    if a == "" && b == "" {
      return None;
    }
    var n, m := |a|, |b|;
    LevZero(a, b);
    LevLengths(a, b);
    RatioInUnit(Lev(a, b), Max(n, m));
    if n == 0 || m == 0 {
      return Some(1.0);
    }
    var dist := TwoRowDistance(a, b);
    return Some(dist as real / Max(n, m) as real);
  }

  lemma RatioInUnit(d: nat, n: nat)
    requires d <= n && n > 0
    ensures 0.0 <= d as real / n as real <= 1.0
    ensures d as real / n as real == 0.0 <==> d == 0
    ensures d == n ==> d as real / n as real == 1.0
  {
    var q := d as real / n as real;
    assert q * n as real == d as real;
  }
}
