/** Committing what several overlapping decodes of the same audio agree on. */
module Stabilizer {
  import opened Text
  import opened Tokens

  // ---------------------------------------------------------------------
  // Normal snapshots
  // ---------------------------------------------------------------------

  ghost predicate NoSplitQ(s: string) {
    forall i :: 0 <= i < |s| - 1 && s[i] == 'G' ==> s[i + 1] != 'T'
  }

  /** Tokens separated by single spaces, and no Q heard as a G and a T. */
  ghost predicate Clean(s: string) {
    Normal(s) && NoSplitQ(s)
  }

  /** Every "GT" replaced by "Q", from the left. */
  function Repair(token: string): string {
    if |token| < 2 then token
    else if token[0] == 'G' && token[1] == 'T' then "Q" + Repair(token[2..])
    else [token[0]] + Repair(token[1..])
  }

  function RepairEach(tokens: seq<string>): (r: seq<string>)
    ensures |r| == |tokens|
    ensures forall i :: 0 <= i < |r| ==> r[i] == Repair(tokens[i])
  {
    if tokens == [] then [] else [Repair(tokens[0])] + RepairEach(tokens[1..])
  }

  function Normalize(text: string): string {
    Join(RepairEach(Split(Join(Split(text)))))
  }

  lemma {:induction false} RepairToken(t: string)
    ensures NoSplitQ(Repair(t))
    ensures t == "" <==> Repair(t) == ""
    ensures t != "" && Repair(t)[0] == 'T' ==> t[0] == 'T'
    ensures IsToken(t) ==> IsToken(Repair(t))
  {
    if |t| >= 2 {
      var n := if t[0] == 'G' && t[1] == 'T' then 2 else 1;
      RepairToken(t[n..]);
      var head := if n == 2 then 'Q' else t[0];
      assert Repair(t) == [head] + Repair(t[n..]);
      if IsToken(t) {
        assert forall i :: 0 <= i < |t[n..]| ==> t[n..][i] == t[i + n];
        assert !IsWhitespace(head);
        assert t[n..] == "" || IsToken(t[n..]);
      }
    }
  }

  lemma {:induction false} RepairChangesNothing(t: string)
    requires NoSplitQ(t)
    ensures Repair(t) == t
  {
    if |t| >= 2 {
      assert forall i :: 0 <= i < |t[1..]| ==> t[1..][i] == t[i + 1];
      RepairChangesNothing(t[1..]);
    }
  }

  lemma {:induction false} JoinHasNoSplitQ(ts: seq<string>)
    requires forall i :: 0 <= i < |ts| ==> NoSplitQ(ts[i])
    ensures NoSplitQ(Join(ts))
  {
    if |ts| == 1 {
      assert NoSplitQ(ts[0]);
    } else if |ts| > 1 {
      JoinHasNoSplitQ(ts[1..]);
      SpacedHasNoSplitQ(ts[0], Join(ts[1..]));
    }
  }

  lemma SpacedHasNoSplitQ(a: string, b: string)
    requires NoSplitQ(a) && NoSplitQ(b)
    ensures NoSplitQ(a + " " + b)
  {
    var s := a + " " + b;
    forall i | 0 <= i < |s| - 1 && s[i] == 'G'
      ensures s[i + 1] != 'T'
    {
      if i < |a| - 1 {
        assert s[i] == a[i] && s[i + 1] == a[i + 1];
      } else if i > |a| {
        assert s[i] == b[i - |a| - 1] && s[i + 1] == b[i - |a|];
      }
    }
  }

  lemma {:induction false} SplitHasNoSplitQ(s: string)
    requires NoSplitQ(s)
    ensures forall i :: 0 <= i < |Split(s)| ==> NoSplitQ(Split(s)[i])
    decreases |s|
  {
    if s != "" {
      if IsWhitespace(s[0]) {
        assert forall i :: 0 <= i < |s[1..]| ==> s[1..][i] == s[i + 1];
        SplitHasNoSplitQ(s[1..]);
      } else {
        var n := WordLen(s);
        assert forall i :: 0 <= i < |s[n..]| ==> s[n..][i] == s[i + n];
        SplitHasNoSplitQ(s[n..]);
        assert NoSplitQ(s[..n]);
      }
    }
  }

  /** Whatever the text, its normal form is clean; a clean text is its own normal form. */
  lemma NormalizeCleans(text: string)
    ensures Clean(Normalize(text))
    ensures Clean(text) <==> Normalize(text) == text
  {
    SplitTokens(text);
    SplitOfJoin(Split(text));
    var ts := RepairEach(Split(text));
    forall i | 0 <= i < |ts|
      ensures NoSplitQ(ts[i]) && IsToken(ts[i])
    {
      assert IsToken(Split(text)[i]);
      RepairToken(Split(text)[i]);
    }
    JoinNormal(ts);
    JoinHasNoSplitQ(ts);
    if Clean(text) {
      SplitOfNormal(text);
      SplitHasNoSplitQ(text);
      forall i | 0 <= i < |ts|
        ensures ts[i] == Split(text)[i]
      {
        RepairChangesNothing(Split(text)[i]);
      }
      assert ts == Split(text);
    }
  }

  lemma NormalizeIsIdempotent(text: string)
    ensures Normalize(Normalize(text)) == Normalize(text)
  {
    NormalizeCleans(text);
    NormalizeCleans(Normalize(text));
  }

  // ---------------------------------------------------------------------
  // What normalizing keeps
  // ---------------------------------------------------------------------

  /** The letters of a text without its whitespace, every Q written as the G and T it may be heard as. */
  function Letters(s: string): string {
    if s == "" then "" else Letter(s[0]) + Letters(s[1..])
  }

  function Letter(c: char): string {
    if IsWhitespace(c) then "" else if c == 'Q' then "GT" else [c]
  }

  function LettersOf(ts: seq<string>): string {
    if ts == [] then "" else Letters(ts[0]) + LettersOf(ts[1..])
  }

  lemma {:induction false} LettersAppend(a: string, b: string)
    ensures Letters(a + b) == Letters(a) + Letters(b)
  {
    if a == "" {
      assert a + b == b;
    } else {
      LettersAppend(a[1..], b);
      assert (a + b)[1..] == a[1..] + b;
      Regroup(Letter(a[0]), Letters(a[1..]), Letters(b));
    }
  }

  lemma Regroup(a: string, b: string, c: string)
    ensures a + (b + c) == a + b + c
  {
  }

  lemma {:induction false} LettersOfRepaired(t: string)
    ensures Letters(Repair(t)) == Letters(t)
  {
    if |t| >= 2 {
      if t[0] == 'G' && t[1] == 'T' {
        LettersOfRepaired(t[2..]);
        LettersAppend("Q", Repair(t[2..]));
        LettersAppend("GT", t[2..]);
        assert t == "GT" + t[2..];
        LettersOfQ();
      } else {
        LettersOfRepaired(t[1..]);
        LettersAppend([t[0]], Repair(t[1..]));
        LettersAppend([t[0]], t[1..]);
        assert t == [t[0]] + t[1..];
      }
    }
  }

  lemma LettersOfQ()
    ensures Letters("Q") == "GT" == Letters("GT")
  {
    assert Letters("T") == "T" + Letters("");
    assert "GT"[1..] == "T";
  }

  lemma {:induction false} LettersOfSplit(s: string)
    ensures Letters(s) == LettersOf(Split(s))
    decreases |s|
  {
    if s != "" {
      if IsWhitespace(s[0]) {
        LettersOfSplit(s[1..]);
      } else {
        var n := WordLen(s);
        LettersOfSplit(s[n..]);
        LettersAppend(s[..n], s[n..]);
        assert s == s[..n] + s[n..];
      }
    }
  }

  lemma {:induction false} LettersOfSame(ts: seq<string>, us: seq<string>)
    requires |ts| == |us| && forall i :: 0 <= i < |ts| ==> Letters(ts[i]) == Letters(us[i])
    ensures LettersOf(ts) == LettersOf(us)
  {
    if ts != [] {
      LettersOfSame(ts[1..], us[1..]);
    }
  }

  /** The two texts have equally many tokens, and token by token the same letters. */
  ghost predicate SameLetters(s: string, text: string) {
    && |Split(s)| == |Split(text)|
    && forall i :: 0 <= i < |Split(s)| ==> Letters(Split(s)[i]) == Letters(Split(text)[i])
  }

  /** Normalizing loses no letter and moves none to another token; without a split Q it keeps every token. */
  lemma NormalizeKeeps(text: string)
    ensures SameLetters(Normalize(text), text)
    ensures Letters(Normalize(text)) == Letters(text)
    ensures NoSplitQ(text) ==> Split(Normalize(text)) == Split(text)
  {
    SplitTokens(text);
    SplitOfJoin(Split(text));
    var ts := RepairEach(Split(text));
    forall i | 0 <= i < |ts|
      ensures IsToken(ts[i]) && Letters(ts[i]) == Letters(Split(text)[i])
    {
      assert IsToken(Split(text)[i]);
      RepairToken(Split(text)[i]);
      LettersOfRepaired(Split(text)[i]);
    }
    SplitOfJoin(ts);
    LettersOfSame(ts, Split(text));
    LettersOfSplit(text);
    LettersOfSplit(Normalize(text));
    if NoSplitQ(text) {
      SplitHasNoSplitQ(text);
      forall i | 0 <= i < |ts|
        ensures ts[i] == Split(text)[i]
      {
        RepairChangesNothing(Split(text)[i]);
      }
    }
  }

  /** So the normal form is the only clean text with the same letters in every token. */
  lemma NormalFormIsUnique(text: string, s: string)
    ensures s == Normalize(text) <==> Clean(s) && SameLetters(s, text)
  {
    NormalizeCleans(text);
    NormalizeKeeps(text);
    if Clean(s) && SameLetters(s, text) {
      var n := Normalize(text);
      SplitOfNormal(s);
      SplitOfNormal(n);
      SplitHasNoSplitQ(s);
      SplitHasNoSplitQ(n);
      SplitTokens(s);
      SplitTokens(n);
      forall i | 0 <= i < |Split(s)|
        ensures Split(s)[i] == Split(n)[i]
      {
        assert IsToken(Split(s)[i]) && IsToken(Split(n)[i]);
        LettersDetermine(Split(s)[i], Split(n)[i]);
      }
      assert Split(s) == Split(n);
    }
  }

  /** Of the words with the same letters only one has no split Q. */
  lemma {:induction false} LettersDetermine(x: string, y: string)
    requires NoSplitQ(x) && NoSplitQ(y) && Letters(x) == Letters(y)
    requires forall i :: 0 <= i < |x| ==> !IsWhitespace(x[i])
    requires forall i :: 0 <= i < |y| ==> !IsWhitespace(y[i])
    ensures x == y
  {
    if x != "" && y != "" {
      QComesFirst(x);
      QComesFirst(y);
      TailLetters(x, y);
      assert forall i :: 0 <= i < |x[1..]| ==> x[1..][i] == x[i + 1];
      assert forall i :: 0 <= i < |y[1..]| ==> y[1..][i] == y[i + 1];
      LettersDetermine(x[1..], y[1..]);
      HeadAndTail(x, y);
    }
  }

  lemma HeadAndTail(x: string, y: string)
    requires x != "" && y != "" && x[0] == y[0] && x[1..] == y[1..]
    ensures x == y
  {
    assert x == [x[0]] + x[1..] && y == [y[0]] + y[1..];
  }

  lemma TailLetters(x: string, y: string)
    requires x != "" && y != "" && Letters(x) == Letters(y) && (x[0] == 'Q' <==> y[0] == 'Q')
    requires !IsWhitespace(x[0]) && !IsWhitespace(y[0])
    ensures x[0] == y[0] && Letters(x[1..]) == Letters(y[1..])
  {
    var n := |Letter(x[0])|;
    assert Letters(x)[0] == Letter(x[0])[0] && Letters(y)[0] == Letter(y[0])[0];
    assert Letters(x)[n..] == Letters(x[1..]) && Letters(y)[n..] == Letters(y[1..]);
  }

  /** A word without a split Q begins with Q exactly when its letters begin with a G and a T. */
  lemma QComesFirst(x: string)
    requires x != "" && NoSplitQ(x) && forall i :: 0 <= i < |x| ==> !IsWhitespace(x[i])
    ensures x[0] == 'Q' <==> |Letters(x)| >= 2 && Letters(x)[0] == 'G' && Letters(x)[1] == 'T'
  {
    var rest := x[1..];
    assert Letters(x) == Letter(x[0]) + Letters(rest);
    if x[0] != 'Q' {
      assert Letter(x[0]) == [x[0]];
      if rest != "" {
        assert Letters(rest) == Letter(x[1]) + Letters(rest[1..]);
      }
    }
  }

  // ---------------------------------------------------------------------
  // Tokens of clean texts
  // ---------------------------------------------------------------------

  /** A clean text begins with its first n tokens joined. */
  lemma FirstTokens(s: string, n: nat)
    requires Clean(s) && n <= |Split(s)|
    ensures Join(Split(s)[..n]) <= s
    ensures Clean(Join(Split(s)[..n]))
    ensures n > 0 ==> |Join(Split(s)[..n])| == TotalLength(Split(s)[..n]) + n - 1
    ensures 0 < n < |Split(s)| ==> s == Join(Split(s)[..n]) + " " + Join(Split(s)[n..])
  {
    var ts := Split(s);
    SplitTokens(s);
    SplitOfNormal(s);
    assert forall i :: 0 <= i < n ==> ts[..n][i] == ts[i];
    JoinNormal(ts[..n]);
    if n > 0 {
      JoinLength(ts[..n]);
      if n < |ts| {
        JoinSplitsAt(ts, n);
      } else {
        assert ts[..n] == ts;
      }
    }
    var head := Join(ts[..n]);
    assert forall i :: 0 <= i < |head| ==> head[i] == s[i];
  }

  lemma LastTokens(s: string, n: nat)
    requires Normal(s) && n <= |Split(s)|
    ensures var tail := Join(Split(s)[|Split(s)| - n..]); |tail| <= |s| && s[|s| - |tail|..] == tail
    ensures n > 0 ==> Join(Split(s)[|Split(s)| - n..]) != ""
  {
    var ts := Split(s);
    SplitTokens(s);
    SplitOfNormal(s);
    var from := |ts| - n;
    assert forall i :: 0 <= i < n ==> ts[from..][i] == ts[from + i];
    JoinNormal(ts[from..]);
    if 0 < from < |ts| {
      JoinSplitsAt(ts, from);
    } else if from == 0 {
      assert ts[from..] == ts;
    }
  }

  lemma TokensFrom(s: string, from: nat)
    requires Clean(s) && from <= |Split(s)|
    ensures Clean(Join(Split(s)[from..]))
  {
    var ts := Split(s);
    SplitTokens(s);
    SplitHasNoSplitQ(s);
    assert forall i :: 0 <= i < |ts[from..]| ==> ts[from..][i] == ts[from + i];
    JoinNormal(ts[from..]);
    JoinHasNoSplitQ(ts[from..]);
  }

  // ---------------------------------------------------------------------
  // What two texts share
  // ---------------------------------------------------------------------

  predicate OccursAt(s: string, t: string, i: nat) {
    i + |t| <= |s| && s[i..i + |t|] == t
  }

  /** Where t first occurs in s at or after i, or |s| + 1. */
  function FindFrom(s: string, t: string, i: nat): (k: nat)
    requires i <= |s| + 1
    ensures i <= k <= |s| + 1
    ensures k <= |s| ==> OccursAt(s, t, k)
    ensures forall j :: i <= j < k ==> !OccursAt(s, t, j)
    decreases |s| + 1 - i
  {
    if i > |s| then i else if OccursAt(s, t, i) then i else FindFrom(s, t, i + 1)
  }

  predicate Contains(s: string, t: string)
    ensures Contains(s, t) <==> exists i :: OccursAt(s, t, i)
  {
    FindFrom(s, t, 0) <= |s|
  }

  predicate EndsWith(s: string, t: string) {
    |t| <= |s| && s[|s| - |t|..] == t
  }

  ghost predicate Overlaps<T>(left: seq<T>, right: seq<T>, n: nat) {
    n <= |left| && n <= |right| && left[|left| - n..] == right[..n]
  }

  /** n is the length of the longest end of left that is a beginning of right. */
  ghost predicate IsLongestOverlap<T>(left: seq<T>, right: seq<T>, n: nat) {
    Overlaps(left, right, n) && forall m: nat :: Overlaps(left, right, m) ==> m <= n
  }

  method LongestSuffixPrefixOverlap<T(==)>(left: seq<T>, right: seq<T>) returns (n: nat)
    ensures IsLongestOverlap(left, right, n)
  {
    var max := if |left| < |right| then |left| else |right|;
    n := max;
    while n > 0
      invariant n <= max
      invariant forall m: nat :: n < m ==> !Overlaps(left, right, m)
    {
      if left[|left| - n..] == right[..n] {
        return;
      }
      n := n - 1;
    }
  }

  function ToUpper(c: char): char {
    if 'a' <= c <= 'z' then c - 32 as char else c
  }

  function UpperText(s: string): string {
    seq(|s|, i requires 0 <= i < |s| => ToUpper(s[i]))
  }

  /** In how many places the tokens agree, case aside. */
  function Agreeing(a: seq<string>, b: seq<string>): (n: nat)
    requires |a| == |b|
    ensures n <= |a|
  {
    if a == [] then 0
    else Agreeing(a[..|a| - 1], b[..|b| - 1]) + if UpperText(a[|a| - 1]) == UpperText(b[|b| - 1]) then 1 else 0
  }

  method CountAgreeing(a: seq<string>, b: seq<string>) returns (matches: nat)
    requires |a| == |b|
    ensures matches == Agreeing(a, b)
  {
    matches := 0;
    var i := 0;
    while i < |a|
      invariant 0 <= i <= |a|
      invariant matches == Agreeing(a[..i], b[..i])
    {
      assert a[..i + 1][..i] == a[..i] && b[..i + 1][..i] == b[..i];
      if UpperText(a[i]) == UpperText(b[i]) {
        matches := matches + 1;
      }
      i := i + 1;
    }
    assert a[..|a|] == a && b[..|a|] == b;
  }

  /** The last n tokens of left are the first n of right, four in five at least. */
  ghost predicate RepeatsBy(left: seq<string>, right: seq<string>, n: nat) {
    && 3 <= n <= 8 && n <= |left| && n <= |right|
    && 5 * Agreeing(left[|left| - n..], right[..n]) >= 4 * n
  }

  ghost predicate RepeatsTokens(left: seq<string>, right: seq<string>) {
    exists n: nat :: RepeatsBy(left, right, n)
  }

  /** Adding right would say again, nearly, the last words of left. */
  ghost predicate Repeats(left: string, right: string) {
    RepeatsTokens(Split(left), Split(right))
  }

  method DedupBlocks(transcript: string, appended: string) returns (repeated: bool)
    ensures repeated <==> Repeats(transcript, appended)
  {
    var cand, trans := Split(appended), Split(transcript);
    repeated := RepeatsAtJoin(trans, cand);
  }

  /** The search of DedupBlocks over the token lists. */
  method RepeatsAtJoin(trans: seq<string>, cand: seq<string>) returns (repeated: bool)
    ensures repeated <==> RepeatsTokens(trans, cand)
  {
    if cand == [] || trans == [] {
      return false;
    }
    var maxRun := if |trans| < |cand| then |trans| else |cand|;
    maxRun := if maxRun < 8 then maxRun else 8;
    var n: nat := maxRun;
    while n >= 3
      invariant n <= maxRun
      invariant forall m: nat :: n < m ==> !RepeatsBy(trans, cand, m)
    {
      var matches := CountAgreeing(trans[|trans| - n..], cand[..n]);
      if 5 * matches >= 4 * n {
        assert RepeatsBy(trans, cand, n);
        return true;
      }
      n := n - 1;
    }
    return false;
  }

  // ---------------------------------------------------------------------
  // The longest common token prefix
  // ---------------------------------------------------------------------

  /** p begins the tokens of every text. */
  ghost predicate BeginsAll(p: seq<string>, texts: seq<string>) {
    forall i :: 0 <= i < |texts| ==> p <= Split(texts[i])
  }

  /** p is the longest sequence of tokens that every text begins with. */
  ghost predicate IsCommonPrefix(p: seq<string>, texts: seq<string>) {
    BeginsAll(p, texts) && forall q :: BeginsAll(q, texts) ==> q <= p
  }

  method CommonTokenPrefix(values: seq<string>) returns (prefix: string, ghost p: seq<string>)
    ensures values == [] ==> prefix == ""
    ensures values != [] ==> IsCommonPrefix(p, values) && prefix == Join(p)
  {
    if values == [] {
      return "", [];
    }
    var first := Split(values[0]);
    FirstCommonPrefix(values);
    var commonLen: nat := |first|;
    assert first[..commonLen] == first;
    var j := 1;
    while j < |values|
      invariant 1 <= j <= |values| && commonLen <= |first|
      invariant IsCommonPrefix(first[..commonLen], values[..j])
    {
      ghost var was := first[..commonLen];
      commonLen := CommonLength(first, Split(values[j]), commonLen);
      assert was[..commonLen] == first[..commonLen] == Split(values[j])[..commonLen];
      NextCommonPrefix(values, j, was, commonLen);
      j := j + 1;
    }
    assert values[..j] == values;
    p := first[..commonLen];
    prefix := Join(first[..commonLen]);
  }

  /** How many of the first max tokens the two lists share. */
  method CommonLength(first: seq<string>, tokens: seq<string>, max: nat) returns (commonLen: nat)
    requires max <= |first|
    ensures commonLen <= max && commonLen <= |tokens| && first[..commonLen] == tokens[..commonLen]
    ensures commonLen == max || commonLen == |tokens| || first[commonLen] != tokens[commonLen]
  {
    commonLen := if max < |tokens| then max else |tokens|;
    var idx := 0;
    while idx < commonLen
      invariant 0 <= idx <= commonLen
      invariant first[..idx] == tokens[..idx]
    {
      if first[idx] != tokens[idx] {
        commonLen := idx;
        break;
      }
      idx := idx + 1;
    }
  }

  lemma FirstCommonPrefix(values: seq<string>)
    requires values != []
    ensures IsCommonPrefix(Split(values[0]), values[..1])
  {
    assert forall q :: BeginsAll(q, values[..1]) ==> q <= Split(values[..1][0]);
  }

  /** One more text cuts the common prefix at the first token where it differs or ends. */
  lemma NextCommonPrefix(values: seq<string>, j: nat, p: seq<string>, n: nat)
    requires j < |values| && IsCommonPrefix(p, values[..j])
    requires n <= |p| && p[..n] <= Split(values[j])
    requires n == |p| || n == |Split(values[j])| || p[n] != Split(values[j])[n]
    ensures IsCommonPrefix(p[..n], values[..j + 1])
  {
    var next := values[..j + 1];
    assert BeginsAll(p[..n], next) by {
      forall i | 0 <= i < |next|
        ensures p[..n] <= Split(next[i])
      {
        if i < j {
          assert next[i] == values[..j][i];
        }
      }
    }
    forall q | BeginsAll(q, next)
      ensures q <= p[..n]
    {
      assert BeginsAll(q, values[..j]) by {
        assert forall i :: 0 <= i < j ==> values[..j][i] == next[i];
      }
      assert q <= p;
      assert q <= Split(next[j]);
    }
  }

  // ---------------------------------------------------------------------
  // Appending a snapshot
  // ---------------------------------------------------------------------

  ghost function TokenOverlap(t: string, s: string): (n: nat)
    ensures IsLongestOverlap(Split(t), Split(s), n)
  {
    LongestOverlapExists(Split(t), Split(s), |Split(t)|);
    var n :| IsLongestOverlap(Split(t), Split(s), n);
    n
  }

  ghost function CharOverlap(t: string, s: string): (n: nat)
    ensures IsLongestOverlap(t, s, n)
  {
    LongestOverlapExists(t, s, |t|);
    var n :| IsLongestOverlap(t, s, n);
    n
  }

  lemma {:induction false} LongestOverlapExists<T>(left: seq<T>, right: seq<T>, top: nat)
    requires forall m: nat :: Overlaps(left, right, m) ==> m <= top
    ensures exists n: nat :: IsLongestOverlap(left, right, n)
  {
    assert left[|left|..] == right[..0];
    if top == 0 || Overlaps(left, right, top) {
      assert IsLongestOverlap(left, right, top);
    } else {
      LongestOverlapExists(left, right, top - 1);
    }
  }

  /** Where in s its first n tokens end. */
  function TokensEnd(s: string, n: nat): (k: nat)
    requires Clean(s) && 0 < n <= |Split(s)|
    ensures k <= |s| && s[..k] == Join(Split(s)[..n])
  {
    FirstTokens(s, n);
    TotalLength(Split(s)[..n]) + n - 1
  }

  /** How a clean snapshot is taken into a transcript. */
  datatype Case = Nothing | Whole | Heard | Continues(at: nat) | Meets(at: nat) | Inside(at: nat) | Fresh

  ghost function CaseOf(t: string, s: string): (c: Case)
    requires Clean(s)
    ensures c.Continues? || c.Meets? || c.Inside? ==> c.at <= |s|
  {
    if s == "" then Nothing
    else if t == "" then Whole
    else if Contains(t, s) then Heard
    else if t <= s then Continues(|t|)
    else CaseOfUnlike(t, s)
  }

  /** The rest of CaseOf, for texts neither of which begins or holds the other. */
  ghost function CaseOfUnlike(t: string, s: string): (c: Case)
    requires Clean(s)
    ensures c.Continues? || c.Meets? || c.Inside? ==> c.at <= |s|
  {
    if TokenOverlap(t, s) > 0 then Meets(TokensEnd(s, TokenOverlap(t, s)))
    else if CharOverlap(t, s) > 0 then Meets(CharOverlap(t, s))
    else if FindFrom(s, t, 0) <= |s| then Inside(FindFrom(s, t, 0) + |t|)
    else Fresh
  }

  /** What is added to the transcript. */
  ghost function Appended(t: string, s: string): string
    requires Clean(s)
  {
    AppendedIn(CaseOf(t, s), t, s)
  }

  ghost function AppendedIn(c: Case, t: string, s: string): string
    requires c.Continues? || c.Meets? || c.Inside? ==> c.at <= |s|
  {
    match c
    case Nothing => ""
    case Whole => s
    case Heard => ""
    case Continues(at) => s[at..]
    case Meets(at) => if Repeats(t, s[at..]) then "" else s[at..]
    case Inside(at) => s[at..]
    case Fresh => if Repeats(t, s) then "" else if EndsWithSpace(t) then s else " " + s
  }

  lemma LongestOverlapIsUnique<T>(left: seq<T>, right: seq<T>, m: nat, n: nat)
    requires IsLongestOverlap(left, right, m) && IsLongestOverlap(left, right, n)
    ensures m == n
  {}

  method AppendSnapshotText(transcript: string, snapshotText: string) returns (grown: string, appended: string)
    ensures Clean(Normalize(snapshotText))
    ensures appended == Appended(transcript, Normalize(snapshotText))
    ensures grown == transcript + appended
  {
    NormalizeCleans(snapshotText);
    var snapshot := Normalize(snapshotText);
    appended := AppendNormal(transcript, snapshot);
    grown := transcript + appended;
  }

  /** The part of AppendSnapshotText after the snapshot is normalized. */
  method AppendNormal(transcript: string, snapshot: string) returns (appended: string)
    requires Clean(snapshot)
    ensures appended == Appended(transcript, snapshot)
  {
    if snapshot == "" {
      return "";
    }
    if transcript == "" {
      return snapshot;
    }
    if transcript == snapshot || EndsWith(transcript, snapshot) || Contains(transcript, snapshot) {
      assert EndsWith(transcript, snapshot) ==> OccursAt(transcript, snapshot, |transcript| - |snapshot|);
      assert transcript == snapshot ==> OccursAt(transcript, snapshot, 0);
      return "";
    }
    if transcript <= snapshot {
      return snapshot[|transcript|..];
    }
    appended := AppendUnlike(transcript, snapshot);
  }

  /** The part of AppendSnapshotText for texts neither of which begins or holds the other. */
  method AppendUnlike(transcript: string, snapshot: string) returns (appended: string)
    requires Clean(snapshot) && snapshot != ""
    ensures appended == AppendedIn(CaseOfUnlike(transcript, snapshot), transcript, snapshot)
  {
    var tokens := LongestSuffixPrefixOverlap(Split(transcript), Split(snapshot));
    LongestOverlapIsUnique(Split(transcript), Split(snapshot), tokens, TokenOverlap(transcript, snapshot));
    if tokens > 0 {
      appended := AppendUnlessRepeated(transcript, snapshot[TokensEnd(snapshot, tokens)..]);
      return;
    }
    var overlap := LongestSuffixPrefixOverlap(transcript, snapshot);
    LongestOverlapIsUnique(transcript, snapshot, overlap, CharOverlap(transcript, snapshot));
    if overlap > 0 {
      appended := AppendUnlessRepeated(transcript, snapshot[overlap..]);
      return;
    }
    var pos := FindFrom(snapshot, transcript, 0);
    if pos <= |snapshot| {
      return snapshot[pos + |transcript|..];
    }
    var separator := if EndsWithSpace(transcript) || snapshot[0] == ' ' then "" else " ";
    var repeated := DedupBlocks(transcript, snapshot);
    appended := if repeated then "" else separator + snapshot;
  }

  method AppendUnlessRepeated(transcript: string, rest: string) returns (appended: string)
    ensures appended == if Repeats(transcript, rest) then "" else rest
  {
    var repeated := DedupBlocks(transcript, rest);
    appended := if repeated then "" else rest;
  }

  /**
    What is added of a clean snapshot, in this order: nothing of one already heard, the rest
    of one that the transcript begins, the rest past the longest shared tokens and else past
    the longest shared characters, the rest past the first place where the transcript stands
    in it, and else all of it, after a space.
  */
  lemma AppendedExactly(t: string, s: string, n: nat, k: nat)
    requires Clean(s) && IsLongestOverlap(Split(t), Split(s), n) && IsLongestOverlap(t, s, k)
    ensures var a := Appended(t, s);
            if s == "" || (exists i: nat :: OccursAt(t, s, i)) then a == ""
            else if t <= s then t + a == s
            else if n > 0 then AddsPastTokens(t, s, n, a)
            else if k > 0 then AddsUnlessRepeated(t, s[k..], a)
            else if exists i: nat :: OccursAt(s, t, i) then AddsPastFirst(t, s, a)
            else if Repeats(t, s) then a == ""
            else a == if EndsWithSpace(t) then s else " " + s
  {
    if s != "" && !Contains(t, s) {
      if t <= s {
        assert s == t + s[|t|..];
      } else {
        UnlikeCase(t, s, n, k);
        if n > 0 {
          PastTokens(t, s, n);
        } else if k == 0 && Contains(s, t) {
          PastFirst(t, s);
        }
      }
    }
  }

  ghost predicate AddsUnlessRepeated(t: string, rest: string, a: string) {
    a == if Repeats(t, rest) then "" else rest
  }

  ghost predicate AddsPastTokens(t: string, s: string, n: nat, a: string) {
    n <= |Split(s)| && exists rest :: s == Join(Split(s)[..n]) + rest && AddsUnlessRepeated(t, rest, a)
  }

  ghost predicate AddsPastFirst(t: string, s: string, a: string) {
    exists i: nat :: OccursAt(s, t, i) && (forall j: nat :: j < i ==> !OccursAt(s, t, j)) && a == s[i + |t|..]
  }

  lemma UnlikeCase(t: string, s: string, n: nat, k: nat)
    requires Clean(s) && IsLongestOverlap(Split(t), Split(s), n) && IsLongestOverlap(t, s, k)
    ensures CaseOfUnlike(t, s) == if n > 0 then Meets(TokensEnd(s, n)) else if k > 0 then Meets(k)
                                  else if FindFrom(s, t, 0) <= |s| then Inside(FindFrom(s, t, 0) + |t|) else Fresh
  {
    LongestOverlapIsUnique(Split(t), Split(s), n, TokenOverlap(t, s));
    LongestOverlapIsUnique(t, s, k, CharOverlap(t, s));
  }

  lemma PastTokens(t: string, s: string, n: nat)
    requires Clean(s) && 0 < n <= |Split(s)|
    ensures AddsPastTokens(t, s, n, AppendedIn(Meets(TokensEnd(s, n)), t, s))
  {
    var rest := s[TokensEnd(s, n)..];
    assert s == Join(Split(s)[..n]) + rest;
    assert AddsUnlessRepeated(t, rest, AppendedIn(Meets(TokensEnd(s, n)), t, s));
  }

  lemma PastFirst(t: string, s: string)
    requires Contains(s, t)
    ensures AddsPastFirst(t, s, AppendedIn(Inside(FindFrom(s, t, 0) + |t|), t, s))
  {
    assert OccursAt(s, t, FindFrom(s, t, 0));
  }

  /** Letters of the basic alphabet in either case are the same; every other character is only itself. */
  ghost predicate SameButCase(x: string, y: string) {
    |x| == |y| && forall i :: 0 <= i < |x| ==>
      || x[i] == y[i]
      || ('a' <= x[i] <= 'z' && x[i] as int - y[i] as int == 32)
      || ('a' <= y[i] <= 'z' && y[i] as int - x[i] as int == 32)
  }

  /** The places in which two lists of tokens agree, case aside. */
  ghost function SamePlaces(a: seq<string>, b: seq<string>): set<nat>
    requires |a| == |b|
  {
    set i: nat | i < |a| && SameButCase(a[i], b[i])
  }

  /** A near repeat: 3 to 8 last tokens of the one against as many first of the other, four in five of them the same. */
  lemma RepeatsExactly(left: seq<string>, right: seq<string>)
    ensures RepeatsTokens(left, right) <==>
            exists n: nat :: 3 <= n <= 8 && n <= |left| && n <= |right|
              && 5 * |SamePlaces(left[|left| - n..], right[..n])| >= 4 * n
  {
    forall n: nat | n <= |left| && n <= |right|
      ensures Agreeing(left[|left| - n..], right[..n]) == |SamePlaces(left[|left| - n..], right[..n])|
    {
      AgreeingCounts(left[|left| - n..], right[..n]);
    }
    if RepeatsTokens(left, right) {
      var n: nat :| RepeatsBy(left, right, n);
      assert 5 * |SamePlaces(left[|left| - n..], right[..n])| >= 4 * n;
    }
    forall n: nat | 3 <= n <= 8 && n <= |left| && n <= |right| && 5 * |SamePlaces(left[|left| - n..], right[..n])| >= 4 * n
      ensures RepeatsTokens(left, right)
    {
      assert RepeatsBy(left, right, n);
    }
  }

  lemma {:induction false} AgreeingCounts(a: seq<string>, b: seq<string>)
    requires |a| == |b|
    ensures Agreeing(a, b) == |SamePlaces(a, b)|
  {
    if a != [] {
      var n := |a| - 1;
      AgreeingCounts(a[..n], b[..n]);
      UpperIsCase(a[n], b[n]);
      assert SamePlaces(a, b) == SamePlaces(a[..n], b[..n]) + if SameButCase(a[n], b[n]) then {n} else {};
    }
  }

  lemma UpperIsCase(x: string, y: string)
    ensures UpperText(x) == UpperText(y) <==> SameButCase(x, y)
  {
    if UpperText(x) == UpperText(y) {
      forall i | 0 <= i < |x|
        ensures ToUpper(x[i]) == ToUpper(y[i])
      {
        assert UpperText(x)[i] == UpperText(y)[i];
      }
    }
    if SameButCase(x, y) {
      assert UpperText(x) == UpperText(y);
    }
  }

  // ---------------------------------------------------------------------
  // What appending keeps
  // ---------------------------------------------------------------------

  /** Texts that share k characters where they meet make one clean text that ends with the second. */
  lemma GluedIsClean(t: string, s: string, k: nat)
    requires Clean(t) && Clean(s) && 0 < k && Overlaps(t, s, k)
    ensures Clean(t + s[k..]) && EndsWith(t + s[k..], s)
  {
    var g, d := t + s[k..], |t| - k;
    assert forall i :: 0 <= i < k ==> t[|t| - k..][i] == s[..k][i];
    assert forall i :: 0 <= i < |s| ==> g[d + i] == s[i];
    assert g[d..] == s;
    forall i | 0 <= i < |g| && IsWhitespace(g[i])
      ensures g[i] == ' ' && 0 < i < |g| - 1 && !IsWhitespace(g[i + 1])
    {
      if i < |t| {
        assert g[i] == t[i] && g[i + 1] == t[i + 1];
      } else {
        assert g[i] == s[i - d];
      }
    }
    forall i | 0 <= i < |g| - 1 && g[i] == 'G'
      ensures g[i + 1] != 'T'
    {
      if i < |t| - 1 {
        assert g[i] == t[i] && g[i + 1] == t[i + 1];
      } else {
        assert g[i] == s[i - d] && g[i + 1] == s[i + 1 - d];
      }
    }
  }

  lemma SpacedIsClean(t: string, s: string)
    requires Clean(t) && Clean(s) && t != "" && s != ""
    ensures Clean(t + " " + s) && EndsWith(t + " " + s, s)
  {
    var g := t + " " + s;
    SpacedHasNoSplitQ(t, s);
    forall i | 0 <= i < |g| && IsWhitespace(g[i])
      ensures g[i] == ' ' && 0 < i < |g| - 1 && !IsWhitespace(g[i + 1])
    {
      if i < |t| {
        assert g[i] == t[i] && g[i + 1] == t[i + 1];
      } else if i > |t| {
        assert g[i] == s[i - |t| - 1];
      } else {
        assert g[i + 1] == s[0];
      }
    }
  }

  /** From a place where a clean text t stands, the rest of s is clean. */
  lemma RestIsClean(t: string, s: string, pos: nat)
    requires Clean(t) && Clean(s) && t != "" && OccursAt(s, t, pos)
    ensures Clean(s[pos..]) && t + s[pos + |t|..] == s[pos..]
  {
    var rest := s[pos..];
    assert s[pos..pos + |t|][0] == t[0];
    assert forall i :: 0 <= i < |rest| ==> rest[i] == s[pos + i];
    assert rest == s[pos..pos + |t|] + s[pos + |t|..];
  }

  /** Texts that share their tokens where they meet share the characters of those tokens. */
  lemma TokensMeet(t: string, s: string, n: nat)
    requires Clean(t) && Clean(s) && 0 < n && Overlaps(Split(t), Split(s), n)
    ensures TokensEnd(s, n) > 0 && Overlaps(t, s, TokensEnd(s, n))
  {
    var shared := Join(Split(s)[..n]);
    LastTokens(t, n);
    assert EndsWith(t, shared) && shared != "";
    SharedOverlaps(t, s, shared, TokensEnd(s, n));
  }

  lemma SharedOverlaps(t: string, s: string, shared: string, k: nat)
    requires k <= |s| && s[..k] == shared && EndsWith(t, shared)
    ensures Overlaps(t, s, k)
  {}

  /** A snapshot left out because the transcript's last words nearly repeat in what would be added. */
  ghost predicate Dropped(c: Case, t: string, s: string)
    requires c.Meets? ==> c.at <= |s|
  {
    match c
    case Meets(at) => Repeats(t, s[at..])
    case Fresh => Repeats(t, s)
    case _ => false
  }

  /** What the case says of the two texts. */
  ghost predicate Fits(c: Case, t: string, s: string) {
    match c
    case Nothing => s == ""
    case Whole => t == ""
    case Heard => Contains(t, s)
    case Continues(at) => at == |t| && t <= s
    case Meets(at) => at > 0 && Overlaps(t, s, at) && !Contains(t, s)
    case Inside(at) => |t| <= at <= |s| && t != "" && OccursAt(s, t, at - |t|) && !(t <= s)
    case Fresh => t != "" && s != "" && !Contains(t, s)
  }

  lemma CaseFits(t: string, s: string)
    requires Clean(t) && Clean(s)
    ensures Fits(CaseOf(t, s), t, s)
  {
    if s != "" && t != "" && !Contains(t, s) && !(t <= s) {
      UnlikeFits(t, s);
    }
  }

  lemma UnlikeFits(t: string, s: string)
    requires Clean(t) && Clean(s) && s != "" && t != "" && !Contains(t, s) && !(t <= s)
    ensures Fits(CaseOfUnlike(t, s), t, s)
  {
    if TokenOverlap(t, s) > 0 {
      TokensMeet(t, s, TokenOverlap(t, s));
    }
  }

  lemma ContainsAtEnd(g: string, s: string)
    requires EndsWith(g, s)
    ensures Contains(g, s)
  {
    assert OccursAt(g, s, |g| - |s|);
  }

  lemma InsideGrown(t: string, s: string, pos: nat, g: string)
    requires Clean(t) && Clean(s) && t != "" && OccursAt(s, t, pos) && !(t <= s)
    requires g == t + s[pos + |t|..]
    ensures Clean(g) && !Contains(g, s) && EndsWith(s, g)
  {
    RestIsClean(t, s, pos);
    assert s[0..|t|] == s[..|t|];
  }

  lemma FreshGrown(t: string, s: string)
    requires Clean(t) && Clean(s) && t != "" && s != ""
    ensures !EndsWithSpace(t)
    ensures Clean(t + (" " + s)) && Contains(t + (" " + s), s)
  {
    SpacedIsClean(t, s);
    assert t + (" " + s) == t + " " + s;
    ContainsAtEnd(t + " " + s, s);
  }

  lemma MeetsGrown(t: string, s: string, at: nat)
    requires Clean(t) && Clean(s) && 0 < at && Overlaps(t, s, at)
    ensures Clean(t + s[at..]) && Contains(t + s[at..], s)
  {
    GluedIsClean(t, s, at);
    ContainsAtEnd(t + s[at..], s);
  }

  /** The transcript after c, in the order of the cases. */
  lemma GrownIn(c: Case, t: string, s: string, g: string)
    requires Fits(c, t, s) && g == t + AppendedIn(c, t, s)
    ensures c.Nothing? || c.Heard? || Dropped(c, t, s) ==> g == t
    ensures c.Whole? || c.Continues? ==> g == s
    ensures c.Meets? && !Dropped(c, t, s) ==> g == t + s[c.at..]
    ensures c.Inside? ==> g == t + s[c.at - |t| + |t|..]
    ensures c.Fresh? && !Dropped(c, t, s) && !EndsWithSpace(t) ==> g == t + (" " + s)
  {
    assert t + "" == t;
  }

  lemma TakenInCase(c: Case, t: string, s: string, g: string, dropped: bool)
    requires Clean(t) && Clean(s) && Fits(c, t, s) && (dropped ==> c.Meets? || c.Fresh?)
    requires c.Nothing? || c.Heard? || dropped ==> g == t
    requires c.Whole? || c.Continues? ==> g == s
    requires c.Meets? && !dropped ==> g == t + s[c.at..]
    requires c.Inside? ==> g == t + s[c.at - |t| + |t|..]
    requires c.Fresh? && !dropped && !EndsWithSpace(t) ==> g == t + (" " + s)
    ensures Clean(g)
    ensures Contains(g, s) <==> !dropped && !c.Inside?
    ensures c.Inside? ==> EndsWith(s, g)
  {
    match c
    case Nothing => assert OccursAt(t, s, 0);
    case Heard =>
    case Whole => ContainsAtEnd(s, s);
    case Continues(at) => ContainsAtEnd(s, s);
    case Meets(at) => MeetsGrown(t, s, at);
    case Inside(at) => InsideGrown(t, s, at - |t|, g);
    case Fresh => FreshGrown(t, s);
  }

  /**
   * A transcript with a snapshot taken in is clean. It has the whole snapshot in it, unless the snapshot was
   * dropped as a near repeat, or has the transcript inside it and something before: of that, only what
   * follows is taken.
   */
  lemma TakenIn(t: string, s: string)
    requires Clean(t) && Clean(s)
    ensures Clean(t + Appended(t, s))
    ensures Contains(t + Appended(t, s), s) <==> !Dropped(CaseOf(t, s), t, s) && !CaseOf(t, s).Inside?
    ensures CaseOf(t, s).Inside? ==> EndsWith(s, t + Appended(t, s))
  {
    CaseFits(t, s);
    GrownIn(CaseOf(t, s), t, s, t + Appended(t, s));
    TakenInCase(CaseOf(t, s), t, s, t + Appended(t, s), Dropped(CaseOf(t, s), t, s));
  }

  /** What is added is an end of the snapshot, or the whole of it after a space. */
  lemma AppendedEndsSnapshot(t: string, s: string)
    requires Clean(s)
    ensures EndsWith(s, Unspaced(Appended(t, s)))
  {
    AppendedInEnds(CaseOf(t, s), t, s);
  }

  lemma AppendedInEnds(c: Case, t: string, s: string)
    requires c.Continues? || c.Meets? || c.Inside? ==> c.at <= |s|
    requires s == "" || s[0] != ' '
    ensures EndsWith(s, Unspaced(AppendedIn(c, t, s)))
  {
    if c.Continues? || c.Meets? || c.Inside? {
      EndUnspaced(s, c.at);
    }
    EndUnspaced(s, 0);
    EndUnspaced(s, |s|);
    assert s[0..] == s;
  }

  lemma EndUnspaced(s: string, at: nat)
    requires at <= |s|
    ensures EndsWith(s, Unspaced(s[at..]))
  {
    var end := Unspaced(s[at..]);
    assert end == s[|s| - |end|..];
  }

  function Unspaced(s: string): string {
    if s != "" && s[0] == ' ' then s[1..] else s
  }

  /** Of a snapshot longer than the transcript and not in it, all that can be left to add is the end after the transcript. */
  lemma AddsNothing(c: Case, t: string, s: string)
    requires Fits(c, t, s) && 0 < |t| < |s| && !c.Heard?
    ensures AppendedIn(c, t, s) == "" <==> c == Inside(|s|) || Dropped(c, t, s)
  {}

  /** A transcript that had stood inside the snapshot is shorter than it still. */
  lemma InsideStaysShorter(t: string, s: string)
    requires Clean(t) && Clean(s) && CaseOf(t, s).Inside?
    ensures var g := t + Appended(t, s);
            Clean(g) && 0 < |g| < |s| && !Contains(g, s)
  {
    TakenIn(t, s);
    CaseFits(t, s);
    var g := t + Appended(t, s);
    if |g| == |s| {
      assert g == s;
      ContainsAtEnd(g, s);
    }
  }

  /**
   * When the same snapshot twice is the same as once: unless the transcript stood inside it, always; else when the
   * grown transcript stands first at its very end, or the second time is dropped as a near repeat.
   */
  lemma AppendedOnce(t: string, s: string)
    requires Clean(t) && Clean(s)
    ensures var g := t + Appended(t, s);
            Appended(g, s) == ""
            <==> !CaseOf(t, s).Inside? || CaseOf(g, s) == Inside(|s|) || Dropped(CaseOf(g, s), g, s)
  {
    if CaseOf(t, s).Inside? {
      InsideStaysShorter(t, s);
      CaseFits(t + Appended(t, s), s);
      AddsNothing(CaseOf(t + Appended(t, s), s), t + Appended(t, s), s);
    } else {
      HeardOnce(t, s);
    }
  }

  lemma HeardOnce(t: string, s: string)
    requires Clean(t) && Clean(s) && !CaseOf(t, s).Inside?
    ensures Appended(t + Appended(t, s), s) == ""
  {
    TakenIn(t, s);
    if Dropped(CaseOf(t, s), t, s) {
      assert t + "" == t;
    }
  }

  /** With the transcript inside the snapshot, as "E" in "A E A", the same snapshot twice says its end twice. */
  lemma InsideIsAppendedAgain(a: char, e: char)
    requires !IsWhitespace(a) && !IsWhitespace(e) && a != e
    ensures var t, s := [e], [a, ' ', e, ' ', a];
      Clean(t) && Clean(s) && CaseOf(t, s).Inside?
      && Appended(t, s) == [' ', a] && Appended([e, ' ', a], s) == [' ', e, ' ', a]
  {
    var t, s, g := [e], [a, ' ', e, ' ', a], [e, ' ', a];
    SplitsOfExample(a, e, t, g, s);
    TakenOnce(a, e, t, s);
    TakenTwice(a, e, g, s);
  }

  lemma SplitsOfExample(a: char, e: char, t: string, g: string, s: string)
    requires !IsWhitespace(a) && !IsWhitespace(e)
    requires t == [e] && g == [e, ' ', a] && s == [a, ' ', e, ' ', a]
    ensures Split(t) == [[e]] && Split(g) == [[e], [a]] && Split(s) == [[a], [e], [a]]
  {
    SplitChar(a);
    SplitChar(e);
    SplitCharAndRest(e, [a], g);
    SplitCharAndRest(a, g, s);
  }

  lemma SplitChar(c: char)
    requires !IsWhitespace(c)
    ensures Split([c]) == [[c]]
  {
    SplitHead([c], "");
    assert [c] + "" == [c];
  }

  lemma SplitCharAndRest(c: char, rest: string, s: string)
    requires !IsWhitespace(c) && s == [c, ' '] + rest
    ensures Split(s) == [[c]] + Split(rest)
  {
    var spaced := [' '] + rest;
    SplitHead([c], spaced);
    assert [c] + spaced == s && spaced[1..] == rest;
  }

  lemma TakenOnce(a: char, e: char, t: string, s: string)
    requires a != e && a != ' ' && e != ' '
    requires t == [e] && s == [a, ' ', e, ' ', a] && Clean(s)
    requires Split(t) == [[e]] && Split(s) == [[a], [e], [a]]
    ensures CaseOf(t, s) == Inside(3) && Appended(t, s) == [' ', a]
  {
    assert !Overlaps(Split(t), Split(s), 1) by {
      assert Split(t)[0..][0] != Split(s)[..1][0];
    }
    assert !Overlaps(t, s, 1) by {
      assert t[0..][0] != s[..1][0];
    }
    assert s[2..3] == [e] && s[0..1] == [a] && s[1..2] == [' '];
    assert OccursAt(s, t, 2) && !OccursAt(s, t, 0) && !OccursAt(s, t, 1);
    assert !Contains(t, s);
  }

  lemma TakenTwice(a: char, e: char, g: string, s: string)
    requires a != e && !IsWhitespace(a) && !IsWhitespace(e)
    requires g == [e, ' ', a] && s == [a, ' ', e, ' ', a] && Clean(s)
    requires Split(g) == [[e], [a]] && Split(s) == [[a], [e], [a]]
    ensures Appended(g, s) == [' ', e, ' ', a]
  {
    OneTokenMeets(a, e, g, s);
    TwoTokensNeverRepeat(g, s[1..]);
    assert s[1..] == [' ', e, ' ', a];
    assert !Contains(g, s);
    assert g[0] != s[0];
  }

  lemma OneTokenMeets(a: char, e: char, g: string, s: string)
    requires a != e && s == [a, ' ', e, ' ', a] && Clean(s)
    requires Split(g) == [[e], [a]] && Split(s) == [[a], [e], [a]]
    ensures CaseOfUnlike(g, s) == Meets(1)
  {
    var left, right := Split(g), Split(s);
    assert left[1..] == [[a]] == right[..1];
    assert left[0..][0] != right[..2][0];
    LongestOverlapIsUnique(left, right, 1, TokenOverlap(g, s));
    assert right[..1] == [[a]] && TokensEnd(s, 1) == 1;
  }

  /** A near repeat takes three tokens at least. */
  lemma TwoTokensNeverRepeat(t: string, s: string)
    requires |Split(t)| < 3
    ensures !Repeats(t, s)
  {}

  // ---------------------------------------------------------------------
  // The stabilizer
  // ---------------------------------------------------------------------

  /**
   * What the word lists make of a snapshot: reject it as noise, as without an anchor or as without continuity,
   * or keep it from one of its tokens on.
   */
  datatype Verdict = Reject | KeepFrom(token: nat)

  /** A piece of committed text: confirmed by the snapshots before the n-th, or committed at the end. */
  datatype Commit = Confirmed(text: string, n: nat) | Finalized(text: string)

  ghost function TextOf(commits: seq<Commit>): string {
    if commits == [] then "" else TextOf(commits[..|commits| - 1]) + commits[|commits| - 1].text
  }

  /** Confirmed text stands in each of the required number of consecutive accepted snapshots. */
  ghost predicate Backed(c: Commit, accepted: seq<string>, required: nat) {
    c.Confirmed? && c.text != "" ==>
      && required <= c.n <= |accepted|
      && forall j :: c.n - required <= j < c.n ==> Contains(accepted[j], Unspaced(c.text))
  }

  ghost predicate AllBacked(commits: seq<Commit>, accepted: seq<string>, required: nat) {
    forall i :: 0 <= i < |commits| ==> Backed(commits[i], accepted, required)
  }

  ghost predicate AllClean(texts: seq<string>) {
    forall i :: 0 <= i < |texts| ==> Clean(texts[i])
  }

  ghost predicate AllContain(texts: seq<string>, d: string) {
    forall i :: 0 <= i < |texts| ==> Contains(texts[i], d)
  }

  /** At most the required number of the last snapshots, every one of them clean. */
  ghost predicate IsRecent(recent: seq<string>, accepted: seq<string>, required: nat) {
    && |recent| <= required && |recent| <= |accepted| && recent == accepted[|accepted| - |recent|..]
    && AllClean(accepted)
  }

  ghost predicate IsBacked(committed: string, commits: seq<Commit>, accepted: seq<string>, required: nat) {
    Clean(committed) && committed == TextOf(commits) && AllBacked(commits, accepted, required)
  }

  lemma TrimmedAlready(s: string)
    requires Normal(s)
    ensures Trim(s) == s
  {
    if s != "" {
      assert !IsWhitespace(s[0]) && !IsWhitespace(s[|s| - 1]);
    }
  }

  /** What is added for the agreed tokens stands in every one of the agreeing snapshots. */
  lemma AgreedBeforeCommit(recent: seq<string>, p: seq<string>, t: string)
    requires recent != [] && AllClean(recent) && IsCommonPrefix(p, recent)
    ensures Clean(Join(p)) && AllContain(recent, Unspaced(Appended(t, Join(p))))
  {
    var s := Join(p);
    assert Clean(recent[0]) && p == Split(recent[0])[..|p|];
    FirstTokens(recent[0], |p|);
    AppendedEndsSnapshot(t, s);
    var d := Unspaced(Appended(t, s));
    forall i | 0 <= i < |recent|
      ensures Contains(recent[i], d)
    {
      assert Clean(recent[i]) && p == Split(recent[i])[..|p|];
      FirstTokens(recent[i], |p|);
      EndOfBeginning(recent[i], s, d);
    }
  }

  lemma EndOfBeginning(v: string, s: string, d: string)
    requires s <= v && EndsWith(s, d)
    ensures Contains(v, d)
  {
    var i := |s| - |d|;
    assert v[..|s|] == s;
    assert v[i..i + |d|] == s[i..];
    assert OccursAt(v, d, i);
  }

  /** AppendSnapshotText, for a clean transcript and a snapshot that is already normal. */
  method AppendClean(transcript: string, snapshot: string) returns (grown: string, appended: string)
    requires Clean(transcript) && Clean(snapshot)
    ensures appended == Appended(transcript, snapshot)
    ensures grown == transcript + appended && Clean(grown)
  {
    NormalizeCleans(snapshot);
    TakenIn(transcript, snapshot);
    grown, appended := AppendSnapshotText(transcript, snapshot);
  }

  class PrefixStabilizer {
    const requiredConfirmations: nat
    var recentSnapshots: seq<string>
    var committed: string
    var latestSnapshot: string
    /** Every snapshot accepted so far, and everything returned so far. */
    ghost var accepted: seq<string>
    ghost var commits: seq<Commit>

    /** The committed text is what was returned, clean, and confirmed by as many snapshots as required. */
    ghost predicate Valid()
      reads this
    {
      && requiredConfirmations >= 1 && Clean(latestSnapshot)
      && IsRecent(recentSnapshots, accepted, requiredConfirmations)
      && IsBacked(committed, commits, accepted, requiredConfirmations)
    }

    constructor (required: nat)
      ensures Valid() && committed == "" && accepted == [] && commits == []
      ensures requiredConfirmations == if required > 1 then required else 1
    {
      requiredConfirmations := if required > 1 then required else 1;
      recentSnapshots, committed, latestSnapshot := [], "", "";
      accepted, commits := [], [];
    }

    method ForceStreamAnchor()
      requires Valid()
      modifies this`recentSnapshots
      ensures Valid() && recentSnapshots == []
    {
      recentSnapshots := [];
      assert accepted[|accepted|..] == [];
    }

    method PushSnapshot(snapshotText: string, verdict: Verdict) returns (appended: string, ghost agreed: seq<string>)
      requires Valid()
      requires verdict.KeepFrom? ==> verdict.token <= |Split(Normalize(snapshotText))|
      modifies this
      ensures Valid()
      ensures committed == old(committed) + appended
      ensures Normalize(snapshotText) == "" || verdict.Reject? ==>
        && appended == "" && accepted == old(accepted) && commits == old(commits)
        && recentSnapshots == old(recentSnapshots) && latestSnapshot == old(latestSnapshot)
      ensures Normalize(snapshotText) != "" && verdict.KeepFrom? ==>
        && latestSnapshot == Join(Split(Normalize(snapshotText))[verdict.token..])
        && accepted == old(accepted) + [latestSnapshot]
        && recentSnapshots == Newest(old(recentSnapshots) + [latestSnapshot], requiredConfirmations)
        && |recentSnapshots| == (if |old(recentSnapshots)| < requiredConfirmations then |old(recentSnapshots)| + 1
                                 else requiredConfirmations)
        && (|recentSnapshots| < requiredConfirmations ==> appended == "" && commits == old(commits))
        && (|recentSnapshots| == requiredConfirmations ==>
          && IsCommonPrefix(agreed, recentSnapshots) && Clean(Join(agreed))
          && appended == Appended(old(committed), Join(agreed))
          && commits == old(commits) + [Confirmed(appended, |accepted|)])
    {
      agreed, appended := [], "";
      var normalized := Normalize(snapshotText);
      if normalized == "" || verdict.Reject? {
        return;
      }
      NormalizeCleans(snapshotText);
      TokensFrom(normalized, verdict.token);
      Remember(Join(Split(normalized)[verdict.token..]));
      if |recentSnapshots| < requiredConfirmations {
        return;
      }
      appended, agreed := CommitAgreed();
    }

    /** The part of PushSnapshot that takes the snapshot among the recent ones. */
    method Remember(normalized: string)
      requires Valid() && Clean(normalized)
      modifies this`recentSnapshots, this`latestSnapshot, this`accepted
      ensures Valid() && recentSnapshots != []
      ensures latestSnapshot == normalized && accepted == old(accepted) + [normalized]
      ensures recentSnapshots == Newest(old(recentSnapshots) + [normalized], requiredConfirmations)
    {
      AcceptedOneMore(committed, commits, accepted, normalized, requiredConfirmations);
      latestSnapshot := normalized;
      accepted := accepted + [normalized];
      var recent := recentSnapshots + [normalized];
      while |recent| > requiredConfirmations
        invariant recent == recentSnapshots + [normalized] || |recent| == requiredConfirmations
        invariant |recent| <= |accepted| && recent == accepted[|accepted| - |recent|..]
        invariant recent == Newest(recentSnapshots + [normalized], |recent|)
      {
        recent := recent[1..];
      }
      recentSnapshots := recent;
    }

    /** The part of PushSnapshot that commits what the recent snapshots agree on. */
    method CommitAgreed() returns (appended: string, ghost agreed: seq<string>)
      requires Valid() && |recentSnapshots| == requiredConfirmations
      modifies this`committed, this`commits
      ensures Valid()
      ensures IsCommonPrefix(agreed, recentSnapshots) && Clean(Join(agreed))
      ensures committed == old(committed) + appended && appended == Appended(old(committed), Join(agreed))
      ensures commits == old(commits) + [Confirmed(appended, |accepted|)]
    {
      var stablePrefix;
      stablePrefix, agreed := CommonTokenPrefix(recentSnapshots);
      RecentAreClean(accepted, recentSnapshots, requiredConfirmations);
      AgreedBeforeCommit(recentSnapshots, agreed, committed);
      committed, appended := AppendClean(committed, stablePrefix);
      CommitOneMore(old(committed), commits, Confirmed(appended, |accepted|), accepted, recentSnapshots);
      commits := commits + [Confirmed(appended, |accepted|)];
    }

    method FinalizeLatest() returns (appended: string)
      requires Valid()
      modifies this`committed, this`commits
      ensures Valid()
      ensures committed == old(committed) + appended && appended == Appended(old(committed), latestSnapshot)
      ensures commits == old(commits) + [Finalized(appended)]
    {
      committed, appended := AppendClean(committed, latestSnapshot);
      FinalizeOneMore(old(committed), commits, Finalized(appended), accepted, requiredConfirmations);
      commits := commits + [Finalized(appended)];
    }

    method Transcript() returns (text: string)
      requires Valid()
      ensures text == committed == TextOf(commits)
    {
      TrimmedAlready(committed);
      text := Trim(committed);
    }
  }

  /** The last n of them, or all when there are fewer. */
  function Newest<T>(s: seq<T>, n: nat): seq<T> {
    if |s| <= n then s else s[|s| - n..]
  }

  lemma AcceptedOneMore(
    committed: string, commits: seq<Commit>, accepted: seq<string>, snapshot: string, required: nat)
    requires AllClean(accepted) && Clean(snapshot) && IsBacked(committed, commits, accepted, required)
    ensures AllClean(accepted + [snapshot]) && IsBacked(committed, commits, accepted + [snapshot], required)
  {
    forall i | 0 <= i < |commits|
      ensures Backed(commits[i], accepted + [snapshot], required)
    {
      assert Backed(commits[i], accepted, required);
    }
  }

  lemma RecentAreClean(accepted: seq<string>, recent: seq<string>, required: nat)
    requires IsRecent(recent, accepted, required)
    ensures AllClean(recent)
  {
    assert forall i :: 0 <= i < |recent| ==> recent[i] == accepted[|accepted| - |recent| + i];
  }

  lemma CommitOneMore(committed: string, commits: seq<Commit>, c: Commit, accepted: seq<string>, recent: seq<string>)
    requires IsRecent(recent, accepted, |recent|) && IsBacked(committed, commits, accepted, |recent|)
    requires c.Confirmed? && c.n == |accepted|
    requires AllContain(recent, Unspaced(c.text)) && Clean(committed + c.text)
    ensures IsBacked(committed + c.text, commits + [c], accepted, |recent|)
  {
    assert (commits + [c])[..|commits|] == commits;
    assert forall j :: |accepted| - |recent| <= j < |accepted| ==> accepted[j] == recent[j - (|accepted| - |recent|)];
    assert Backed(c, accepted, |recent|);
  }

  lemma FinalizeOneMore(
    committed: string, commits: seq<Commit>, c: Commit, accepted: seq<string>, required: nat)
    requires IsBacked(committed, commits, accepted, required) && c.Finalized? && Clean(committed + c.text)
    ensures IsBacked(committed + c.text, commits + [c], accepted, required)
  {
    assert (commits + [c])[..|commits|] == commits;
  }
}
