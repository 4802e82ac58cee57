/** Whitespace tokens, and texts whose tokens are separated by single spaces. */
module Tokens {
  import opened Text

  /** Length of the leading stretch without whitespace. */
  function WordLen(s: string): (n: nat)
    ensures n <= |s|
    ensures forall i :: 0 <= i < n ==> !IsWhitespace(s[i])
    ensures n < |s| ==> IsWhitespace(s[n])
  {
    if s == "" || IsWhitespace(s[0]) then 0 else 1 + WordLen(s[1..])
  }

  /** Rust's split_whitespace. */
  function Split(s: string): seq<string>
    decreases |s|
  {
    if s == "" then []
    else if IsWhitespace(s[0]) then Split(s[1..])
    else [s[..WordLen(s)]] + Split(s[WordLen(s)..])
  }

  function Join(tokens: seq<string>): string {
    if tokens == [] then ""
    else if |tokens| == 1 then tokens[0]
    else tokens[0] + " " + Join(tokens[1..])
  }

  ghost predicate IsToken(t: string) {
    t != "" && forall i :: 0 <= i < |t| ==> !IsWhitespace(t[i])
  }

  ghost predicate AreTokens(ts: seq<string>) {
    forall i :: 0 <= i < |ts| ==> IsToken(ts[i])
  }

  /** Whitespace only as single spaces between tokens. */
  ghost predicate Normal(s: string) {
    forall i :: 0 <= i < |s| && IsWhitespace(s[i]) ==> s[i] == ' ' && 0 < i < |s| - 1 && !IsWhitespace(s[i + 1])
  }

  lemma {:induction false} SplitTokens(s: string)
    ensures AreTokens(Split(s))
    decreases |s|
  {
    if s != "" {
      if IsWhitespace(s[0]) {
        SplitTokens(s[1..]);
      } else {
        SplitTokens(s[WordLen(s)..]);
      }
    }
  }

  lemma {:induction false} JoinNormal(ts: seq<string>)
    requires AreTokens(ts)
    ensures Normal(Join(ts)) && (ts != [] ==> Join(ts) != "")
  {
    if |ts| > 1 {
      JoinNormal(ts[1..]);
      var t, rest := ts[0], Join(ts[1..]);
      assert IsToken(t);
      assert !IsWhitespace(rest[0]);
      var s := t + " " + rest;
      forall i | 0 <= i < |s| && IsWhitespace(s[i])
        ensures s[i] == ' ' && 0 < i < |s| - 1 && !IsWhitespace(s[i + 1])
      {
        if i > |t| {
          assert s[i] == rest[i - |t| - 1];
        } else {
          assert i == |t|;
        }
      }
    } else if |ts| == 1 {
      assert IsToken(ts[0]);
    }
  }

  /** A normal text is its tokens joined. */
  lemma {:induction false} SplitOfNormal(s: string)
    requires Normal(s)
    ensures Join(Split(s)) == s
    decreases |s|
  {
    if s != "" {
      var n := WordLen(s);
      if n == |s| {
        assert s[..n] == s && s[n..] == "";
      } else {
        var rest := s[n + 1..];
        assert s[n] == ' ' && s[n..][1..] == rest && s == s[..n] + " " + rest;
        forall i | 0 <= i < |rest| && IsWhitespace(rest[i])
          ensures rest[i] == ' ' && 0 < i < |rest| - 1 && !IsWhitespace(rest[i + 1])
        {
          assert rest[i] == s[n + 1 + i];
        }
        SplitOfNormal(rest);
        assert Split(s) == [s[..n]] + Split(rest);
        assert Split(rest) != [];
        assert Split(s)[1..] == Split(rest);
      }
    }
  }

  /** Splitting joined tokens gives the tokens back. */
  lemma {:induction false} SplitOfJoin(ts: seq<string>)
    requires AreTokens(ts)
    ensures Split(Join(ts)) == ts
  {
    if |ts| == 1 {
      assert IsToken(ts[0]);
      SplitHead(ts[0], "");
      assert ts[0] + "" == ts[0] && ts == [ts[0]] + [];
    } else if |ts| > 1 {
      SplitOfJoin(ts[1..]);
      assert IsToken(ts[0]);
      SplitHead(ts[0], " " + Join(ts[1..]));
      assert (" " + Join(ts[1..]))[1..] == Join(ts[1..]);
      assert ts[0] + " " + Join(ts[1..]) == ts[0] + (" " + Join(ts[1..]));
    }
  }

  lemma SplitHead(t: string, rest: string)
    requires IsToken(t) && (rest == "" || rest[0] == ' ')
    ensures Split(t + rest) == [t] + Split(rest)
  {
    var s, n := t + rest, WordLen(t + rest);
    assert forall i :: 0 <= i < |t| ==> s[i] == t[i];
    assert rest != "" ==> s[|t|] == rest[0];
    assert s[..|t|] == t && s[|t|..] == rest;
  }

  /** Joined tokens begin with the first n joined, and end with the others joined. */
  lemma {:induction false} JoinSplitsAt(ts: seq<string>, n: nat)
    requires 0 < n < |ts|
    ensures Join(ts) == Join(ts[..n]) + " " + Join(ts[n..])
    decreases n
  {
    if n > 1 {
      JoinSplitsAt(ts[1..], n - 1);
      assert ts[1..][..n - 1] == ts[..n][1..] && ts[1..][n - 1..] == ts[n..];
      var head, tail := Join(ts[..n][1..]), Join(ts[n..]);
      assert ts[0] + " " + (head + " " + tail) == ts[0] + " " + head + " " + tail;
    }
  }

  /** Splitting falls apart at every whitespace character, and leaves a token whole: nothing else splits like this. */
  lemma SplitExactly(a: string, w: char, b: string)
    requires IsWhitespace(w)
    ensures Split(a + [w] + b) == Split(a) + Split(b)
    ensures IsToken(a) ==> Split(a) == [a]
    ensures Split("") == []
  {
    SplitAtWhitespace(a, w, b);
    if IsToken(a) {
      SplitHead(a, "");
      assert a + "" == a;
    }
  }

  lemma {:induction false} SplitAtWhitespace(a: string, w: char, b: string)
    requires IsWhitespace(w)
    ensures Split(a + [w] + b) == Split(a) + Split(b)
    decreases |a|
  {
    var s := a + [w] + b;
    if a == "" {
      assert s[1..] == b;
    } else if IsWhitespace(a[0]) {
      SplitAtWhitespace(a[1..], w, b);
      assert s[1..] == a[1..] + [w] + b;
    } else {
      var n := WordLen(a);
      SplitAtWhitespace(a[n..], w, b);
      WordBefore(a, w, b, n);
      SplitWord(s, n);
      SplitWord(a, n);
      assert [a[..n]] + (Split(a[n..]) + Split(b)) == [a[..n]] + Split(a[n..]) + Split(b);
    }
  }

  lemma SplitWord(s: string, n: nat)
    requires s != "" && !IsWhitespace(s[0]) && n == WordLen(s)
    ensures Split(s) == [s[..n]] + Split(s[n..])
  {
  }

  lemma WordBefore(a: string, w: char, b: string, n: nat)
    requires a != "" && !IsWhitespace(a[0]) && IsWhitespace(w) && n == WordLen(a)
    ensures var s := a + [w] + b; WordLen(s) == n && s[..n] == a[..n] && s[n..] == a[n..] + [w] + b
  {
    var s := a + [w] + b;
    assert s[n] == if n < |a| then a[n] else w;
    assert forall i :: 0 <= i < n ==> s[i] == a[i];
  }

  function TotalLength(ts: seq<string>): nat {
    if ts == [] then 0 else |ts[0]| + TotalLength(ts[1..])
  }

  /** The lengths of the tokens and one for every space between them. */
  lemma {:induction false} JoinLength(ts: seq<string>)
    requires ts != []
    ensures |Join(ts)| == TotalLength(ts) + |ts| - 1
  {
    if |ts| > 1 {
      JoinLength(ts[1..]);
    }
  }
}
