/**
  The corpus validator's bag comparison of truth and decode, and its relation
  to the edit distance printed beside it.
*/
module GhostChars {
  import opened Text
  import opened EditDistance

  /** The non-whitespace characters of s, with their multiplicities. */
  ghost function Bag(s: string): multiset<char> {
    if s == [] then multiset{}
    else if IsWhitespace(Last(s)) then Bag(DropLast(s))
    else Bag(DropLast(s)) + multiset{Last(s)}
  }

  /** Where a character stands in a text. */
  ghost function Places(s: string, c: char): set<nat> { set i: nat | i < |s| && s[i] == c }

  lemma PlacesNext(s: string, c: char)
    requires s != []
    ensures |Places(s, c)| == |Places(DropLast(s), c)| + if Last(s) == c then 1 else 0
  {
    var n := |s| - 1;
    assert Places(s, c) == Places(DropLast(s), c) + if s[n] == c then {n} else {};
  }

  /** Every character but whitespace stands in the bag as often as it stands in the text. */
  lemma {:induction false} BagCounts(s: string, c: char)
    ensures Bag(s)[c] == if IsWhitespace(c) then 0 else |Places(s, c)|
  {
    if s == [] {
      assert Places(s, c) == {};
    } else {
      BagCounts(DropLast(s), c);
      PlacesNext(s, c);
    }
  }

  /** How many non-whitespace characters of decoded are beyond what truth contains. */
  ghost function Ghosts(truth: string, decoded: string): nat {
    |Bag(decoded) - Bag(truth)|
  }

  /** The counting table of one text. */
  method Counts(s: string) returns (m: map<char, nat>)
    ensures forall c :: (c in m <==> c in Bag(s)) && (c in m ==> m[c] == Bag(s)[c])
  {
    m := map[];
    for i := 0 to |s|
      invariant forall c :: (c in m <==> c in Bag(s[..i])) && (c in m ==> m[c] == Bag(s[..i])[c])
    {
      assert DropLast(s[..i + 1]) == s[..i] && Last(s[..i + 1]) == s[i];
      if !IsWhitespace(s[i]) {
        m := m[s[i] := (if s[i] in m then m[s[i]] else 0) + 1];
      }
    }
    assert s[..|s|] == s;
  }

  /** Sum over the keys of have of the surplus over want, in whatever order the map yields them. */
  method Surplus(have: map<char, nat>, want: map<char, nat>, ghost h: multiset<char>, ghost w: multiset<char>)
    returns (surplus: nat)
    requires forall c :: (c in have <==> c in h) && (c in have ==> have[c] == h[c])
    requires forall c :: (c in want <==> c in w) && (c in want ==> want[c] == w[c])
    ensures surplus == |h - w|
  {
    surplus := 0;
    var keys := have.Keys;
    ghost var seen: multiset<char> := multiset{};
    while keys != {}
      invariant keys <= have.Keys
      invariant surplus == |seen|
      invariant forall c :: seen[c] == if c in have && c !in keys then (h - w)[c] else 0
    {
      var c :| c in keys;
      var tn := if c in want then want[c] else 0;
      if have[c] > tn {
        surplus := surplus + (have[c] - tn);
        seen := seen[c := have[c] - tn];
      }
      keys := keys - {c};
    }
    assert seen == h - w;
  }

  method GhostAndMissingChars(truth: string, decoded: string) returns (ghosts: nat, missing: nat)
    ensures ghosts == Ghosts(truth, decoded)
    ensures missing == Ghosts(decoded, truth)
  {
    var truthCounts := Counts(truth);
    var decodedCounts := Counts(decoded);
    ghosts := Surplus(decodedCounts, truthCounts, Bag(decoded), Bag(truth));
    missing := Surplus(truthCounts, decodedCounts, Bag(truth), Bag(decoded));
  }

  /** Ghosts minus missing is the difference of the non-whitespace lengths. */
  lemma GhostsBalance(truth: string, decoded: string)
    ensures Ghosts(truth, decoded) - Ghosts(decoded, truth) == |Bag(decoded)| - |Bag(truth)|
  {
    var t, d := Bag(truth), Bag(decoded);
    assert t * d == d * t;
    assert |d - t| == |d| - |d * t| by { assert d == (d - t) + d * t; }
    assert |t - d| == |t| - |d * t| by { assert t == (t - d) + d * t; }
  }

  lemma SurplusStep(h: multiset<char>, w: multiset<char>, c: char)
    ensures |(h + multiset{c}) - w| <= |h - w| + 1
    ensures |h - (w + multiset{c})| <= |h - w|
    ensures |h - w| <= |h - (w + multiset{c})| + 1
  {
    var more := (h + multiset{c}) - w;
    assert more == h - w || more == (h - w) + multiset{c};
    var less := h - (w + multiset{c});
    assert h - w == less || h - w == less + multiset{c};
  }

  /** The bag count never exceeds the edit distance, whichever text is the truth. */
  lemma {:induction false} GhostsBoundedByEdits(truth: string, decoded: string)
    ensures Ghosts(truth, decoded) <= Lev(truth, decoded)
    ensures Ghosts(decoded, truth) <= Lev(truth, decoded)
    decreases |truth| + |decoded|
  {
    if truth == [] {
      BagSize(decoded);
    } else if decoded == [] {
      BagSize(truth);
    } else {
      var t, d := DropLast(truth), DropLast(decoded);
      GhostsBoundedByEdits(t, decoded);
      GhostsBoundedByEdits(truth, d);
      GhostsBoundedByEdits(t, d);
      GhostsBothEnds(truth, decoded);
    }
  }

  lemma {:induction false} BagSize(s: string)
    ensures |Bag(s)| <= |s|
  {
    if s != [] {
      BagSize(DropLast(s));
    }
  }

  lemma GhostsOneEnd(x: string, y: string)
    requires x != []
    ensures Ghosts(x, y) <= Ghosts(DropLast(x), y)
    ensures Ghosts(y, x) <= Ghosts(y, DropLast(x)) + 1
  {
    SurplusStep(Bag(y), Bag(DropLast(x)), Last(x));
    SurplusStep(Bag(DropLast(x)), Bag(y), Last(x));
  }

  lemma GhostsBothEnds(x: string, y: string)
    requires x != [] && y != []
    ensures Ghosts(x, y) <= Ghosts(DropLast(x), y) && Ghosts(y, x) <= Ghosts(y, DropLast(x)) + 1
    ensures Ghosts(y, x) <= Ghosts(DropLast(y), x) && Ghosts(x, y) <= Ghosts(x, DropLast(y)) + 1
    ensures Ghosts(x, y) <= Ghosts(DropLast(x), DropLast(y)) + Cost(Last(x), Last(y))
    ensures Ghosts(y, x) <= Ghosts(DropLast(y), DropLast(x)) + Cost(Last(x), Last(y))
  {
    GhostsOneEnd(x, y);
    GhostsOneEnd(y, x);
    GhostsOneEnd(x, DropLast(y));
    GhostsOneEnd(y, DropLast(x));
    if Last(x) == Last(y) && !IsWhitespace(Last(x)) {
      assert Bag(y) - Bag(x) == Bag(DropLast(y)) - Bag(DropLast(x));
      assert Bag(x) - Bag(y) == Bag(DropLast(x)) - Bag(DropLast(y));
    }
  }
}
