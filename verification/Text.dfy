/** Characters and strings as the decoders treat them. */
module Text {
  /** Rust's char::is_whitespace: the Unicode White_Space property. */
  predicate IsWhitespace(c: char) {
    || '\t' <= c <= '\r' || c == ' ' || c == '\U{85}' || c == '\U{A0}' || c == '\U{1680}'
    || '\U{2000}' <= c <= '\U{200A}' || c == '\U{2028}' || c == '\U{2029}'
    || c == '\U{202F}' || c == '\U{205F}' || c == '\U{3000}'
  }

  predicate EndsWithSpace(s: string) {
    |s| > 0 && s[|s| - 1] == ' '
  }

  /** s without the whitespace at its end. */
  function TrimEnd(s: string): (t: string)
    ensures t <= s
    ensures forall i :: |t| <= i < |s| ==> IsWhitespace(s[i])
    ensures t != [] ==> !IsWhitespace(t[|t| - 1])
  {
    if s == [] || !IsWhitespace(s[|s| - 1]) then s else TrimEnd(s[..|s| - 1])
  }

  /** s without the whitespace at its start. */
  function TrimStart(s: string): string {
    if s == [] || !IsWhitespace(s[0]) then s else TrimStart(s[1..])
  }

  function Trim(s: string): string { TrimStart(TrimEnd(s)) }

  lemma {:induction false} TrimStartExactly(s: string) returns (k: nat)
    ensures k <= |s| && TrimStart(s) == s[k..] && forall i :: 0 <= i < k ==> IsWhitespace(s[i])
    ensures k < |s| ==> !IsWhitespace(s[k])
  {
    k := 0;
    if s != [] && IsWhitespace(s[0]) {
      k := TrimStartExactly(s[1..]);
      assert forall i :: 0 < i <= k ==> s[i] == s[1..][i - 1];
      assert s[1..][k..] == s[k + 1..];
      k := k + 1;
    }
  }

  /** Trimming takes away the whitespace at both ends and nothing else. */
  lemma TrimExactly(s: string) returns (k: nat, n: nat)
    ensures k <= n <= |s| && Trim(s) == s[k..n]
    ensures forall i :: 0 <= i < |s| && !(k <= i < n) ==> IsWhitespace(s[i])
    ensures k < n ==> !IsWhitespace(s[k]) && !IsWhitespace(s[n - 1])
  {
    n := |TrimEnd(s)|;
    k := TrimStartExactly(TrimEnd(s));
    assert forall i :: 0 <= i < n ==> TrimEnd(s)[i] == s[i];
  }
}
