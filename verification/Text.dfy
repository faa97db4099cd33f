/** The string functions of the Rust standard library that the modelled code relies on. */
module Text {

  /** Unicode White_Space. */
  predicate IsSpace(c: char) {
    || '\t' <= c <= '\r' || c == ' ' || c == '\U{0085}' || c == '\U{00A0}' || c == '\U{1680}'
    || '\U{2000}' <= c <= '\U{200A}' || c == '\U{2028}' || c == '\U{2029}' || c == '\U{202F}'
    || c == '\U{205F}' || c == '\U{3000}'
  }

  function TrimStart(s: string): string {
    if |s| > 0 && IsSpace(s[0]) then TrimStart(s[1..]) else s
  }

  function TrimEnd(s: string): string {
    if |s| > 0 && IsSpace(s[|s| - 1]) then TrimEnd(s[..|s| - 1]) else s
  }

  function Trim(s: string): string {
    TrimEnd(TrimStart(s))
  }

  /** The first position at or after `p` that holds `c`, or the length. */
  function Find(s: string, c: char, p: nat): (r: nat)
    requires p <= |s|
    ensures p <= r <= |s|
    ensures forall k :: p <= k < r ==> s[k] != c
    ensures r < |s| ==> s[r] == c
    decreases |s| - p
  {
    if p == |s| || s[p] == c then p else Find(s, c, p + 1)
  }

  /** `raw` is white space, then the part from `i` to `j`, then white space; that part has none at its ends. */
  ghost predicate StripsTo(raw: string, i: nat, j: nat) {
    && i <= j <= |raw|
    && (forall k :: 0 <= k < i ==> IsSpace(raw[k]))
    && (forall k :: j <= k < |raw| ==> IsSpace(raw[k]))
    && (i < j ==> !IsSpace(raw[i]) && !IsSpace(raw[j - 1]))
  }

  lemma {:induction false} StartTrimmed(raw: string) returns (i: nat)
    ensures i <= |raw| && TrimStart(raw) == raw[i..]
    ensures forall k :: 0 <= k < i ==> IsSpace(raw[k])
    ensures i < |raw| ==> !IsSpace(raw[i])
  {
    i := 0;
    if |raw| > 0 && IsSpace(raw[0]) {
      var rest := StartTrimmed(raw[1..]);
      i := rest + 1;
    }
  }

  lemma {:induction false} EndTrimmed(s: string) returns (j: nat)
    ensures j <= |s| && TrimEnd(s) == s[..j]
    ensures forall k :: j <= k < |s| ==> IsSpace(s[k])
    ensures j > 0 ==> !IsSpace(s[j - 1])
  {
    j := |s|;
    if |s| > 0 && IsSpace(s[|s| - 1]) {
      j := EndTrimmed(s[..|s| - 1]);
    }
  }

  /** `Trim` takes off all white space at the ends, and nothing else. */
  lemma Trimmed(raw: string) returns (i: nat, j: nat)
    ensures StripsTo(raw, i, j) && Trim(raw) == raw[i..j]
  {
    i := StartTrimmed(raw);
    var s := raw[i..];
    var n := EndTrimmed(s);
    j := i + n;
    forall k | j <= k < |raw| ensures IsSpace(raw[k]) { assert raw[k] == s[k - i]; }
    assert n > 0 ==> s[n - 1] == raw[j - 1];
  }

  /** There is only one way to do that, unless nothing is left. */
  lemma TrimIs(raw: string, i: nat, j: nat)
    requires StripsTo(raw, i, j) && i < j
    ensures Trim(raw) == raw[i..j]
  {
    var i', j' := Trimmed(raw);
    assert i == i' && j == j';
  }
}
