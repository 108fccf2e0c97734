/**
 The namespace-prefix rule of compact IRIs (section 4.1.5 of JSON-LD 1.1): a term
 `prefix:suffix` may be resolved through its prefix alone. The library's
 `getInitialString` (lib/flureeContext.js:79-88) extracts that prefix.
 */
module Terms {

  /** `s.indexOf(c)`: the first position of `c` in `s`, or -1. */
  function IndexOf(s: string, c: char): (i: int)
    ensures -1 <= i < |s|
    ensures i == -1 <==> c !in s
    ensures 0 <= i ==> s[i] == c && c !in s[..i]
  {
    if |s| == 0 then -1
    else if s[0] == c then 0
    else
      var j := IndexOf(s[1..], c);
      if j == -1 then -1
      else
        assert s[..j + 1] == [s[0]] + s[1..][..j];
        j + 1
  }

  /** `getInitialString`: the text before the first colon, or the whole string when it has none. */
  function InitialString(s: string): (r: string)
    ensures ':' !in r
    ensures r <= s
    ensures r == s || s[|r|] == ':'
  {
    var colonPos := IndexOf(s, ':');
    if colonPos == -1 then s else s[..colonPos]
  }

  /**
   The three properties of InitialString's contract determine it: any colon-free
   prefix of `s` that is either all of `s` or stops at a colon is the prefix.
   */
  lemma InitialStringUnique(s: string, p: string)
    requires p <= s
    requires ':' !in p
    requires p == s || s[|p|] == ':'
    ensures p == InitialString(s)
  {
  }

  /** The prefix of a compact IRI `prefix:suffix` whose prefix has no colon is that prefix. */
  lemma CompactIriPrefix(prefix: string, suffix: string)
    requires ':' !in prefix
    ensures InitialString(prefix + ":" + suffix) == prefix
  {
    var s := prefix + ":" + suffix;
    assert prefix <= s;
    assert s[|prefix|] == ':';
    InitialStringUnique(s, prefix);
  }

  /** Taking the prefix twice changes nothing. */
  lemma InitialStringIdempotent(s: string)
    ensures InitialString(InitialString(s)) == InitialString(s)
  {
    var r := InitialString(s);
    InitialStringUnique(r, r);
  }
}
