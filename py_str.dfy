/** The three Python string built-ins the to-do store relies on:
    `str.strip()`, `str.lower()` and the substring test `k in s`.
    Characters are Unicode scalar values, as Python's code points are. */
module PyStr {

  /** Python's `str.isspace()` on one character: TAB..CR, the separators
      FS..US, SPACE, NEL, NO-BREAK SPACE and the Unicode space separators. */
  predicate IsSpace(c: char) {
    || ('\t' <= c <= '\r')
    || ('\U{1C}' <= c <= ' ')
    || c == '\U{85}' || c == '\U{A0}' || c == '\U{1680}'
    || ('\U{2000}' <= c <= '\U{200A}')
    || c == '\U{2028}' || c == '\U{2029}' || c == '\U{202F}' || c == '\U{205F}'
    || c == '\U{3000}'
  }

  /** Every character of `s` is whitespace (true of the empty string). */
  predicate AllSpace(s: string) {
    forall i :: 0 <= i < |s| ==> IsSpace(s[i])
  }

  /** Neither end of `s` is whitespace: what `strip()` leaves behind. */
  predicate Stripped(s: string) {
    s == [] || (!IsSpace(s[0]) && !IsSpace(s[|s| - 1]))
  }

  lemma AllSpaceConcat(a: string, b: string)
    ensures AllSpace(a + b) <==> AllSpace(a) && AllSpace(b)
  {
    if AllSpace(a) && AllSpace(b) {
      forall i | 0 <= i < |a + b|
        ensures IsSpace((a + b)[i])
      {
        if i >= |a| {
          assert (a + b)[i] == b[i - |a|];
        }
      }
    }
    if AllSpace(a + b) {
      forall i | 0 <= i < |a|
        ensures IsSpace(a[i])
      {
        assert (a + b)[i] == a[i];
      }
      forall i | 0 <= i < |b|
        ensures IsSpace(b[i])
      {
        assert (a + b)[|a| + i] == b[i];
      }
    }
  }

  /** `r` is `s` without its leading whitespace: a suffix of `s` that does
      not start with whitespace, after only whitespace. */
  predicate LeadDropped(s: string, r: string) {
    && |r| <= |s| && r == s[|s| - |r|..]
    && AllSpace(s[..|s| - |r|])
    && (r == [] || !IsSpace(r[0]))
  }

  /** `r` is `s` without its trailing whitespace: a prefix of `s` that does
      not end with whitespace, before only whitespace. */
  predicate TrailDropped(s: string, r: string) {
    && |r| <= |s| && r == s[..|r|]
    && AllSpace(s[|r|..])
    && (r == [] || !IsSpace(r[|r| - 1]))
  }

  /** `s.lstrip()`. */
  function StripStart(s: string): (r: string)
    ensures LeadDropped(s, r)
  {
    if s != [] && IsSpace(s[0]) then
      var r := StripStart(s[1..]);
      assert s[..|s| - |r|] == [s[0]] + s[1..][..|s| - 1 - |r|];
      AllSpaceConcat([s[0]], s[1..][..|s| - 1 - |r|]);
      r
    else s
  }

  /** `s.rstrip()`. */
  function StripEnd(s: string): (r: string)
    ensures TrailDropped(s, r)
  {
    if s != [] && IsSpace(s[|s| - 1]) then
      var r := StripEnd(s[..|s| - 1]);
      assert s[|r|..] == s[..|s| - 1][|r|..] + [s[|s| - 1]];
      AllSpaceConcat(s[..|s| - 1][|r|..], [s[|s| - 1]]);
      r
    else s
  }

  /** `r` sits in `s` at position `lead` with only whitespace around it. */
  predicate InfixWithin(s: string, lead: nat, r: string) {
    && lead + |r| <= |s|
    && r == s[lead..lead + |r|]
    && AllSpace(s[..lead])
    && AllSpace(s[lead + |r|..])
  }

  /** `s.strip()`: an infix of `s` that neither starts nor ends with
      whitespace, with only whitespace dropped on either side. It is empty
      exactly when `s` is all whitespace. */
  function Strip(s: string): (r: string)
    ensures Stripped(r)
    ensures r == [] <==> AllSpace(s)
    ensures InfixWithin(s, |s| - |StripStart(s)|, r)
  {
    var t := StripStart(s);
    var r := StripEnd(t);
    StripInfix(s, t, r);
    r
  }

  /** Dropping leading whitespace from `s`, giving `t`, then trailing
      whitespace from `t`, giving `r`, drops whitespace only. */
  lemma StripInfix(s: string, t: string, r: string)
    requires LeadDropped(s, t) && TrailDropped(t, r)
    ensures Stripped(r)
    ensures r == [] <==> AllSpace(s)
    ensures InfixWithin(s, |s| - |t|, r)
  {
    var lead := |s| - |t|;
    assert s[lead + |r|..] == t[|r|..];
    assert s == s[..lead] + t;
    AllSpaceConcat(s[..lead], t);
    if r == [] {
      assert t == t[|r|..];
    } else {
      assert !AllSpace(t);
    }
  }

  /** `c.lower()` for the ASCII capitals; every other character is kept. */
  function LowerChar(c: char): char {
    if 'A' <= c <= 'Z' then (c as int - 'A' as int + 'a' as int) as char else c
  }

  /** `s.lower()`, character by character: no ASCII capital survives and
      every other character is left where it was. */
  function Lower(s: string): (r: string)
    ensures |r| == |s|
    ensures forall i :: 0 <= i < |r| ==> !('A' <= r[i] <= 'Z')
    ensures forall i :: 0 <= i < |s| && !('A' <= s[i] <= 'Z') ==> r[i] == s[i]
    ensures forall i :: 0 <= i < |s| && 'A' <= s[i] <= 'Z' ==> r[i] as int == s[i] as int + 32
  {
    seq(|s|, i requires 0 <= i < |s| => LowerChar(s[i]))
  }

  /** `k` occurs in `s` starting at position `i`. */
  predicate OccursAt(s: string, k: string, i: int) {
    0 <= i && i + |k| <= |s| && s[i..i + |k|] == k
  }

  /** Python's `k in s` for strings: `k` is a prefix of `s` or of one of its
      suffixes. */
  predicate Contains(s: string, k: string)
    decreases |s|
  {
    |k| <= |s| && (s[..|k|] == k || Contains(s[1..], k))
  }

  /** `k in s` holds exactly when `k` occurs at some position of `s`. */
  lemma {:induction false} ContainsIffOccurs(s: string, k: string)
    ensures Contains(s, k) <==> exists i :: OccursAt(s, k, i)
    decreases |s|
  {
    if |k| > |s| {
    } else if s[..|k|] == k {
      assert OccursAt(s, k, 0);
    } else {
      ContainsIffOccurs(s[1..], k);
      if Contains(s, k) {
        var i :| OccursAt(s[1..], k, i);
        assert s[1..][i..i + |k|] == s[i + 1..i + 1 + |k|];
        assert OccursAt(s, k, i + 1);
      }
      if i :| OccursAt(s, k, i) {
        assert i != 0;
        assert s[1..][i - 1..i - 1 + |k|] == s[i..i + |k|];
        assert OccursAt(s[1..], k, i - 1);
      }
    }
  }

  /** Lower-casing a string that already is lower case changes nothing. */
  lemma LowerIdempotent(s: string)
    ensures Lower(Lower(s)) == Lower(s)
  {
  }

  /** `c` and `d` are the same letter up to ASCII case. */
  predicate SameUpToCase(c: char, d: char) {
    || c == d
    || ('A' <= c <= 'Z' && d as int == c as int + 32)
    || ('A' <= d <= 'Z' && c as int == d as int + 32)
  }

  /** Lowering both strings makes them equal exactly when they agree up to
      ASCII case, so comparing lowered strings ignores case. */
  lemma LowerEqualIffSameUpToCase(a: string, b: string)
    ensures Lower(a) == Lower(b)
            <==> |a| == |b| && forall i :: 0 <= i < |a| ==> SameUpToCase(a[i], b[i])
  {
    if Lower(a) == Lower(b) {
      forall i | 0 <= i < |a|
        ensures SameUpToCase(a[i], b[i])
      {
        assert Lower(a)[i] == Lower(b)[i];
      }
    }
    if |a| == |b| && forall i :: 0 <= i < |a| ==> SameUpToCase(a[i], b[i]) {
      forall i | 0 <= i < |a|
        ensures Lower(a)[i] == Lower(b)[i]
      {
        assert SameUpToCase(a[i], b[i]);
      }
    }
  }
}
