/** String predicates that stand in for the regular expressions and string
    methods the scripts use. Every pattern of the extension except one is a
    literal or an alternation of literals, so `regex.test(s)` becomes a
    substring test; the remaining one needs a word boundary and a wildcard,
    defined here as JavaScript defines them for ASCII text. */
module Text {

  predicate StartsWith(s: string, prefix: string)
  {
    |prefix| <= |s| && s[..|prefix|] == prefix
  }

  /** `s.endsWith(suffix)` */
  predicate EndsWith(s: string, suffix: string)
  {
    |suffix| <= |s| && s[|s| - |suffix|..] == suffix
  }

  /** `t` occurs in `s` starting at index `i`. */
  predicate OccursAt(s: string, t: string, i: int)
  {
    0 <= i && i + |t| <= |s| && s[i..i + |t|] == t
  }

  /** `/t/.test(s)` for a literal pattern `t`: scan from the left. */
  predicate Contains(s: string, t: string)
    decreases |s|
  {
    StartsWith(s, t) || (|s| > 0 && Contains(s[1..], t))
  }

  lemma {:induction false} ContainsIff(s: string, t: string)
    ensures Contains(s, t) <==> exists i :: OccursAt(s, t, i)
    decreases |s|
  {
    assert StartsWith(s, t) <==> OccursAt(s, t, 0);
    if |s| > 0 {
      ContainsIff(s[1..], t);
      forall i | OccursAt(s[1..], t, i) ensures OccursAt(s, t, i + 1) {
        assert s[1..][i..i + |t|] == s[i + 1..i + 1 + |t|];
      }
      forall i | OccursAt(s, t, i) && i > 0 ensures OccursAt(s[1..], t, i - 1) {
        assert s[1..][i - 1..i - 1 + |t|] == s[i..i + |t|];
      }
    } else {
      if Contains(s, t) {
        assert OccursAt(s, t, 0);
      }
      forall i | OccursAt(s, t, i) ensures i == 0 && StartsWith(s, t) {
      }
    }
  }

  /** A text contains whatever a longer text built around it contains. */
  lemma {:induction false} ContainsInConcat(a: string, t: string, b: string, c: string)
    requires Contains(b, t)
    ensures Contains(a + b + c, t)
  {
    ContainsIff(b, t);
    var i :| OccursAt(b, t, i);
    assert (a + b + c)[|a| + i..|a| + i + |t|] == b[i..i + |t|];
    assert OccursAt(a + b + c, t, |a| + i);
    ContainsIff(a + b + c, t);
  }

  function LowerChar(c: char): char
  {
    if 'A' <= c <= 'Z' then (c as int + 32) as char else c
  }

  /** `s.toLowerCase()` restricted to ASCII letters. */
  function Lower(s: string): (r: string)
    ensures |r| == |s|
    ensures forall i :: 0 <= i < |r| ==> !('A' <= r[i] <= 'Z')
    ensures forall i :: 0 <= i < |r| && !('A' <= s[i] <= 'Z') ==> r[i] == s[i]
  {
    seq(|s|, i requires 0 <= i < |s| => LowerChar(s[i]))
  }

  /** A character of `\w` in a JavaScript regular expression without the `u` flag. */
  predicate WordChar(c: char)
  {
    'a' <= c <= 'z' || 'A' <= c <= 'Z' || '0' <= c <= '9' || c == '_'
  }

  /** The characters `.` does not match in a JavaScript regular expression. */
  predicate LineTerminator(c: char)
  {
    c == '\n' || c == '\r' || c == '\U{2028}' || c == '\U{2029}'
  }

  /** `\bw\b` matches at `i`, for a word `w` that begins and ends with word characters. */
  predicate WholeWordAt(s: string, w: string, i: int)
  {
    OccursAt(s, w, i)
    && (i == 0 || !WordChar(s[i - 1]))
    && (i + |w| == |s| || !WordChar(s[i + |w|]))
  }

  /** `a.b` matches at `i`: `a`, one character other than a line terminator, then `b`. */
  predicate JoinedAt(s: string, a: string, b: string, i: int)
  {
    OccursAt(s, a, i)
    && i + |a| < |s|
    && !LineTerminator(s[i + |a|])
    && OccursAt(s, b, i + |a| + 1)
  }
}
