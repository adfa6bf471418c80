/** The one regular-expression shape the redactor builds: for a field name
    `f` and a separator `sep`, the pattern `f=.*?sep`. Under the domain
    conditions below (no regular-expression metacharacter in `f` or `sep`),
    it matches a literal `f`, a literal `=`, the SHORTEST run of characters
    other than a newline (`.` never matches a newline) and then one `sep`. */
module Pattern {
  import opened Text

  /** Characters that carry meaning in a Python regular expression. */
  const RegexMeta: set<char> :=
    {'.', '^', '$', '*', '+', '?', '{', '}', '[', ']', '\\', '|', '(', ')'}

  /** A field name that stands for itself when spliced into the pattern. */
  predicate ValidField(f: string) {
    Avoids(f, RegexMeta)
  }

  /** A separator that stands for itself when spliced into the pattern. */
  predicate ValidSeparator(sep: char) {
    sep !in RegexMeta
  }

  /** A redaction token that stands for itself in a replacement template
      (only a backslash starts an escape or a group reference there). */
  predicate ValidRedaction(red: string) {
    '\\' !in red
  }

  /** Characters that end the search for a value: the separator closes it,
      a newline makes it fail. */
  predicate StopFree(s: string, sep: char) {
    Avoids(s, {sep, '\n'})
  }

  /** `.*?sep` can match `s[..v+1]`: the value `s[..v]` holds no newline and
      is followed by the separator. */
  predicate EndsValue(s: string, sep: char, v: int) {
    0 <= v < |s| && s[v] == sep && '\n' !in s[..v]
  }

  /** Length of the value the non-greedy `.*?sep` takes at the front of `s`,
      or None when no separator is reached before a newline or the end. */
  function ValueLen(s: string, sep: char): (r: Option<nat>)
    ensures r.Some? ==> EndsValue(s, sep, r.value)
    ensures r.Some? ==> forall w :: 0 <= w < r.value ==> s[w] != sep
    ensures r.None? <==> forall v :: !EndsValue(s, sep, v)
  {
    if |s| == 0 then None
    else if s[0] == sep then
      assert EndsValue(s, sep, 0) by { assert s[..0] == []; }
      Some(0)
    else if s[0] == '\n' then None
    else
      var rest := ValueLen(s[1..], sep);
      assert forall v :: 1 <= v <= |s| ==> s[..v] == [s[0]] + s[1..][..v - 1];
      assert forall v :: 1 <= v < |s| ==> (EndsValue(s, sep, v) <==> EndsValue(s[1..], sep, v - 1));
      assert !EndsValue(s, sep, 0);
      match rest
      case Some(v) => Some(v + 1)
      case None => None
  }

  /** The pattern `f=.*?sep` matches the first `n` characters of `s`. */
  predicate MatchesAt(f: string, s: string, sep: char, n: int) {
    |f| + 2 <= n <= |s| && StartsWith(s, f + "=") && EndsValue(s[|f| + 1..], sep, n - |f| - 2)
  }

  /** Length of the match Python's `re` finds for `f=.*?sep` at the front of
      `s`: the shortest one, because the quantifier is non-greedy. */
  function MatchLen(f: string, s: string, sep: char): (r: Option<nat>)
    ensures r.Some? ==> MatchesAt(f, s, sep, r.value)
    ensures r.Some? ==> forall n :: 0 <= n < r.value ==> !MatchesAt(f, s, sep, n)
    ensures r.None? <==> forall n :: !MatchesAt(f, s, sep, n)
  {
    if StartsWith(s, f + "=") then
      match ValueLen(s[|f| + 1..], sep)
      case Some(v) =>
        assert MatchesAt(f, s, sep, |f| + 1 + v + 1);
        Some(|f| + 1 + v + 1)
      case None =>
        assert forall n :: MatchesAt(f, s, sep, n) ==> EndsValue(s[|f| + 1..], sep, n - |f| - 2);
        None
    else None
  }

  /** The shape of a match: `f`, `=`, a value holding neither the separator
      nor a newline, and the separator. */
  lemma MatchShape(f: string, s: string, sep: char, n: nat) returns (value: string)
    requires MatchLen(f, s, sep) == Some(n)
    ensures n <= |s|
    ensures s == f + "=" + value + [sep] + s[n..]
    ensures StopFree(value, sep)
  {
    value := s[|f| + 1..n - 1];
    var t := s[|f| + 1..];
    assert t[..n - |f| - 2] == value;
    assert s[..|f| + 1] == f + "=";
    assert s == s[..|f| + 1] + value + [s[n - 1]] + s[n..];
  }

  /** A value cannot run across a newline: when a newline comes before any
      separator after `f=`, no match starts there. */
  lemma NewlineBlocksMatch(f: string, v: string, sep: char, rest: string)
    requires sep != '\n' && sep !in v
    ensures MatchLen(f, f + "=" + v + "\n" + rest, sep).None?
  {
    var s := f + "=" + v + "\n" + rest;
    if StartsWith(s, f + "=") {
      assert s[|f| + 1..] == v + ("\n" + rest);
      ValueLenAppend(v, "\n" + rest, sep);
      assert ValueLen("\n" + rest, sep).None?;
    }
  }

  /** Splitting the searched text: the search for a value never looks past
      the first stop character, and skips over a stop-free prefix. */
  lemma {:induction false} ValueLenAppend(x: string, y: string, sep: char)
    ensures StopFree(x, sep) ==>
      ValueLen(x + y, sep) == (match ValueLen(y, sep)
                               case Some(v) => Some(|x| + v)
                               case None => None)
    ensures !StopFree(x, sep) ==> ValueLen(x + y, sep) == ValueLen(x, sep)
  {
    if |x| == 0 {
      assert x + y == y;
    } else {
      assert (x + y)[0] == x[0];
      assert (x + y)[1..] == x[1..] + y;
      ValueLenAppend(x[1..], y, sep);
      if x[0] != sep && x[0] != '\n' {
        assert StopFree(x, sep) <==> StopFree(x[1..], sep) by {
          assert forall i :: 1 <= i < |x| ==> x[i] == x[1..][i - 1];
        }
      }
    }
  }

  /** The value that follows `f=` when it is stop-free and closed by the
      separator is exactly what the pattern takes. */
  lemma MatchOfField(f: string, v: string, sep: char, rest: string)
    requires StopFree(v, sep)
    ensures MatchLen(f, f + "=" + v + [sep] + rest, sep) == Some(|f| + |v| + 2)
  {
    var tail := [sep] + rest;
    var s := (f + "=") + (v + tail);
    assert s == f + "=" + v + [sep] + rest;
    assert StartsWith(s, f + "=");
    assert s[|f| + 1..] == v + tail;
    assert ValueLen(tail, sep) == Some(0);
    assert ValueLen(v + tail, sep) == Some(|v|) by {
      ValueLenAppend(v, tail, sep);
    }
  }

  /** A text that does not match at its front keeps not matching when it is
      changed only after a point that the failed search never reached: if
      `s1` and `s2` agree on their first `k` characters (at least the `f=`
      part) and the value search in `s1` would succeed when started at `k`,
      then the search in `s1` from `f=` failed inside the shared part. */
  lemma NoMatchStable(f: string, s1: string, s2: string, sep: char, k: nat)
    requires |f| + 1 <= k <= |s1| && k <= |s2|
    requires s1[..k] == s2[..k]
    requires MatchLen(f, s1, sep).None?
    requires ValueLen(s1[k..], sep).Some?
    ensures MatchLen(f, s2, sep).None?
  {
    var l := |f| + 1;
    assert s1[..l] == s2[..l] by {
      assert s1[..l] == s1[..k][..l];
      assert s2[..l] == s2[..k][..l];
    }
    if StartsWith(s1, f + "=") {
      var x := s1[l..k];
      assert s1[l..] == x + s1[k..];
      assert s2[l..] == x + s2[k..] by {
        assert s2[l..k] == s2[..k][l..];
        assert s1[l..k] == s1[..k][l..];
      }
      ValueLenAppend(x, s1[k..], sep);
      ValueLenAppend(x, s2[k..], sep);
    }
  }
}
