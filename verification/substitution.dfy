/** One substitution pass of the redactor, for one field name:
    `re.sub(f'{f}=.*?{sep}', f'{f}={red}{sep}', msg)`. Python's `re.sub`
    scans left to right, replaces the leftmost match, resumes right after the
    consumed separator (so matches never overlap), and copies every character
    at which no match starts. */
module Substitution {
  import opened Text
  import opened Pattern

  /** The inputs for which the interpolated pattern and replacement are
      literal text, so that the pass is the fixed-shape scan below. */
  predicate InDomain(f: string, red: string, sep: char) {
    ValidField(f) && ValidSeparator(sep) && ValidRedaction(red)
  }

  /** The replacement every match is rewritten to. */
  function Redacted(f: string, red: string, sep: char): string {
    f + "=" + red + [sep]
  }

  /** One `re.sub` pass with the pattern `f=.*?sep`. Each match consumes one
      separator and emits one back, so when the token holds no separator the
      output has as many separators as the input. */
  function SubOne(f: string, red: string, msg: string, sep: char): (r: string)
    requires InDomain(f, red, sep)
    ensures sep !in red ==> Occurrences(sep, r) == Occurrences(sep, msg)
    decreases |msg|
  {
    if |msg| == 0 then []
    else
      match MatchLen(f, msg, sep)
      case Some(n) =>
        var rest := SubOne(f, red, msg[n..], sep);
        assert sep !in red ==> Occurrences(sep, Redacted(f, red, sep) + rest) == Occurrences(sep, msg) by {
          if sep !in red {
            var value := MatchShape(f, msg, sep, n);
            FieldSeparators(f, value, sep);
            FieldSeparators(f, red, sep);
            OccurrencesAppend(sep, f + "=" + value + [sep], msg[n..]);
            OccurrencesAppend(sep, Redacted(f, red, sep), rest);
          }
        }
        Redacted(f, red, sep) + rest
      case None =>
        var rest := SubOne(f, red, msg[1..], sep);
        assert Occurrences(sep, [msg[0]] + rest) == Occurrences(sep, [msg[0]]) + Occurrences(sep, rest) by {
          OccurrencesAppend(sep, [msg[0]], rest);
        }
        assert Occurrences(sep, msg) == Occurrences(sep, [msg[0]]) + Occurrences(sep, msg[1..]) by {
          assert msg == [msg[0]] + msg[1..];
          OccurrencesAppend(sep, [msg[0]], msg[1..]);
        }
        [msg[0]] + rest
  }

  /** Text in which no match starts is copied: if no match starts before
      position `p`, the output begins with `msg[..p]` and continues with the
      pass over the rest. In particular the text before the first match is
      unchanged. */
  lemma {:induction false} SkipUnmatched(f: string, red: string, msg: string, sep: char, p: nat)
    requires InDomain(f, red, sep)
    requires p <= |msg|
    requires forall i :: 0 <= i < p ==> MatchLen(f, msg[i..], sep).None?
    ensures SubOne(f, red, msg, sep) == msg[..p] + SubOne(f, red, msg[p..], sep)
  {
    if p > 0 {
      assert msg[0..] == msg;
      assert MatchLen(f, msg, sep).None?;
      var tail := msg[1..];
      forall i | 0 <= i < p - 1
        ensures MatchLen(f, tail[i..], sep).None?
      {
        assert tail[i..] == msg[i + 1..];
      }
      SkipUnmatched(f, red, tail, sep, p - 1);
      assert tail[p - 1..] == msg[p..];
      assert [msg[0]] + tail[..p - 1] == msg[..p];
    }
  }

  /** A message in which the pattern matches nowhere passes through. */
  lemma NoMatchIdentity(f: string, red: string, msg: string, sep: char)
    requires InDomain(f, red, sep)
    requires forall i :: 0 <= i < |msg| ==> MatchLen(f, msg[i..], sep).None?
    ensures SubOne(f, red, msg, sep) == msg
  {
    SkipUnmatched(f, red, msg, sep, |msg|);
    assert msg[..|msg|] == msg;
  }

  /** A message without the separator passes through: every match ends in
      one. This covers a trailing `f=x` that no separator closes. */
  lemma NoSeparatorUnchanged(f: string, red: string, msg: string, sep: char)
    requires InDomain(f, red, sep)
    requires sep !in msg
    ensures SubOne(f, red, msg, sep) == msg
  {
    NoMatchIdentity(f, red, msg, sep);
  }

  /** A message in which `f=` never occurs passes through. */
  lemma NoFieldUnchanged(f: string, red: string, msg: string, sep: char)
    requires InDomain(f, red, sep)
    requires forall i :: 0 <= i < |msg| ==> !StartsWith(msg[i..], f + "=")
    ensures SubOne(f, red, msg, sep) == msg
  {
    NoMatchIdentity(f, red, msg, sep);
  }

  /** Each match is rewritten in place: `f=<value><sep>` whose value holds
      neither the separator nor a newline becomes `f=<red><sep>`, and the
      match ends at that first separator (non-greedy), leaving everything
      after it to the rest of the scan. */
  lemma RewriteMatch(f: string, red: string, v: string, sep: char, rest: string)
    requires InDomain(f, red, sep)
    requires StopFree(v, sep)
    ensures SubOne(f, red, f + "=" + v + [sep] + rest, sep)
         == f + "=" + red + [sep] + SubOne(f, red, rest, sep)
  {
    var s := f + "=" + v + [sep] + rest;
    MatchOfField(f, v, sep, rest);
    assert s[|f| + |v| + 2..] == rest;
  }

  /** The same, for a match that is not at the front: when no match starts
      before position `p` and a field with a stop-free value starts there,
      the output is the untouched text before `p`, the rewritten field, and
      the pass over what follows the separator. */
  lemma RewriteFirstMatch(f: string, red: string, msg: string, sep: char,
                          p: nat, v: string, rest: string)
    requires InDomain(f, red, sep)
    requires p <= |msg|
    requires forall i :: 0 <= i < p ==> MatchLen(f, msg[i..], sep).None?
    requires msg[p..] == f + "=" + v + [sep] + rest
    requires StopFree(v, sep)
    ensures SubOne(f, red, msg, sep)
         == msg[..p] + f + "=" + red + [sep] + SubOne(f, red, rest, sep)
  {
    SkipUnmatched(f, red, msg, sep, p);
    RewriteMatch(f, red, v, sep, rest);
    Regroup(msg[..p], f, red, sep, SubOne(f, red, rest, sep));
  }

  /** Text before a rewritten field, regrouped. */
  lemma Regroup(h: string, f: string, red: string, sep: char, x: string)
    ensures h + (f + "=" + red + [sep] + x) == h + f + "=" + red + [sep] + x
  {
  }

  /** Rewriting never creates a match at a place where the original text
      had none: whatever precedes the rewritten text (`u`), a front that
      failed to match before still fails afterwards. */
  lemma {:induction false} NoMatchPreserved(f: string, red: string, u: string, m: string, sep: char)
    requires InDomain(f, red, sep)
    requires MatchLen(f, u + m, sep).None?
    ensures MatchLen(f, u + SubOne(f, red, m, sep), sep).None?
    decreases |m|
  {
    if |m| == 0 {
      assert SubOne(f, red, m, sep) == m;
    } else {
      match MatchLen(f, m, sep)
      case Some(n) =>
        // `u + m` and the rewritten text share `u` and the `f=` of the
        // match; from there the original search would have succeeded.
        var out := SubOne(f, red, m, sep);
        var k := |u| + |f| + 1;
        assert m[..|f| + 1] == f + "=";
        assert out[..|f| + 1] == f + "=";
        assert (u + m)[..k] == (u + out)[..k] by {
          assert (u + m)[..k] == u + m[..|f| + 1];
          assert (u + out)[..k] == u + out[..|f| + 1];
        }
        assert (u + m)[k..] == m[|f| + 1..];
        NoMatchStable(f, u + m, u + out, sep, k);
      case None =>
        var u' := u + [m[0]];
        assert u' + m[1..] == u + m;
        NoMatchPreserved(f, red, u', m[1..], sep);
        assert u + SubOne(f, red, m, sep) == u' + SubOne(f, red, m[1..], sep);
    }
  }

  /** Idempotence: when the token holds neither the separator nor a newline,
      a second pass with the same arguments changes nothing. */
  lemma {:induction false} SubOneIdempotent(f: string, red: string, msg: string, sep: char)
    requires InDomain(f, red, sep)
    requires StopFree(red, sep)
    ensures SubOne(f, red, SubOne(f, red, msg, sep), sep) == SubOne(f, red, msg, sep)
    decreases |msg|
  {
    if |msg| > 0 {
      var out := SubOne(f, red, msg, sep);
      match MatchLen(f, msg, sep)
      case Some(n) =>
        var rest := SubOne(f, red, msg[n..], sep);
        assert out == f + "=" + red + [sep] + rest;
        RewriteMatch(f, red, red, sep, rest);
        SubOneIdempotent(f, red, msg[n..], sep);
      case None =>
        var rest := SubOne(f, red, msg[1..], sep);
        assert out == [msg[0]] + rest;
        assert [msg[0]] + msg[1..] == msg;
        NoMatchPreserved(f, red, [msg[0]], msg[1..], sep);
        assert out[1..] == rest;
        SubOneIdempotent(f, red, msg[1..], sep);
    }
  }

  /** A field `f=<value><sep>` whose value holds no separator holds as many
      separators as `f=` plus one. */
  lemma FieldSeparators(f: string, value: string, sep: char)
    requires sep !in value
    ensures Occurrences(sep, f + "=" + value + [sep]) == Occurrences(sep, f + "=") + 1
  {
    OccurrencesAppend(sep, f + "=" + value, [sep]);
    OccurrencesAppend(sep, f + "=", value);
  }

}
