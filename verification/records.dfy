/** The log lines the redactor is meant for: a run of `key=value<sep>`
    fields. On such a line one substitution pass has a simple independent
    description: every field whose key ENDS WITH the field name gets the
    token as its value (the pattern is not anchored, so `name` also hits
    `username`), and every other field is left alone. */
module Records {
  import opened Text
  import opened Pattern
  import opened Substitution

  /** One `key=value` field of a log line. */
  datatype Field = Field(key: string, value: string)

  /** Text that can stand as a key or a value: no `=`, no separator and no
      newline. */
  predicate Plain(s: string, sep: char) {
    Avoids(s, {'=', sep, '\n'})
  }

  predicate WellFormed(fs: seq<Field>, sep: char) {
    forall i :: 0 <= i < |fs| ==> Plain(fs[i].key, sep) && Plain(fs[i].value, sep)
  }

  /** The log line `k1=v1<sep>k2=v2<sep>...`. */
  function Render(fs: seq<Field>, sep: char): string {
    if |fs| == 0 then []
    else fs[0].key + "=" + fs[0].value + [sep] + Render(fs[1..], sep)
  }

  /** A line of several runs of fields is the text of each run in turn. */
  lemma {:induction false} RenderAppend(p: seq<Field>, q: seq<Field>, sep: char)
    ensures Render(p + q, sep) == Render(p, sep) + Render(q, sep)
  {
    if |p| > 0 {
      assert (p + q)[1..] == p[1..] + q;
      RenderAppend(p[1..], q, sep);
    } else {
      assert p + q == q;
    }
  }

  /** The field name `f` selects a field when the key ends with it. */
  predicate Selects(f: string, key: string) {
    EndsWith(key, f)
  }

  /** A field name the pass can use on a record line: literal in the
      pattern, and free of `=` and of the separator. */
  predicate RecordField(f: string, sep: char) {
    ValidField(f) && '=' !in f && sep !in f
  }

  /** Reference result of one pass on a record line: the selected fields
      carry the token, the others are unchanged, nothing is added, dropped
      or reordered. */
  function RedactFields(fs: seq<Field>, f: string, red: string): (r: seq<Field>)
    ensures |r| == |fs|
    ensures forall i :: 0 <= i < |fs| ==> r[i].key == fs[i].key
    ensures forall i :: 0 <= i < |fs| ==>
      r[i].value == (if Selects(f, fs[i].key) then red else fs[i].value)
  {
    if |fs| == 0 then []
    else
      var head := if Selects(f, fs[0].key) then Field(fs[0].key, red) else fs[0];
      [head] + RedactFields(fs[1..], f, red)
  }

  /** No match of `f=.*?sep` starts at position `i` of `s` if `s[i + |f|]`
      is not an `=`. */
  lemma NoMatchWithoutEquals(f: string, s: string, sep: char, i: nat)
    requires i <= |s|
    requires i + |f| < |s| ==> s[i + |f|] != '='
    ensures MatchLen(f, s[i..], sep).None?
  {
  }

  /** Where no match can start in `k=v<sep>...`: before the field name's
      place at the end of `k`, and anywhere in the field when `k` does not
      end with the field name. */
  lemma NoMatchInField(f: string, k: string, v: string, rest: string, sep: char, i: nat)
    requires RecordField(f, sep) && sep != '='
    requires Plain(k, sep) && Plain(v, sep)
    requires i < |k| + |v| + 2
    requires Selects(f, k) ==> i < |k| - |f|
    ensures MatchLen(f, (k + "=" + v + [sep] + rest)[i..], sep).None?
  {
    var s := k + "=" + v + [sep] + rest;
    var j := i + |f|;
    if j < |k| {
      assert s[j] == k[j];
      NoMatchWithoutEquals(f, s, sep, i);
    } else if j == |k| {
      // `f=` would end at the field's own `=`, so `k` would end with `f`.
      var t := s[i..];
      assert !Selects(f, k);
      assert t[..|f|] == k[i..] != f;
      assert t[..|f| + 1][..|f|] == t[..|f|];
      assert (f + "=")[..|f|] == f;
      assert !StartsWith(t, f + "=");
    } else if j <= |k| + |v| {
      assert s[j] == v[j - |k| - 1];
      NoMatchWithoutEquals(f, s, sep, i);
    } else if j == |k| + |v| + 1 {
      assert s[j] == sep;
      NoMatchWithoutEquals(f, s, sep, i);
    } else {
      // `f` would have to cover the field's separator, which it avoids.
      var t := s[i..];
      var idx := |k| + |v| + 1 - i;
      assert t[idx] == sep;
      assert (f + "=")[idx] == f[idx] != sep;
      assert |t| < |f| + 1 || t[..|f| + 1][idx] != (f + "=")[idx];
      assert !StartsWith(t, f + "=");
    }
  }

  /** One pass over a selected field followed by any text. */
  lemma FieldStepSelected(f: string, red: string, k: string, v: string, rest: string, sep: char)
    requires InDomain(f, red, sep) && RecordField(f, sep) && sep != '='
    requires Plain(k, sep) && Plain(v, sep)
    requires Selects(f, k)
    ensures SubOne(f, red, k + "=" + v + [sep] + rest, sep)
         == k + "=" + red + [sep] + SubOne(f, red, rest, sep)
  {
    var s := k + "=" + v + [sep] + rest;
    var p := |k| - |f|;
    forall i | 0 <= i < p
      ensures MatchLen(f, s[i..], sep).None?
    {
      NoMatchInField(f, k, v, rest, sep, i);
    }
    assert k[..p] + f == k;
    assert s[p..] == f + "=" + v + [sep] + rest;
    assert StopFree(v, sep);
    RewriteFirstMatch(f, red, s, sep, p, v, rest);
    assert s[..p] == k[..p];
  }

  /** One pass over a field that is not selected, followed by any text. */
  lemma FieldStepUnselected(f: string, red: string, k: string, v: string, rest: string, sep: char)
    requires InDomain(f, red, sep) && RecordField(f, sep) && sep != '='
    requires Plain(k, sep) && Plain(v, sep)
    requires !Selects(f, k)
    ensures SubOne(f, red, k + "=" + v + [sep] + rest, sep)
         == k + "=" + v + [sep] + SubOne(f, red, rest, sep)
  {
    var s := k + "=" + v + [sep] + rest;
    var len := |k| + |v| + 2;
    forall i | 0 <= i < len
      ensures MatchLen(f, s[i..], sep).None?
    {
      NoMatchInField(f, k, v, rest, sep, i);
    }
    SkipUnmatched(f, red, s, sep, len);
    assert s[..len] == k + "=" + v + [sep];
    assert s[len..] == rest;
  }

  /** A record line followed by further text, regrouped at its first field. */
  lemma RenderThen(fs: seq<Field>, t: string, sep: char)
    requires |fs| > 0
    ensures Render(fs, sep) + t
         == fs[0].key + "=" + fs[0].value + [sep] + (Render(fs[1..], sep) + t)
  {
  }

  /** One pass over a record line followed by any text: the fields of the
      line are redacted as on a line of their own, and the pass carries on
      into the text. */
  lemma {:induction false} SubOneOnRecordsThen(f: string, red: string, fs: seq<Field>, t: string, sep: char)
    requires InDomain(f, red, sep) && RecordField(f, sep) && sep != '='
    requires WellFormed(fs, sep)
    ensures SubOne(f, red, Render(fs, sep) + t, sep)
         == Render(RedactFields(fs, f, red), sep) + SubOne(f, red, t, sep)
  {
    if |fs| == 0 {
      assert Render(fs, sep) + t == t;
    } else {
      var rest := Render(fs[1..], sep) + t;
      RenderThen(fs, t, sep);
      if Selects(f, fs[0].key) {
        FieldStepSelected(f, red, fs[0].key, fs[0].value, rest, sep);
      } else {
        FieldStepUnselected(f, red, fs[0].key, fs[0].value, rest, sep);
      }
      SubOneOnRecordsThen(f, red, fs[1..], t, sep);
      var r := RedactFields(fs, f, red);
      assert r[1..] == RedactFields(fs[1..], f, red);
      RenderThen(r, SubOne(f, red, t, sep), sep);
    }
  }

  /** On a well-formed record line, one pass is the reference redaction:
      selected fields get the token, all other fields are unchanged. */
  lemma SubOneOnRecords(f: string, red: string, fs: seq<Field>, sep: char)
    requires InDomain(f, red, sep) && RecordField(f, sep) && sep != '='
    requires WellFormed(fs, sep)
    ensures SubOne(f, red, Render(fs, sep), sep) == Render(RedactFields(fs, f, red), sep)
  {
    SubOneOnRecordsThen(f, red, fs, [], sep);
    assert Render(fs, sep) + [] == Render(fs, sep);
    assert Render(RedactFields(fs, f, red), sep) + [] == Render(RedactFields(fs, f, red), sep);
  }

  /** A line whose last field has no closing separator, as lines joined with
      the separator between fields are: the fields before it are redacted as
      usual, but no match can end in the last field, so it is never redacted,
      whatever its key. */
  lemma UnterminatedLastField(f: string, red: string, fs: seq<Field>, k: string, v: string, sep: char)
    requires InDomain(f, red, sep) && RecordField(f, sep) && sep != '='
    requires WellFormed(fs, sep) && Plain(k, sep) && Plain(v, sep)
    ensures SubOne(f, red, Render(fs, sep) + (k + "=" + v), sep)
         == Render(RedactFields(fs, f, red), sep) + (k + "=" + v)
  {
    var last := k + "=" + v;
    assert sep !in last by {
      assert forall i :: 0 <= i < |last| ==> last[i] == (if i < |k| then k[i] else if i == |k| then '=' else v[i - |k| - 1]);
    }
    NoSeparatorUnchanged(f, red, last, sep);
    SubOneOnRecordsThen(f, red, fs, last, sep);
  }
}
