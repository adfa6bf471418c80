/** `filter_datum` of the personal-data logger, as written and as intended.

    As written, every iteration of its loop substitutes into the ORIGINAL
    message and overwrites the previous iteration's result, so only the last
    field name has any effect; with no field names the result variable is
    never bound and Python raises `UnboundLocalError`. `FilterAll` is the
    accumulating loop the function is evidently meant to be. */
module FilteredLogger {
  import opened Text
  import opened Pattern
  import opened Substitution
  import opened Records

  /** The logger's default sensitive field names. */
  const PiiFields: seq<string> := ["name", "email", "ssn", "password"]

  /** What a call of `filter_datum` ends in: a returned string, or the
      `UnboundLocalError` raised when the loop never ran. */
  datatype Outcome = Returned(msg: string) | UnboundLocalError

  /** Every field name can be spliced into the pattern and the replacement. */
  predicate ValidFields(fields: seq<string>, red: string, sep: char) {
    forall j :: 0 <= j < |fields| ==> InDomain(fields[j], red, sep)
  }

  /** `filter_datum` as written: the loop over the field names, each pass
      reading the original `message`. The result is the last field's pass
      on the original message; earlier passes are lost. */
  method FilterDatum(fields: seq<string>, red: string, message: string, sep: char)
    returns (r: Outcome)
    requires ValidFields(fields, red, sep)
    ensures |fields| == 0 <==> r.UnboundLocalError?
    ensures |fields| > 0 ==> r == Returned(SubOne(fields[|fields| - 1], red, message, sep))
  {
    r := UnboundLocalError;  // `msg` is not bound before the first pass
    for i := 0 to |fields|
      invariant i == 0 <==> r.UnboundLocalError?
      invariant i > 0 ==> r == Returned(SubOne(fields[i - 1], red, message, sep))
    {
      r := Returned(SubOne(fields[i], red, message, sep));
    }
  }

  /** `filter_datum` as intended: each pass works on the previous pass's
      result. Separators are never created nor lost. */
  function FilterAll(fields: seq<string>, red: string, message: string, sep: char): (r: string)
    requires ValidFields(fields, red, sep)
    ensures sep !in red ==> Occurrences(sep, r) == Occurrences(sep, message)
  {
    if |fields| == 0 then message
    else
      FilterAll(fields[1..], red, SubOne(fields[0], red, message, sep), sep)
  }

  /** With a single field name the corrected loop and the loop as written
      agree. */
  lemma FilterAllSingleField(f: string, red: string, message: string, sep: char)
    requires InDomain(f, red, sep)
    ensures FilterAll([f], red, message, sep) == SubOne(f, red, message, sep)
  {
  }

  /** Some listed field name selects the key. */
  predicate AnySelects(fields: seq<string>, key: string) {
    exists j :: 0 <= j < |fields| && Selects(fields[j], key)
  }

  /** Reference result of the corrected loop on a record line: a field is
      redacted exactly when some listed name selects its key. */
  function RedactAll(fs: seq<Field>, fields: seq<string>, red: string): (r: seq<Field>)
    ensures |r| == |fs|
    ensures forall i :: 0 <= i < |fs| ==> r[i].key == fs[i].key
    ensures forall i :: 0 <= i < |fs| ==>
      r[i].value == (if AnySelects(fields, fs[i].key) then red else fs[i].value)
  {
    if |fs| == 0 then []
    else
      var head := if AnySelects(fields, fs[0].key) then Field(fs[0].key, red) else fs[0];
      [head] + RedactAll(fs[1..], fields, red)
  }

  /** The inputs for which the record reference definitions apply. */
  predicate RecordInputs(fields: seq<string>, red: string, fs: seq<Field>, sep: char) {
    && ValidFields(fields, red, sep)
    && (forall j :: 0 <= j < |fields| ==> RecordField(fields[j], sep))
    && sep != '='
    && Plain(red, sep)
    && WellFormed(fs, sep)
  }

  lemma AnySelectsCons(fields: seq<string>, key: string)
    requires |fields| > 0
    ensures AnySelects(fields, key) <==> Selects(fields[0], key) || AnySelects(fields[1..], key)
  {
    if AnySelects(fields[1..], key) {
      var j :| 0 <= j < |fields[1..]| && Selects(fields[1..][j], key);
      assert Selects(fields[j + 1], key);
    }
    if AnySelects(fields, key) && !Selects(fields[0], key) {
      var j :| 0 <= j < |fields| && Selects(fields[j], key);
      assert fields[j] == fields[1..][j - 1];
    }
  }

  /** Redacting by the first name and then by the rest is redacting by all. */
  lemma RedactAllStep(fs: seq<Field>, fields: seq<string>, red: string)
    requires |fields| > 0
    ensures RedactAll(RedactFields(fs, fields[0], red), fields[1..], red) == RedactAll(fs, fields, red)
  {
    var lhs := RedactAll(RedactFields(fs, fields[0], red), fields[1..], red);
    var rhs := RedactAll(fs, fields, red);
    forall i | 0 <= i < |fs|
      ensures lhs[i] == rhs[i]
    {
      AnySelectsCons(fields, fs[i].key);
    }
  }

  /** With no field names nothing is redacted. */
  lemma RedactAllNone(fs: seq<Field>, red: string)
    ensures RedactAll(fs, [], red) == fs
  {
    var r := RedactAll(fs, [], red);
    assert forall i :: 0 <= i < |fs| ==> r[i] == fs[i];
  }

  /** The step of the corrected loop on a record line: redacting by the first
      name and then running the loop for the rest. */
  lemma FilterAllRecordStep(fields: seq<string>, red: string, fs: seq<Field>, sep: char)
    requires RecordInputs(fields, red, fs, sep) && |fields| > 0
    ensures FilterAll(fields, red, Render(fs, sep), sep)
         == FilterAll(fields[1..], red, Render(RedactFields(fs, fields[0], red), sep), sep)
  {
    SubOneOnRecords(fields[0], red, fs, sep);
  }

  /** The corrected loop on a record line redacts every field selected by
      any listed name and leaves all other fields as they were. */
  lemma {:induction false} FilterAllOnRecords(fields: seq<string>, red: string, fs: seq<Field>, sep: char)
    requires RecordInputs(fields, red, fs, sep)
    ensures FilterAll(fields, red, Render(fs, sep), sep) == Render(RedactAll(fs, fields, red), sep)
  {
    if |fields| == 0 {
      RedactAllNone(fs, red);
    } else {
      var once := RedactFields(fs, fields[0], red);
      var line := Render(fs, sep);
      var rest := fields[1..];
      assert RecordInputs(rest, red, once, sep);
      calc {
        FilterAll(fields, red, line, sep);
        { FilterAllRecordStep(fields, red, fs, sep); }
        FilterAll(rest, red, Render(once, sep), sep);
        { FilterAllOnRecords(rest, red, once, sep); }
        Render(RedactAll(once, rest, red), sep);
        { RedactAllStep(fs, fields, red); }
        Render(RedactAll(fs, fields, red), sep);
      }
    }
  }

  /** Order does not matter to the corrected loop on a record line: two lists
      naming the same fields, in any order and with any repetition, give the
      same line. */
  lemma FilterAllOrderIndependent(fields1: seq<string>, fields2: seq<string>, red: string,
                                  fs: seq<Field>, sep: char)
    requires RecordInputs(fields1, red, fs, sep) && RecordInputs(fields2, red, fs, sep)
    requires forall f :: f in fields1 <==> f in fields2
    ensures FilterAll(fields1, red, Render(fs, sep), sep) == FilterAll(fields2, red, Render(fs, sep), sep)
  {
    FilterAllOnRecords(fields1, red, fs, sep);
    FilterAllOnRecords(fields2, red, fs, sep);
    var r1 := RedactAll(fs, fields1, red);
    var r2 := RedactAll(fs, fields2, red);
    forall i | 0 <= i < |fs|
      ensures r1[i] == r2[i]
    {
      var key := fs[i].key;
      if AnySelects(fields1, key) {
        var j :| 0 <= j < |fields1| && Selects(fields1[j], key);
        assert fields1[j] in fields2;
      }
      if AnySelects(fields2, key) {
        var j :| 0 <= j < |fields2| && Selects(fields2[j], key);
        assert fields2[j] in fields1;
      }
    }
    assert r1 == r2;
  }

  /** The corrected loop redacts every listed field completely: running any
      listed field's pass again on its result changes nothing. */
  lemma FilterAllRedactsEveryField(fields: seq<string>, red: string, fs: seq<Field>, sep: char, j: nat)
    requires RecordInputs(fields, red, fs, sep)
    requires j < |fields|
    ensures var out := FilterAll(fields, red, Render(fs, sep), sep);
            SubOne(fields[j], red, out, sep) == out
  {
    FilterAllOnRecords(fields, red, fs, sep);
    var done := RedactAll(fs, fields, red);
    assert WellFormed(done, sep);
    SubOneOnRecords(fields[j], red, done, sep);
    var again := RedactFields(done, fields[j], red);
    forall i | 0 <= i < |done|
      ensures again[i] == done[i]
    {
      if Selects(fields[j], done[i].key) {
        assert AnySelects(fields, fs[i].key);
      }
    }
    assert again == done;
  }

  /** Redaction by the corrected loop is idempotent on a record line: running
      it again, with the same field names and token, on its own output
      changes nothing. */
  lemma FilterAllIdempotent(fields: seq<string>, red: string, fs: seq<Field>, sep: char)
    requires RecordInputs(fields, red, fs, sep)
    ensures var out := FilterAll(fields, red, Render(fs, sep), sep);
            FilterAll(fields, red, out, sep) == out
  {
    FilterAllOnRecords(fields, red, fs, sep);
    var done := RedactAll(fs, fields, red);
    assert RecordInputs(fields, red, done, sep);
    FilterAllOnRecords(fields, red, done, sep);
    var again := RedactAll(done, fields, red);
    forall i | 0 <= i < |done|
      ensures again[i] == done[i]
    {
    }
    assert again == done;
  }

  /** `filter_datum` as written on a record line: only the fields selected
      by the LAST listed name are redacted. Together with the postcondition
      of `FilterDatum`, which makes its result this last pass on the original
      message, this describes what the function as written returns. */
  lemma FilterDatumOnRecords(fields: seq<string>, red: string, fs: seq<Field>, sep: char)
    requires RecordInputs(fields, red, fs, sep)
    requires |fields| > 0
    ensures SubOne(fields[|fields| - 1], red, Render(fs, sep), sep)
         == Render(RedactFields(fs, fields[|fields| - 1], red), sep)
  {
    SubOneOnRecords(fields[|fields| - 1], red, fs, sep);
  }
}
