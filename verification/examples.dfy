/** Worked instances of the redactor on concrete log lines, derived from
    the general lemmas. */
module Examples {
  import opened Text
  import opened Pattern
  import opened Substitution
  import opened Records
  import opened FilteredLogger

  /** A field name made of lower-case letters can be used on record lines
      separated by `;`. */
  lemma LowerCaseName(f: string)
    requires forall i :: 0 <= i < |f| ==> 'a' <= f[i] <= 'z'
    ensures RecordField(f, ';') && InDomain(f, "***", ';')
  {
  }

  lemma RenderCons(x: Field, fs: seq<Field>, sep: char)
    ensures Render([x] + fs, sep) == x.key + "=" + x.value + [sep] + Render(fs, sep)
  {
    assert ([x] + fs)[1..] == fs;
  }

  /** Render a line of two fields. */
  lemma RenderTwo(a: Field, b: Field, sep: char)
    ensures Render([a, b], sep) == a.key + "=" + a.value + [sep] + b.key + "=" + b.value + [sep]
  {
    RenderCons(a, [b], sep);
    RenderCons(b, [], sep);
    assert [a] + [b] == [a, b];
    assert [b] + [] == [b];
  }

  /** Rendered lines used below. */
  lemma Lines()
    ensures Render([Field("name", "a"), Field("name", "b")], ';') == "name=a;name=b;"
    ensures Render([Field("name", "***"), Field("name", "***")], ';') == "name=***;name=***;"
    ensures Render([Field("user", "42"), Field("name", "Jane")], ';') == "user=42;name=Jane;"
    ensures Render([Field("user", "42"), Field("name", "***")], ';') == "user=42;name=***;"
    ensures Render([Field("username", "bob")], ';') == "username=bob;"
    ensures Render([Field("username", "***")], ';') == "username=***;"
  {
    RenderTwo(Field("name", "a"), Field("name", "b"), ';');
    RenderTwo(Field("name", "***"), Field("name", "***"), ';');
    RenderTwo(Field("user", "42"), Field("name", "Jane"), ';');
    RenderTwo(Field("user", "42"), Field("name", "***"), ';');
    RenderCons(Field("username", "bob"), [], ';');
    RenderCons(Field("username", "***"), [], ';');
    assert [Field("username", "bob")] + [] == [Field("username", "bob")];
    assert [Field("username", "***")] + [] == [Field("username", "***")];
  }

  /** Two occurrences of the same field are both rewritten, left to right. */
  lemma RepeatedField()
    ensures SubOne("name", "***", "name=a;name=b;", ';') == "name=***;name=***;"
  {
    LowerCaseName("name");
    var fs := [Field("name", "a"), Field("name", "b")];
    assert WellFormed(fs, ';');
    assert RedactFields(fs, "name", "***") == [Field("name", "***"), Field("name", "***")];
    SubOneOnRecords("name", "***", fs, ';');
    Lines();
  }

  /** Fields of other names are left alone. */
  lemma OtherFieldKept()
    ensures SubOne("name", "***", "user=42;name=Jane;", ';') == "user=42;name=***;"
  {
    LowerCaseName("name");
    var fs := [Field("user", "42"), Field("name", "Jane")];
    var out := [Field("user", "42"), Field("name", "***")];
    assert WellFormed(fs, ';');
    assert !Selects("name", "user");
    assert RedactFields(fs, "name", "***") == out;
    SubOneOnRecords("name", "***", fs, ';');
    Lines();
  }

  /** The pattern is not anchored: `name` also redacts `username`. */
  lemma SuffixOfKeyMatches()
    ensures SubOne("name", "***", "username=bob;", ';') == "username=***;"
  {
    LowerCaseName("name");
    var fs := [Field("username", "bob")];
    assert WellFormed(fs, ';');
    assert Selects("name", "username");
    assert RedactFields(fs, "name", "***") == [Field("username", "***")];
    SubOneOnRecords("name", "***", fs, ';');
    Lines();
  }

  /** A record line with the logger's default fields, in their order. */
  function PiiLine(name: string, email: string, ssn: string, password: string): string {
    Render([Field("name", name), Field("email", email), Field("ssn", ssn), Field("password", password)], ';')
  }

  lemma RenderOne(x: Field, sep: char)
    ensures Render([x], sep) == x.key + "=" + x.value + [sep]
  {
    RenderCons(x, [], sep);
    assert [x] + [] == [x];
  }

  /** A four-field line is the text of each field in turn. */
  lemma RenderFour(a: Field, b: Field, c: Field, d: Field, sep: char)
    ensures Render([a, b, c, d], sep)
         == (a.key + "=" + a.value + [sep]) + (b.key + "=" + b.value + [sep])
          + (c.key + "=" + c.value + [sep]) + (d.key + "=" + d.value + [sep])
  {
    assert [a, b, c, d] == [a] + [b] + [c] + [d];
    RenderAppend([a] + [b] + [c], [d], sep);
    RenderAppend([a] + [b], [c], sep);
    RenderAppend([a], [b], sep);
    RenderOne(a, sep);
    RenderOne(b, sep);
    RenderOne(c, sep);
    RenderOne(d, sep);
  }

  /** Field names and token usable on `;`-separated record lines. */
  predicate Usable(fields: seq<string>, red: string) {
    && ValidFields(fields, red, ';')
    && (forall j :: 0 <= j < |fields| ==> RecordField(fields[j], ';'))
    && Plain(red, ';')
  }

  /** The logger's defaults are usable, end with `password` and list all four
      default names. */
  lemma DefaultsUsable()
    ensures Usable(PiiFields, "***")
    ensures PiiFields[|PiiFields| - 1] == "password"
    ensures "name" in PiiFields && "email" in PiiFields && "ssn" in PiiFields && "password" in PiiFields
  {
    LowerCaseName("name");
    LowerCaseName("email");
    LowerCaseName("ssn");
    LowerCaseName("password");
    assert Plain("***", ';');
    assert PiiFields[0] == "name" && PiiFields[1] == "email";
    assert PiiFields[2] == "ssn" && PiiFields[3] == "password";
  }

  /** The four default fields with the given values. */
  function PiiRecord(name: string, email: string, ssn: string, password: string): seq<Field> {
    [Field("name", name), Field("email", email), Field("ssn", ssn), Field("password", password)]
  }

  /** The loop as written, with any field list ending in `password`, redacts
      the password of a default record line and leaves the other three values
      in the clear, whatever they are. */
  lemma AsWrittenRedactsOnlyPassword(fields: seq<string>, red: string,
                                     name: string, email: string, ssn: string, password: string)
    requires Usable(fields, red) && |fields| > 0 && fields[|fields| - 1] == "password"
    requires Plain(name, ';') && Plain(email, ';') && Plain(ssn, ';') && Plain(password, ';')
    ensures SubOne(fields[|fields| - 1], red, PiiLine(name, email, ssn, password), ';')
         == PiiLine(name, email, ssn, red)
  {
    var fs := PiiRecord(name, email, ssn, password);
    assert RecordInputs(fields, red, fs, ';');
    FilterDatumOnRecords(fields, red, fs, ';');
    assert !Selects("password", "name") && !Selects("password", "email") && !Selects("password", "ssn");
    assert RedactFields(fs, "password", red) == PiiRecord(name, email, ssn, red);
  }

  /** Every field of a default record line is selected by some listed name
      when the list holds the four default names. */
  lemma DefaultNamesSelectAll(fields: seq<string>, red: string, fs: seq<Field>)
    requires |fs| == 4 && fs[0].key == "name" && fs[1].key == "email"
    requires fs[2].key == "ssn" && fs[3].key == "password"
    requires "name" in fields && "email" in fields && "ssn" in fields && "password" in fields
    ensures RedactAll(fs, fields, red) == PiiRecord(red, red, red, red)
  {
    var r := RedactAll(fs, fields, red);
    forall i | 0 <= i < 4
      ensures r[i] == Field(fs[i].key, red)
    {
      var j :| 0 <= j < |fields| && fields[j] == fs[i].key;
      assert Selects(fields[j], fs[i].key);
    }
  }

  /** The corrected loop, with a list holding the four default names,
      redacts all four values. */
  lemma CorrectedRedactsAll(fields: seq<string>, red: string,
                            name: string, email: string, ssn: string, password: string)
    requires Usable(fields, red)
    requires "name" in fields && "email" in fields && "ssn" in fields && "password" in fields
    requires Plain(name, ';') && Plain(email, ';') && Plain(ssn, ';') && Plain(password, ';')
    ensures FilterAll(fields, red, PiiLine(name, email, ssn, password), ';')
         == PiiLine(red, red, red, red)
  {
    var fs := PiiRecord(name, email, ssn, password);
    assert RecordInputs(fields, red, fs, ';');
    FilterAllOnRecords(fields, red, fs, ';');
    DefaultNamesSelectAll(fields, red, fs);
  }

  /** A value sits right after `name=`. */
  lemma PiiLineName(name: string, email: string, ssn: string, password: string)
    requires |name| > 0
    ensures 5 < |PiiLine(name, email, ssn, password)|
    ensures PiiLine(name, email, ssn, password)[5] == name[0]
  {
    RenderFour(Field("name", name), Field("email", email), Field("ssn", ssn), Field("password", password), ';');
  }

  /** The loop as written leaks the name: with a field list that ends in
      `password` and also names `name` (the logger's defaults, say), on a
      default record line whose name value does not start like the token
      (`name=John;...` with `***`), the output as written shows the name's
      first character right after `name=`, where the corrected loop shows
      the token. */
  lemma AsWrittenLeaksName(fields: seq<string>, red: string,
                           name: string, email: string, ssn: string, password: string)
    requires Usable(fields, red) && |fields| > 0 && fields[|fields| - 1] == "password"
    requires "name" in fields && "email" in fields && "ssn" in fields
    requires Plain(name, ';') && Plain(email, ';') && Plain(ssn, ';') && Plain(password, ';')
    requires |name| > 0 && |red| > 0 && name[0] != red[0]
    ensures var line := PiiLine(name, email, ssn, password);
            var asWritten := SubOne(fields[|fields| - 1], red, line, ';');
            var corrected := FilterAll(fields, red, line, ';');
            && 5 < |asWritten| && asWritten[5] == name[0]
            && 5 < |corrected| && corrected[5] == red[0]
            && asWritten != corrected
  {
    AsWrittenRedactsOnlyPassword(fields, red, name, email, ssn, password);
    CorrectedRedactsAll(fields, red, name, email, ssn, password);
    PiiLineName(name, email, ssn, red);
    PiiLineName(red, red, red, red);
  }
}
