/** The per-line record parser of `loadCoursesFromFile` (ProjectTwo.cpp:
    156-175): a line is cut at commas by four successive
    `std::getline(ss, field, ',')` calls into number, title and two
    prerequisite fields; the line is rejected when the number or the title
    is empty, and the non-empty prerequisite fields are kept in order. */
module CourseCsv {
  import opened CourseRecord

  /** What one `std::getline(ss, field, ',')` yields: the text up to the
      next comma, and what the stream still holds after that comma. */
  datatype Cut = Cut(field: string, rest: string)

  /** Reading a field from `s`. With no comma left the whole of `s` is the
      field and nothing remains; a stream with nothing left yields an empty
      field, so reading past the end of the line gives "" every time. */
  function NextField(s: string): (r: Cut)
    ensures ',' !in r.field
  {
    if |s| == 0 then Cut("", "")
    else if s[0] == ',' then Cut("", s[1..])
    else
      var r := NextField(s[1..]);
      Cut([s[0]] + r.field, r.rest)
  }

  /** The field is everything before the first comma and the rest is
      everything after it; with no comma the field is all of `s`. */
  lemma {:induction false} NextFieldCuts(s: string)
    ensures ',' in s ==> s == NextField(s).field + "," + NextField(s).rest
    ensures ',' !in s ==> NextField(s).field == s && NextField(s).rest == ""
  {
    if |s| > 0 && s[0] != ',' {
      NextFieldCuts(s[1..]);
      var r := NextField(s[1..]);
      assert s == [s[0]] + s[1..];
      if ',' in s {
        assert ',' in s[1..];
        assert s == [s[0]] + (r.field + "," + r.rest);
      }
    } else if |s| > 0 {
      assert s == [','] + s[1..];
    }
  }

  /** The four fields the loader reads from a line. */
  datatype Row = Row(number: string, title: string, prereq1: string, prereq2: string)

  function ReadRow(line: string): (row: Row)
    ensures ',' !in row.number && ',' !in row.title
    ensures ',' !in row.prereq1 && ',' !in row.prereq2
  {
    var a := NextField(line);
    var b := NextField(a.rest);
    var c := NextField(b.rest);
    var d := NextField(c.rest);
    Row(a.field, b.field, c.field, d.field)
  }

  /** The record a line describes, or `None` when the line is skipped as
      invalid. */
  function ParseLine(line: string): (r: Option<Course>)
    ensures var fs := SplitAll(line);
            r == None <==> FieldAt(fs, 0) == "" || FieldAt(fs, 1) == ""
  {
    ReadRowIsFirstFourFields(line);
    CheckRow(ReadRow(line))
  }

  /** What `ParseLine` does, in terms of the comma-separated fields of the
      line: it rejects the line exactly when the first or the second field
      is empty; otherwise the record takes its number and title from those
      two fields, and its prerequisites are the non-empty ones among the
      third and fourth fields, in that order. */
  lemma ParseLineFields(line: string)
    ensures var fs := SplitAll(line);
            ParseLine(line) == None <==> FieldAt(fs, 0) == "" || FieldAt(fs, 1) == ""
    ensures ParseLine(line).Some? ==>
              var fs, c := SplitAll(line), ParseLine(line).value;
              && c.number == FieldAt(fs, 0) && c.title == FieldAt(fs, 1)
              && |c.prerequisites| ==
                   (if FieldAt(fs, 2) == "" then 0 else 1) + (if FieldAt(fs, 3) == "" then 0 else 1)
              && (FieldAt(fs, 2) != "" ==> c.prerequisites[0] == FieldAt(fs, 2))
              && (FieldAt(fs, 3) != "" ==> c.prerequisites[|c.prerequisites| - 1] == FieldAt(fs, 3))
    ensures ParseLine(line).Some? ==> Loadable(ParseLine(line).value)
  {
    ReadRowIsFirstFourFields(line);
  }

  /** The validity check and the building of the record from the four
      fields. */
  function CheckRow(row: Row): (r: Option<Course>)
    ensures r == None <==> row.number == "" || row.title == ""
    ensures r.Some? ==> r.value.number == row.number && r.value.title == row.title
    ensures r.Some? ==> |r.value.prerequisites| <= 2
    ensures r.Some? ==> forall p :: p in r.value.prerequisites ==> p != "" && (p == row.prereq1 || p == row.prereq2)
    ensures r.Some? ==>
              |r.value.prerequisites| == (if row.prereq1 == "" then 0 else 1) + (if row.prereq2 == "" then 0 else 1)
    ensures r.Some? && row.prereq1 != "" ==> r.value.prerequisites[0] == row.prereq1
    ensures r.Some? && row.prereq2 != "" ==> r.value.prerequisites[|r.value.prerequisites| - 1] == row.prereq2
  {
    if row.number == "" || row.title == "" then None
    else
      var prerequisites :=
        (if row.prereq1 != "" then [row.prereq1] else []) +
        (if row.prereq2 != "" then [row.prereq2] else []);
      Some(Course(row.number, row.title, prerequisites))
  }

  /** The records a line can describe: number and title non-empty, at most
      two prerequisites, all of them non-empty, and no comma anywhere. */
  ghost predicate Loadable(c: Course)
  {
    && c.number != "" && ',' !in c.number
    && c.title != "" && ',' !in c.title
    && |c.prerequisites| <= 2
    && forall p :: p in c.prerequisites ==> p != "" && ',' !in p
  }

  // ---------------------------------------------------------------------
  // Reference view: the line cut at every comma

  /** The fields of `s` between its commas: one more than it has commas. */
  function SplitAll(s: string): (fs: seq<string>)
    ensures |fs| >= 1
    ensures forall i :: 0 <= i < |fs| ==> ',' !in fs[i]
  {
    if |s| == 0 then [""]
    else
      var fs := SplitAll(s[1..]);
      if s[0] == ',' then [""] + fs
      else [[s[0]] + fs[0]] + fs[1..]
  }

  /** Field `i`, or "" when the line has fewer fields. */
  function FieldAt(fs: seq<string>, i: nat): string
  {
    if i < |fs| then fs[i] else ""
  }

  /** The fields put back together with commas between them. */
  function Join(fs: seq<string>): string
    requires |fs| >= 1
  {
    if |fs| == 1 then fs[0] else fs[0] + "," + Join(fs[1..])
  }

  lemma {:induction false} JoinSplit(s: string)
    ensures Join(SplitAll(s)) == s
  {
    if |s| > 0 {
      JoinSplit(s[1..]);
      var fs := SplitAll(s[1..]);
      if s[0] == ',' {
        assert SplitAll(s)[1..] == fs;
      } else if |fs| == 1 {
        assert s == [s[0]] + s[1..];
      } else {
        assert SplitAll(s)[1..] == fs[1..];
        assert s == [s[0]] + s[1..];
      }
    }
  }

  lemma {:induction false} SplitJoin(fs: seq<string>)
    requires |fs| >= 1
    requires forall i :: 0 <= i < |fs| ==> ',' !in fs[i]
    ensures SplitAll(Join(fs)) == fs
  {
    if |fs| == 1 {
      SplitNoComma(fs[0]);
    } else {
      SplitJoin(fs[1..]);
      SplitConcat(fs[0], Join(fs[1..]));
      SplitNoComma(fs[0]);
      assert fs == [fs[0]] + fs[1..];
    }
  }

  lemma {:induction false} SplitNoComma(s: string)
    requires ',' !in s
    ensures SplitAll(s) == [s]
  {
    if |s| > 0 {
      SplitNoComma(s[1..]);
      assert s == [s[0]] + s[1..];
    }
  }

  /** Cutting at a comma splits the list of fields there. */
  lemma {:induction false} SplitConcat(s: string, t: string)
    ensures SplitAll(s + "," + t) == SplitAll(s) + SplitAll(t)
  {
    if |s| == 0 {
      assert s + "," + t == [','] + t;
    } else {
      assert (s + "," + t)[1..] == s[1..] + "," + t;
      SplitConcat(s[1..], t);
    }
  }

  /** One `getline` takes off the first field and leaves the others. */
  lemma {:induction false} NextFieldShifts(s: string, i: nat)
    ensures NextField(s).field == FieldAt(SplitAll(s), 0)
    ensures FieldAt(SplitAll(s), i + 1) == FieldAt(SplitAll(NextField(s).rest), i)
  {
    if |s| > 0 && s[0] != ',' {
      NextFieldShifts(s[1..], i);
    }
  }

  /** The four `getline` calls read the first four comma-separated fields,
      and "" for each field the line does not have. */
  lemma ReadRowIsFirstFourFields(line: string)
    ensures var fs := SplitAll(line);
            ReadRow(line) == Row(FieldAt(fs, 0), FieldAt(fs, 1), FieldAt(fs, 2), FieldAt(fs, 3))
  {
    var fs := SplitAll(line);
    var a := NextField(line);
    var b := NextField(a.rest);
    var c := NextField(b.rest);
    var d := NextField(c.rest);
    NextFieldShifts(line, 0);
    NextFieldShifts(line, 1);
    NextFieldShifts(line, 2);
    NextFieldShifts(a.rest, 0);
    NextFieldShifts(a.rest, 1);
    NextFieldShifts(b.rest, 0);
    NextFieldShifts(c.rest, 0);
    assert a.field == FieldAt(fs, 0);
    assert b.field == FieldAt(fs, 1);
    assert c.field == FieldAt(fs, 2);
    assert d.field == FieldAt(fs, 3);
  }

  /** Fields after the fourth are ignored. */
  lemma ExtraFieldsIgnored(line: string, extra: string)
    requires |SplitAll(line)| >= 4
    ensures ParseLine(line + "," + extra) == ParseLine(line)
  {
    SplitConcat(line, extra);
    ReadRowIsFirstFourFields(line);
    ReadRowIsFirstFourFields(line + "," + extra);
  }

  // ---------------------------------------------------------------------
  // Writing a record as a line, the inverse of ParseLine

  /** `number,title[,prereq1[,prereq2]]`, the shape the loader reads. */
  function FormatLine(c: Course): string
  {
    Join([c.number, c.title] + c.prerequisites)
  }

  lemma ParseFormatRoundTrip(c: Course)
    requires Loadable(c)
    ensures ParseLine(FormatLine(c)) == Some(c)
  {
    var fs := [c.number, c.title] + c.prerequisites;
    forall i | 0 <= i < |fs|
      ensures ',' !in fs[i]
    {
      if i >= 2 {
        assert fs[i] in c.prerequisites;
      }
    }
    SplitJoin(fs);
    ParseLineFields(FormatLine(c));
    var p := c.prerequisites;
    var r := ParseLine(FormatLine(c));
    if |p| == 0 {
      assert fs == [c.number, c.title];
    } else if |p| == 1 {
      assert fs == [c.number, c.title, p[0]];
    } else {
      assert fs == [c.number, c.title, p[0], p[1]];
    }
    assert r.value.prerequisites == p;
  }
}
