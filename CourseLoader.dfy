/** `loadCoursesFromFile` (ProjectTwo.cpp:144-183) without the file: the
    lines it would read are given as a sequence, and each is parsed and,
    when valid, inserted into the catalogue. `LoadLines` is the same fold
    as a function, in terms of which the loop is specified. */
module CourseLoader {
  import opened CourseRecord
  import opened CourseTree
  import opened CourseCsv
  import opened CourseIndex

  /** What one line does to the tree. */
  function LoadLine(t: Tree, line: string): (r: Tree)
    ensures ParseLine(line) == None ==> r == t
    ensures ParseLine(line).Some? ==> Keys(r) == Keys(t) + {ParseLine(line).value.number}
  {
    match ParseLine(line)
    case None => t
    case Some(c) => Insert(t, c)
  }

  /** After one line, a lookup finds the parsed record when the line is
      accepted and its number was absent; otherwise it finds what it found
      before, so a number already present keeps its first record. */
  lemma LoadLineSearch(t: Tree, line: string, k: string)
    requires IsBST(t)
    ensures IsBST(LoadLine(t, line))
    ensures Search(LoadLine(t, line), k) ==
            if Search(t, k).None? && ParseLine(line).Some? && ParseLine(line).value.number == k
            then ParseLine(line) else Search(t, k)
  {
    if ParseLine(line).Some? {
      var c := ParseLine(line).value;
      InsertPreservesBST(t, c);
      SearchAfterInsert(t, c, k);
      SearchFindsKey(t, k);
    }
  }

  /** The course numbers of the accepted lines. */
  function AcceptedNumbers(lines: seq<string>): set<string>
  {
    if |lines| == 0 then {}
    else
      (match ParseLine(lines[0])
       case None => {}
       case Some(c) => {c.number})
      + AcceptedNumbers(lines[1..])
  }

  /** The lines, one after the other, from the tree `t`. Loading adds the
      numbers of the accepted lines and nothing else. */
  function LoadLines(t: Tree, lines: seq<string>): (r: Tree)
    ensures Keys(r) == Keys(t) + AcceptedNumbers(lines)
    decreases |lines|
  {
    if |lines| == 0 then t
    else LoadLines(LoadLine(t, lines[0]), lines[1..])
  }

  /** The record of the first accepted line whose number is `k`. */
  function FirstAccepted(lines: seq<string>, k: string): (r: Option<Course>)
    ensures r.Some? ==> r.value.number == k
    ensures r.Some? <==> k in AcceptedNumbers(lines)
  {
    if |lines| == 0 then None
    else
      match ParseLine(lines[0])
      case Some(c) => if c.number == k then Some(c) else FirstAccepted(lines[1..], k)
      case None => FirstAccepted(lines[1..], k)
  }

  /** `FirstAccepted` picks the accepted line with number `k` that no
      earlier accepted line with number `k` precedes. */
  lemma {:induction false} FirstAcceptedIsFirst(lines: seq<string>, k: string, i: nat)
    requires i < |lines| && ParseLine(lines[i]).Some? && ParseLine(lines[i]).value.number == k
    requires forall j :: 0 <= j < i ==> ParseLine(lines[j]) == None || ParseLine(lines[j]).value.number != k
    ensures FirstAccepted(lines, k) == ParseLine(lines[i])
  {
    if i > 0 {
      assert ParseLine(lines[0]) == None || ParseLine(lines[0]).value.number != k;
      FirstAcceptedIsFirst(lines[1..], k, i - 1);
    }
  }

  lemma {:induction false} LoadLinesPreservesBST(t: Tree, lines: seq<string>)
    requires IsBST(t)
    ensures IsBST(LoadLines(t, lines))
    decreases |lines|
  {
    if |lines| > 0 {
      if ParseLine(lines[0]).Some? {
        InsertPreservesBST(t, ParseLine(lines[0]).value);
      }
      LoadLinesPreservesBST(LoadLine(t, lines[0]), lines[1..]);
    }
  }

  /** After loading, a number already in the catalogue keeps its record;
      any other number finds the record of the first line that introduced
      it, and later lines with the same number are ignored. */
  lemma {:induction false} LoadLinesFirstWins(t: Tree, lines: seq<string>, k: string)
    requires IsBST(t)
    ensures Search(LoadLines(t, lines), k) ==
            if Search(t, k).Some? then Search(t, k) else FirstAccepted(lines, k)
    decreases |lines|
  {
    if |lines| > 0 {
      var t' := LoadLine(t, lines[0]);
      if ParseLine(lines[0]).Some? {
        var c := ParseLine(lines[0]).value;
        InsertPreservesBST(t, c);
        SearchAfterInsert(t, c, k);
        SearchFindsKey(t, k);
      }
      LoadLinesFirstWins(t', lines[1..], k);
    }
  }

  /** Malformed lines never reach the tree: loading into a catalogue of
      well-formed records leaves a catalogue of well-formed records. */
  lemma {:induction false} LoadLinesLoadable(t: Tree, lines: seq<string>)
    requires IsBST(t) && forall d :: d in Courses(t) ==> Loadable(d)
    ensures forall d :: d in Courses(LoadLines(t, lines)) ==> Loadable(d)
    decreases |lines|
  {
    if |lines| > 0 {
      ParseLineFields(lines[0]);
      if ParseLine(lines[0]).Some? {
        var c := ParseLine(lines[0]).value;
        InsertPreservesBST(t, c);
        if c.number in Keys(t) {
          InsertExistingKey(t, c);
        } else {
          InsertNewKey(t, c);
        }
      }
      LoadLinesLoadable(LoadLine(t, lines[0]), lines[1..]);
    }
  }

  /** Every record of a catalogue loaded from scratch is well formed. */
  lemma LoadedRecordsLoadable(lines: seq<string>, c: Course)
    requires c in Courses(LoadLines(Leaf, lines))
    ensures Loadable(c)
  {
    LoadLinesLoadable(Leaf, lines);
  }

  /** A catalogue loaded from scratch lists its records by strictly
      ascending number, one per distinct number among the accepted lines. */
  lemma LoadedListing(lines: seq<string>)
    ensures StrictlyAscending(InOrder(LoadLines(Leaf, lines)))
    ensures |InOrder(LoadLines(Leaf, lines))| == |AcceptedNumbers(lines)|
  {
    LoadLinesPreservesBST(Leaf, lines);
    InOrderAscending(LoadLines(Leaf, lines));
    InOrderLength(LoadLines(Leaf, lines));
  }

  /** The loop of `loadCoursesFromFile` (ProjectTwo.cpp:155-179), line by
      line as the source does it: four `getline` calls, the validity check
      that skips the line, the prerequisite list built with `push_back`,
      and the insert. */
  method LoadCoursesFromFile(bst: CourseBST, lines: seq<string>)
    requires bst.Valid()
    modifies bst
    ensures bst.Valid()
    ensures bst.root == LoadLines(old(bst.root), lines)
  {
    var i := 0;
    while i < |lines|
      invariant 0 <= i <= |lines|
      invariant bst.Valid()
      invariant LoadLines(bst.root, lines[i..]) == LoadLines(old(bst.root), lines)
    {
      var line := lines[i];
      assert lines[i..][0] == line && lines[i..][1..] == lines[i + 1..];
      i := i + 1;

      var ss := NextField(line);
      var courseNumber := ss.field;
      ss := NextField(ss.rest);
      var courseTitle := ss.field;
      ss := NextField(ss.rest);
      var prereq1 := ss.field;
      ss := NextField(ss.rest);
      var prereq2 := ss.field;
      assert ReadRow(line) == Row(courseNumber, courseTitle, prereq1, prereq2);

      if courseNumber == "" || courseTitle == "" {
        assert LoadLine(bst.root, line) == bst.root;
        continue;
      }

      var prerequisites: seq<string> := [];
      if prereq1 != "" {
        prerequisites := prerequisites + [prereq1];
      }
      if prereq2 != "" {
        prerequisites := prerequisites + [prereq2];
      }

      var course := Course(courseNumber, courseTitle, prerequisites);
      assert prerequisites ==
        (if prereq1 != "" then [prereq1] else []) + (if prereq2 != "" then [prereq2] else []);
      assert CheckRow(ReadRow(line)) == Some(course);
      assert LoadLine(bst.root, line) == Insert(bst.root, course);
      bst.InsertCourse(course);
    }
  }
}
