/** Concrete catalogues: the listing order, a lookup that succeeds and one
    that fails, and a repeated course number whose first record wins. */
module Scenarios {
  import opened StringOrder
  import opened CourseRecord
  import opened CourseTree
  import opened CourseCsv
  import opened CourseIndex
  import opened CourseLoader

  const Intro := Course("CS300", "Intro", [])
  const Foundations := Course("CS101", "Foundations", ["CS300"])
  const Structures := Course("CS250", "Data Structures", ["CS101", "CS300"])

  /** The order of the three numbers and of a number that is absent. */
  lemma ScenarioNumbersOrdered()
    ensures Less("CS101", "CS250") && !Less("CS250", "CS101")
    ensures Less("CS250", "CS300") && !Less("CS300", "CS250")
    ensures Less("CS101", "CS300") && !Less("CS300", "CS101")
    ensures Less("CS300", "CS999") && !Less("CS999", "CS300")
  {
    assert "CS101"[..2] == "CS250"[..2] == "CS300"[..2] == "CS999"[..2] == "CS";
    LessAtFirstDifference("CS101", "CS300", 2);
    LessAtFirstDifference("CS101", "CS250", 2);
    LessAtFirstDifference("CS250", "CS300", 2);
    LessAtFirstDifference("CS300", "CS999", 2);
  }

  /** Inserting CS300, CS101 and CS250 in that order gives CS300 at the
      root, CS101 as its left child and CS250 as CS101's right child. */
  lemma ThreeCoursesShape()
    ensures Insert(Insert(Insert(Leaf, Intro), Foundations), Structures) ==
            Node(Intro, Node(Foundations, Leaf, Node(Structures, Leaf, Leaf)), Leaf)
  {
    ScenarioNumbersOrdered();
    var t1 := Insert(Leaf, Intro);
    assert t1 == Node(Intro, Leaf, Leaf);
    assert Insert(t1, Foundations) == Node(Intro, Node(Foundations, Leaf, Leaf), Leaf);
  }

  /** The three courses are listed by number; CS250 is found with its
      title and prerequisites, and CS999 is not found. */
  lemma ThreeCourses()
    ensures
      var t := Insert(Insert(Insert(Leaf, Intro), Foundations), Structures);
      && InOrder(t) == [Foundations, Structures, Intro]
      && Search(t, "CS250") == Some(Course("CS250", "Data Structures", ["CS101", "CS300"]))
      && Search(t, "CS999") == None
  {
    ThreeCoursesShape();
    ScenarioNumbersOrdered();
    assert "CS300" != "CS250" && "CS101" != "CS250" && "CS300" != "CS999";
  }

  /** A line `CS100,<title>` is read as course CS100 with no
      prerequisites. */
  lemma ParseCS100(title: string)
    requires title != "" && ',' !in title
    ensures ParseLine("CS100" + "," + title) == Some(Course("CS100", title, []))
  {
    SplitConcat("CS100", title);
    SplitNoComma("CS100");
    SplitNoComma(title);
    ParseLineFields("CS100" + "," + title);
  }

  /** Of two lines with number CS100, the first is the one found. */
  lemma RepeatedNumber()
    ensures Search(LoadLines(Leaf, ["CS100,A", "CS100,B"]), "CS100") == Some(Course("CS100", "A", []))
  {
    var lines := ["CS100,A", "CS100,B"];
    assert lines[0] == "CS100" + "," + "A";
    ParseCS100("A");
    LoadLinesFirstWins(Leaf, lines, "CS100");
  }

  /** A client of the class: what the catalogue promises its callers. */
  method Session()
  {
    var bst := new CourseBST();
    assert bst.IsEmpty();
    var a := Course("CS100", "A", []);
    bst.InsertCourse(a);
    bst.InsertCourse(Course("CS100", "B", []));
    assert !bst.IsEmpty();
    var found := bst.PrintCourseDetails("CS100");
    assert found == Some(a);
    var missing := bst.PrintCourseDetails("CS999");
    assert missing == None;
    var listing := bst.PrintAllCourses();
    assert listing == [a];
  }
}
