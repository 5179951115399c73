/** The `CourseBST` class of ProjectTwo.cpp: it owns the root of the tree
    and is the only thing that changes it. Each public member of the class
    is a member here; the private recursive helpers are the functions of
    `CourseTree`. */
module CourseIndex {
  import opened StringOrder
  import opened CourseRecord
  import opened CourseTree

  class CourseBST {
    var root: Tree

    /** The object invariant: the tree is a search tree. */
    ghost predicate Valid()
      reads this
    {
      IsBST(root)
    }

    /** The course numbers in the catalogue. */
    ghost function Numbers(): set<string>
      reads this
    {
      Keys(root)
    }

    /** The catalogue starts empty (ProjectTwo.cpp:98). */
    constructor ()
      ensures Valid()
      ensures root == Leaf && Numbers() == {}
      ensures IsEmpty()
    {
      root := Leaf;
    }

    /** `insertCourse` (ProjectTwo.cpp:101-103): the root becomes the result
        of the recursive insert. The numbers grow by the new one, a number
        already present keeps its first record, and the catalogue is never
        empty again. */
    method InsertCourse(course: Course)
      requires Valid()
      modifies this
      ensures Valid()
      ensures root == Insert(old(root), course)
      ensures Numbers() == old(Numbers()) + {course.number}
      ensures course.number in old(Numbers()) ==> root == old(root)
      ensures course.number !in old(Numbers()) ==> Courses(root) == old(Courses(root)) + {course}
      ensures !IsEmpty()
    {
      InsertPreservesBST(root, course);
      if course.number in Keys(root) {
        InsertExistingKey(root, course);
      } else {
        InsertNewKey(root, course);
      }
      root := Insert(root, course);
    }

    /** `printAllCourses` (ProjectTwo.cpp:106-108) through `inOrderTraversal`:
        the records in the order they are printed, which is strictly
        ascending by number, one per course number. */
    method PrintAllCourses() returns (listing: seq<Course>)
      requires Valid()
      ensures listing == InOrder(root)
      ensures StrictlyAscending(listing)
      ensures |listing| == |Numbers()|
      ensures forall c :: c in listing <==> c in Courses(root)
    {
      InOrderAscending(root);
      InOrderLength(root);
      listing := InOrder(root);
    }

    /** `printCourseDetails` (ProjectTwo.cpp:111-135): the record found for
        `number`, `None` being the "Course not found." outcome. */
    method PrintCourseDetails(number: string) returns (found: Option<Course>)
      requires Valid()
      ensures found == Search(root, number)
      ensures found == None <==> number !in Numbers()
      ensures forall c :: found == Some(c) <==> c in Courses(root) && c.number == number
    {
      SearchCorrect(root, number);
      found := Search(root, number);
    }

    /** `isEmpty` (ProjectTwo.cpp:138-140). */
    function IsEmpty(): (empty: bool)
      reads this
      ensures empty <==> Keys(root) == {}
      ensures empty <==> InOrder(root) == []
    {
      root == Leaf
    }
  }
}
