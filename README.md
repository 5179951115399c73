# Course catalogue: search tree and CSV loader

This project models the core of `ProjectTwo.cpp`. That program loads a
catalogue of courses from comma-separated lines into an unbalanced binary
search tree keyed by course number. It then lists the catalogue in order
and looks up single courses. The model proves that:

- insertion keeps the search-tree property;
- a course number already present keeps its first record;
- lookup finds exactly the stored record for a number, and nothing for an
  absent number;
- the in-order listing is strictly ascending, with one entry per distinct
  number;
- the line parser accepts a line exactly when its number and title fields
  are non-empty, and builds the prerequisites from the third and fourth
  fields.

Modules, one per component of the source, plus `Scenarios`, the worked
examples:

- `StringOrder`: the `std::string` comparison used for course numbers.
  Lexicographic by character, with a proper prefix first. It is proved to
  be a strict total order and to agree with the textbook definition.
- `CourseRecord`: the `Course` struct and an `Option` type used where the
  source returns a pointer that may be null.
- `CourseTree`: the tree as a datatype. The private recursive `insert`,
  `search` and `inOrderTraversal` become the functions `Insert`, `Search`
  and `InOrder`. "Printing" a node becomes emitting its record into the
  listing.
- `CourseIndex`: the `CourseBST` class. Its `root` field is reassigned by
  `InsertCourse`. `Valid()` is the object invariant (the search-tree
  property). The constructor establishes it, and `InsertCourse` preserves
  it. `PrintAllCourses` and `PrintCourseDetails` take it as their
  precondition.
- `CourseCsv`: the body of the loading loop. `NextField` is one
  `std::getline(ss, field, ',')`. `ReadRow` is the four such calls, and
  `ParseLine` adds the validity check and the prerequisite list. It is
  specified against `SplitAll`, the line cut at every comma. `FormatLine`
  is its inverse on the records a line can describe.
- `CourseLoader`: `loadCoursesFromFile` over a given sequence of lines. It
  is a `while` loop that follows the source statement by statement. It is
  proved equal to the fold `LoadLines`, and lookups after loading are
  characterised by "the first accepted line wins".
- `Scenarios`: the worked examples. They cover the concrete catalogue
  `CS300, CS101, CS250` and a repeated `CS100`. The client method `Session`
  does the repeated-`CS100` case through the class: a new catalogue is
  empty, the first `InsertCourse` wins, `IsEmpty` turns false, and the
  lookups and the listing give what their contracts promise.

Modelling choices:

- Course numbers are `string` (`seq<char>`). Characters are compared by
  code point. For bytes read as Latin-1 this is the unsigned-byte order of
  `std::char_traits<char>`.
- `search` returns a `Node*`. It is modelled as `Option<Course>`: the
  record of the node found, or `None` for the null pointer.
- The loader's file handling is replaced by the sequence of lines the file
  would yield. The console messages are dropped. A skipped line leaves the
  tree unchanged.

## Model

| member | source | states |
|---|---|---|
| `StringOrder.Less` | ProjectTwo/ProjectTwo.cpp:69-88 | The key order used by `<` and `>` on course numbers at lines 69, 73 and 88. It is strict (`Less(a, b)` implies `a != b`), and a proper prefix sorts first. Its full meaning is given by `LessIsLexicographic`. |
| `StringOrder.LessIsLexicographic` | ProjectTwo/ProjectTwo.cpp:69-73 | The key order `Less` holds exactly when `a` is a proper prefix of `b`, or the two strings agree up to a position where `a` has the smaller character. |
| `StringOrder.LessAtFirstDifference` | ProjectTwo/ProjectTwo.cpp:69-73 | Two strings that agree before position `i` and differ at `i` are ordered, in one direction only, by their characters at `i`. |
| `StringOrder.LessIrreflexive` | ProjectTwo/ProjectTwo.cpp:69-73 | No course number sorts before itself. |
| `StringOrder.LessTransitive` | ProjectTwo/ProjectTwo.cpp:69-73 | The key order is transitive. |
| `StringOrder.LessTrichotomous` | ProjectTwo/ProjectTwo.cpp:69-94 | Exactly one of `a < b`, `a == b` and `b < a` holds, which makes the three-way branches of insert and search exhaustive. |
| `CourseTree.CourseKeyInKeys` | ProjectTwo/ProjectTwo.cpp:20-28 | Every stored record's number is among the tree's keys. |
| `CourseTree.NodeKeysSeparate` | ProjectTwo/ProjectTwo.cpp:62-78 | In a search tree a node's key occurs in neither subtree, and no key occurs in both subtrees. |
| `CourseTree.KeysUnique` | ProjectTwo/ProjectTwo.cpp:62-78 | A search tree holds at most one record per course number. |
| `CourseTree.Insert` | ProjectTwo/ProjectTwo.cpp:62-78 | After insert the key set is the old key set plus the new number. Inserting into an empty subtree gives exactly one node holding the course, with two empty children. |
| `CourseTree.InsertPreservesBST` | ProjectTwo/ProjectTwo.cpp:62-78 | Insert keeps the search-tree property: left keys strictly smaller and right keys strictly larger at every node. |
| `CourseTree.InsertExistingKey` | ProjectTwo/ProjectTwo.cpp:69-77 | Inserting a number already present leaves the tree unchanged, so the first record is kept and nothing is overwritten. |
| `CourseTree.InsertNewKey` | ProjectTwo/ProjectTwo.cpp:63-66 | Inserting a new number adds exactly the given record in exactly one new node. |
| `CourseTree.InsertIdempotent` | ProjectTwo/ProjectTwo.cpp:62-78 | Inserting the same record twice gives the same tree as inserting it once. |
| `CourseTree.Search` | ProjectTwo/ProjectTwo.cpp:81-94 | A record that search returns is stored in the tree and has the searched number. Search on an empty tree returns nothing. |
| `CourseTree.SearchFindsKey` | ProjectTwo/ProjectTwo.cpp:81-94 | On a search tree, search finds a record if and only if the number is among the keys. |
| `CourseTree.SearchCorrect` | ProjectTwo/ProjectTwo.cpp:81-94 | On a search tree, search returns `Some(c)` exactly for the stored record `c` with that number. It returns `None` exactly when no stored record has that number. |
| `CourseTree.SearchAfterInsert` | ProjectTwo/ProjectTwo.cpp:62-94 | After an insert, a lookup returns the new record when the number was absent before; in every other case it returns what it returned before. |
| `CourseTree.InOrder` | ProjectTwo/ProjectTwo.cpp:36-59 | The traversal emits one record per node, and it emits exactly the stored records. |
| `CourseTree.InOrderAscending` | ProjectTwo/ProjectTwo.cpp:36-59 | On a search tree the traversal emits the records in strictly ascending course-number order. |
| `CourseTree.InOrderLength` | ProjectTwo/ProjectTwo.cpp:36-59 | On a search tree the traversal has as many entries as there are distinct course numbers. |
| `CourseIndex.CourseBST.constructor` | ProjectTwo/ProjectTwo.cpp:98 | A new catalogue has an empty tree. It is valid and `IsEmpty()` holds. |
| `CourseIndex.CourseBST.InsertCourse` | ProjectTwo/ProjectTwo.cpp:101-103 | The root becomes the insert's result and stays a search tree. The numbers gain the new one. A number already present leaves the tree unchanged, and a new number adds the record. The catalogue is no longer empty. |
| `CourseIndex.CourseBST.PrintAllCourses` | ProjectTwo/ProjectTwo.cpp:106-108 | The printed records are the in-order traversal of the root. They are strictly ascending, one per course number, and they are exactly the stored records. |
| `CourseIndex.CourseBST.PrintCourseDetails` | ProjectTwo/ProjectTwo.cpp:111-135 | The result is the search result for the number. It is "not found" exactly when the number is absent, and otherwise the unique stored record with that number. |
| `CourseIndex.CourseBST.IsEmpty` | ProjectTwo/ProjectTwo.cpp:138-140 | True exactly when the catalogue has no course numbers, which is exactly when the listing is empty. |
| `CourseCsv.NextField` | ProjectTwo/ProjectTwo.cpp:160-163 | A field read with a comma delimiter never contains a comma. |
| `CourseCsv.NextFieldCuts` | ProjectTwo/ProjectTwo.cpp:160-163 | With a comma present, the line is the field, a comma and the rest. Without one, the field is the whole line and nothing remains. |
| `CourseCsv.NextFieldShifts` | ProjectTwo/ProjectTwo.cpp:160-163 | One read takes off the first comma-separated field. Field `i + 1` of the line is field `i` of what remains. |
| `CourseCsv.ReadRow` | ProjectTwo/ProjectTwo.cpp:160-163 | The four `getline` calls, each reading a comma-free field. Which fields they are is stated by `ReadRowIsFirstFourFields`. |
| `CourseCsv.CheckRow` | ProjectTwo/ProjectTwo.cpp:166-174 | The reject check and the two `push_back`s. It gives no record exactly when the number or the title is empty. Otherwise the record takes the number and title. Its prerequisites are exactly the non-empty prerequisite fields: the list is as long as the number of non-empty fields, starts with `prereq1` when that is non-empty, and ends with `prereq2` when that is non-empty. |
| `CourseCsv.ParseLine` | ProjectTwo/ProjectTwo.cpp:156-177 | The line-to-record function. It rejects a line exactly when its first or second comma-separated field is empty. The rest of its meaning is given by `ParseLineFields`. |
| `CourseCsv.ReadRowIsFirstFourFields` | ProjectTwo/ProjectTwo.cpp:160-163 | The four reads yield the first four comma-separated fields, and "" for each field the line does not have. |
| `CourseCsv.ParseLineFields` | ProjectTwo/ProjectTwo.cpp:156-177 | A line is rejected exactly when its first or second field is empty. Otherwise the record's number and title are those fields. Its prerequisites are the non-empty ones among fields 3 and 4, in that order, so there are at most two, each non-empty and comma-free. |
| `CourseCsv.ExtraFieldsIgnored` | ProjectTwo/ProjectTwo.cpp:160-163 | Appending a fifth or later field does not change the parse. |
| `CourseCsv.SplitAll` | ProjectTwo/ProjectTwo.cpp:156-163 | The reference cut of a line at every comma has at least one field, and no field contains a comma. |
| `CourseCsv.SplitConcat` | ProjectTwo/ProjectTwo.cpp:156-163 | Cutting `s + "," + t` gives the fields of `s` followed by the fields of `t`. |
| `CourseCsv.SplitNoComma` | ProjectTwo/ProjectTwo.cpp:156-163 | A string without a comma is a single field. |
| `CourseCsv.JoinSplit` | ProjectTwo/ProjectTwo.cpp:156-163 | Joining a line's fields with commas gives the line back. |
| `CourseCsv.SplitJoin` | ProjectTwo/ProjectTwo.cpp:156-163 | Cutting the comma-join of comma-free fields gives the fields back. |
| `CourseCsv.ParseFormatRoundTrip` | ProjectTwo/ProjectTwo.cpp:156-177 | Every record a line can describe is read back unchanged from its written form `number,title[,p1[,p2]]`. |
| `CourseLoader.LoadLine` | ProjectTwo/ProjectTwo.cpp:156-178 | One iteration of the load loop. A rejected line leaves the tree unchanged. An accepted line adds its number to the keys. Which record is stored under that number is stated by `LoadLineSearch`. |
| `CourseLoader.LoadLineSearch` | ProjectTwo/ProjectTwo.cpp:166-178 | One line keeps the search-tree property. Afterwards a lookup finds the parsed record when the line is accepted and its number was absent; in every other case it finds what it found before. |
| `CourseLoader.LoadLines` | ProjectTwo/ProjectTwo.cpp:155-179 | Loading adds the numbers of the accepted lines to the key set, and nothing else. |
| `CourseLoader.FirstAccepted` | ProjectTwo/ProjectTwo.cpp:155-179 | The first accepted record with number `k` exists exactly when `k` is among the accepted numbers, and it has number `k`. |
| `CourseLoader.FirstAcceptedIsFirst` | ProjectTwo/ProjectTwo.cpp:155-179 | `FirstAccepted` is the record of the accepted line with that number that no earlier accepted line with that number precedes. |
| `CourseLoader.LoadLinesPreservesBST` | ProjectTwo/ProjectTwo.cpp:155-179 | Loading any lines into a search tree leaves a search tree. |
| `CourseLoader.LoadLinesFirstWins` | ProjectTwo/ProjectTwo.cpp:155-179 | After loading, a number already in the catalogue keeps its record. Any other number finds the record of the first accepted line with that number, or nothing. |
| `CourseLoader.LoadLinesLoadable` | ProjectTwo/ProjectTwo.cpp:166-178 | If every record in a search tree is well formed, every record after loading is well formed too. Malformed lines never reach the tree. |
| `CourseLoader.LoadedRecordsLoadable` | ProjectTwo/ProjectTwo.cpp:166-178 | Every record of a catalogue loaded from scratch is well formed: non-empty comma-free number and title, and at most two non-empty comma-free prerequisites. |
| `CourseLoader.LoadedListing` | ProjectTwo/ProjectTwo.cpp:36-59 | A catalogue loaded from scratch lists its records in strictly ascending number order, one per distinct accepted number. |
| `CourseLoader.LoadCoursesFromFile` | ProjectTwo/ProjectTwo.cpp:155-179 | The loop that reads, checks and inserts line by line leaves the catalogue valid. The tree equals the fold `LoadLines` of the lines over the old tree. |
| `Scenarios.ScenarioNumbersOrdered` | ProjectTwo/ProjectTwo.cpp:69-73 | CS101 < CS250 < CS300 < CS999 under the key order. |
| `Scenarios.ThreeCoursesShape` | ProjectTwo/ProjectTwo.cpp:62-78 | Inserting CS300, CS101, CS250 gives CS300 at the root, CS101 as its left child and CS250 as CS101's right child. |
| `Scenarios.ThreeCourses` | ProjectTwo/ProjectTwo.cpp:36-94 | The listing is CS101, CS250, CS300. CS250 is found with its title and prerequisites, and CS999 is not found. |
| `Scenarios.ParseCS100` | ProjectTwo/ProjectTwo.cpp:156-177 | The line `CS100,<title>` is read as CS100 with that title and no prerequisites. |
| `Scenarios.RepeatedNumber` | ProjectTwo/ProjectTwo.cpp:155-179 | Loading `CS100,A` then `CS100,B` gives the catalogue where CS100 has title A. |

## Left out

- Opening, reading and closing the input file, the hard-coded file name, and the "could not open" early return (ProjectTwo/ProjectTwo.cpp:145-155, 181). These are I/O. The loader takes the file's lines as a sequence.
- All console output: the listing and detail formats, "Prerequisites: None", "Course not found.", and the load messages. The model returns the records that would be printed, and `None` for "not found".
- The interactive menu, `displayMenu`, `menu` and `main` (ProjectTwo/ProjectTwo.cpp:186-252). This is user-interface glue.
- `CourseTree.Insert`: pointer rewiring in place is modelled on values. The function rebuilds the search path, and the class reassigns `root`. Nodes are never shared, so node identity, aliasing and the leaked allocations are not modelled.
- Platform behaviour of `std::getline` and `std::stringstream` beyond splitting at commas. A trailing `'\r'` from CRLF input, stream size limits and encodings are not modelled. A line is a plain sequence of characters.
- Balancing and depth bounds. The tree is not balanced, and no height property is claimed.
- `CourseIndex.CourseBST.PrintAllCourses`, `CourseIndex.CourseBST.PrintCourseDetails`, `CourseIndex.CourseBST.InsertCourse` and `CourseLoader.LoadCoursesFromFile` require `Valid()`. `Valid()` is the search-tree invariant; the constructor establishes it and `InsertCourse` preserves it. The source states no precondition. In the source `root` is private (ProjectTwo/ProjectTwo.cpp:32-33). In the model it is a public field (`CourseIndex.dfy`), so the invariant is guaranteed only for clients that change the tree through the constructor and `InsertCourse`, as every client of the source must.
