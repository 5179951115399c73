/** One catalogue entry, the `Course` struct of ProjectTwo.cpp, and the
    optional result used wherever the source hands back a pointer that may
    be null. */
module CourseRecord {

  datatype Option<T> = None | Some(value: T)

  /** A course: its number (the search key), its title and the numbers of
      its prerequisite courses, in the order the input listed them. */
  datatype Course = Course(number: string, title: string, prerequisites: seq<string>)
}
