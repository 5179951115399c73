/** The binary search tree behind `CourseBST` (ProjectTwo.cpp), as a value.
    A `Node` holds a course and its two subtrees; the `nullptr` of the
    source is `Leaf`. The private recursive helpers `insert`, `search` and
    `inOrderTraversal` become `Insert`, `Search` and `InOrder`. */
module CourseTree {
  import opened StringOrder
  import opened CourseRecord

  datatype Tree = Leaf | Node(course: Course, left: Tree, right: Tree)

  /** The course numbers stored in `t`. */
  function Keys(t: Tree): set<string>
  {
    match t
    case Leaf => {}
    case Node(d, l, r) => Keys(l) + {d.number} + Keys(r)
  }

  /** The course records stored in `t`. */
  function Courses(t: Tree): set<Course>
  {
    match t
    case Leaf => {}
    case Node(d, l, r) => Courses(l) + {d} + Courses(r)
  }

  /** The number of nodes of `t`. */
  function Size(t: Tree): nat
  {
    match t
    case Leaf => 0
    case Node(_, l, r) => Size(l) + 1 + Size(r)
  }

  /** The search-tree property: at every node, every course number in the
      left subtree sorts strictly before the node's own and every one in
      the right subtree strictly after it. */
  ghost predicate IsBST(t: Tree)
  {
    match t
    case Leaf => true
    case Node(d, l, r) =>
      && (forall k :: k in Keys(l) ==> Less(k, d.number))
      && (forall k :: k in Keys(r) ==> Less(d.number, k))
      && IsBST(l) && IsBST(r)
  }

  /** The keys are listed in strictly ascending order. */
  ghost predicate StrictlyAscending(s: seq<Course>)
  {
    forall i, j :: 0 <= i < j < |s| ==> Less(s[i].number, s[j].number)
  }

  lemma {:induction false} CourseKeyInKeys(t: Tree, c: Course)
    requires c in Courses(t)
    ensures c.number in Keys(t)
  {
    match t
    case Leaf =>
    case Node(d, l, r) =>
      if c in Courses(l) {
        CourseKeyInKeys(l, c);
      } else if c in Courses(r) {
        CourseKeyInKeys(r, c);
      }
  }

  /** In a search tree the key of a node occurs in neither subtree, and no
      key occurs in both. */
  lemma NodeKeysSeparate(d: Course, l: Tree, r: Tree)
    requires IsBST(Node(d, l, r))
    ensures d.number !in Keys(l) && d.number !in Keys(r)
    ensures forall k :: k in Keys(l) ==> k !in Keys(r)
  {
    LessIrreflexive(d.number);
    forall k | k in Keys(l)
      ensures k !in Keys(r)
    {
      if k in Keys(r) {
        LessTransitive(k, d.number, k);
        LessIrreflexive(k);
      }
    }
  }

  /** A search tree holds at most one record per course number. */
  lemma {:induction false} KeysUnique(t: Tree, c1: Course, c2: Course)
    requires IsBST(t) && c1 in Courses(t) && c2 in Courses(t)
    requires c1.number == c2.number
    ensures c1 == c2
  {
    match t
    case Leaf =>
    case Node(d, l, r) =>
      NodeKeysSeparate(d, l, r);
      if c1 in Courses(l) { CourseKeyInKeys(l, c1); }
      if c1 in Courses(r) { CourseKeyInKeys(r, c1); }
      if c2 in Courses(l) { CourseKeyInKeys(l, c2); }
      if c2 in Courses(r) { CourseKeyInKeys(r, c2); }
      if c1 in Courses(l) && c2 in Courses(l) {
        KeysUnique(l, c1, c2);
      } else if c1 in Courses(r) && c2 in Courses(r) {
        KeysUnique(r, c1, c2);
      }
  }

  // ---------------------------------------------------------------------
  // insert (ProjectTwo.cpp:62-78)

  /** Walks down by key; an empty position receives a new leaf node, and an
      equal key leaves the subtree as it was. */
  function Insert(t: Tree, c: Course): (r: Tree)
    ensures Keys(r) == Keys(t) + {c.number}
    ensures t == Leaf ==> r == Node(c, Leaf, Leaf)
  {
    match t
    case Leaf => Node(c, Leaf, Leaf)
    case Node(d, l, rt) =>
      if Less(c.number, d.number) then Node(d, Insert(l, c), rt)
      else if Less(d.number, c.number) then Node(d, l, Insert(rt, c))
      else
        LessTrichotomous(c.number, d.number);
        t
  }

  lemma {:induction false} InsertPreservesBST(t: Tree, c: Course)
    requires IsBST(t)
    ensures IsBST(Insert(t, c))
  {
    match t
    case Leaf =>
    case Node(d, l, r) =>
      if Less(c.number, d.number) {
        InsertPreservesBST(l, c);
      } else if Less(d.number, c.number) {
        InsertPreservesBST(r, c);
      }
  }

  /** A course number already present leaves the tree unchanged: the
      record inserted first is kept and the new one is dropped. */
  lemma {:induction false} InsertExistingKey(t: Tree, c: Course)
    requires IsBST(t) && c.number in Keys(t)
    ensures Insert(t, c) == t
  {
    match t
    case Leaf =>
    case Node(d, l, r) =>
      LessTrichotomous(c.number, d.number);
      if Less(c.number, d.number) {
        InsertExistingKey(l, c);
      } else if Less(d.number, c.number) {
        InsertExistingKey(r, c);
      }
  }

  /** A new course number adds exactly the given record, in one new node. */
  lemma {:induction false} InsertNewKey(t: Tree, c: Course)
    requires c.number !in Keys(t)
    ensures Courses(Insert(t, c)) == Courses(t) + {c}
    ensures Size(Insert(t, c)) == Size(t) + 1
  {
    match t
    case Leaf =>
    case Node(d, l, r) =>
      LessTrichotomous(c.number, d.number);
      if Less(c.number, d.number) {
        InsertNewKey(l, c);
      } else if Less(d.number, c.number) {
        InsertNewKey(r, c);
      }
  }

  /** Inserting the same record twice is the same as inserting it once. */
  lemma InsertIdempotent(t: Tree, c: Course)
    requires IsBST(t)
    ensures Insert(Insert(t, c), c) == Insert(t, c)
  {
    InsertPreservesBST(t, c);
    InsertExistingKey(Insert(t, c), c);
  }

  // ---------------------------------------------------------------------
  // search (ProjectTwo.cpp:81-94)

  /** The record whose number is `k`, found by walking down by key; `None`
      stands for the null pointer the source returns when the walk falls
      off the tree. */
  function Search(t: Tree, k: string): (r: Option<Course>)
    ensures r.Some? ==> r.value in Courses(t) && r.value.number == k
    ensures t == Leaf ==> r == None
  {
    match t
    case Leaf => None
    case Node(d, l, rt) =>
      if d.number == k then Some(d)
      else if Less(k, d.number) then Search(l, k)
      else Search(rt, k)
  }

  /** On a search tree the walk finds a record exactly when the key is in
      the tree. */
  lemma {:induction false} SearchFindsKey(t: Tree, k: string)
    requires IsBST(t)
    ensures Search(t, k).Some? <==> k in Keys(t)
  {
    match t
    case Leaf =>
    case Node(d, l, r) =>
      LessTrichotomous(k, d.number);
      if d.number != k {
        if Less(k, d.number) {
          SearchFindsKey(l, k);
        } else {
          SearchFindsKey(r, k);
        }
      }
  }

  /** The full meaning of `Search` on a search tree: it returns `Some(c)`
      exactly for the one stored record `c` with number `k`, and `None`
      exactly when no stored record has that number. */
  lemma SearchCorrect(t: Tree, k: string)
    requires IsBST(t)
    ensures Search(t, k) == None <==> k !in Keys(t)
    ensures forall c :: Search(t, k) == Some(c) <==> c in Courses(t) && c.number == k
  {
    SearchFindsKey(t, k);
    forall c | c in Courses(t) && c.number == k
      ensures Search(t, k) == Some(c)
    {
      CourseKeyInKeys(t, c);
      KeysUnique(t, c, Search(t, k).value);
    }
  }

  /** What a lookup sees after an insert: the new record under a new
      number, and otherwise exactly what it saw before. */
  lemma {:induction false} SearchAfterInsert(t: Tree, c: Course, k: string)
    requires IsBST(t)
    ensures Search(Insert(t, c), k) ==
            if k == c.number && k !in Keys(t) then Some(c) else Search(t, k)
  {
    match t
    case Leaf =>
    case Node(d, l, r) =>
      LessTrichotomous(c.number, d.number);
      LessTrichotomous(k, d.number);
      if Less(c.number, d.number) {
        SearchAfterInsert(l, c, k);
      } else if Less(d.number, c.number) {
        SearchAfterInsert(r, c, k);
      }
  }

  // ---------------------------------------------------------------------
  // inOrderTraversal (ProjectTwo.cpp:36-59), a visit being the emission of
  // the node's record

  function InOrder(t: Tree): (s: seq<Course>)
    ensures |s| == Size(t)
    ensures forall c :: c in s <==> c in Courses(t)
  {
    match t
    case Leaf => []
    case Node(d, l, r) => InOrder(l) + [d] + InOrder(r)
  }

  /** On a search tree the traversal lists the records by strictly
      ascending course number. */
  lemma {:induction false} InOrderAscending(t: Tree)
    requires IsBST(t)
    ensures StrictlyAscending(InOrder(t))
  {
    match t
    case Leaf =>
    case Node(d, l, r) =>
      InOrderAscending(l);
      InOrderAscending(r);
      var sl, sr := InOrder(l), InOrder(r);
      var s := InOrder(t);
      assert s == sl + [d] + sr;
      var n := |sl|;
      forall i, j | 0 <= i < j < |s|
        ensures Less(s[i].number, s[j].number)
      {
        if i < n { CourseKeyInKeys(l, sl[i]); }
        if j > n { CourseKeyInKeys(r, sr[j - n - 1]); }
        if i < n && j > n {
          LessTransitive(sl[i].number, d.number, sr[j - n - 1].number);
        }
      }
  }

  /** On a search tree the traversal has one entry per distinct course
      number. */
  lemma {:induction false} InOrderLength(t: Tree)
    requires IsBST(t)
    ensures |InOrder(t)| == |Keys(t)|
  {
    match t
    case Leaf =>
    case Node(d, l, r) =>
      InOrderLength(l);
      InOrderLength(r);
      NodeKeysSeparate(d, l, r);
      assert Keys(l) * {d.number} == {};
      assert (Keys(l) + {d.number}) * Keys(r) == {};
  }
}
