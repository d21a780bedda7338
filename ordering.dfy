/**
 * The order in which the sorted task lists come back: MapCounterComparator and
 * ReduceCounterComparator compare two tasks' values under the sort key, as longs when
 * the key's data type is LONG and as case-insensitive text otherwise, and
 * Collections.sort puts the list in that order.
 */
module TaskOrdering {
  import opened Wrappers
  import opened Decimal

  /** The data type a sort key is read as: LONG compares numerically, STRING (any other) as text. */
  datatype KeyDataType = LONG | STRING

  // ---------------------------------------------------------------------------
  // Comparing longs
  // ---------------------------------------------------------------------------

  /** The LONG branch of the comparators: -1, 0 or 1 as a is below, equal to or above b. */
  function CompareLongs(a: Long, b: Long): (r: int)
    ensures r == -1 || r == 0 || r == 1
    ensures r < 0 <==> a < b
    ensures r == 0 <==> a == b
    ensures r > 0 <==> a > b
  {
    if a < b then -1 else if a == b then 0 else 1
  }

  // ---------------------------------------------------------------------------
  // String.compareToIgnoreCase
  // ---------------------------------------------------------------------------

  /** Character.toLowerCase(Character.toUpperCase(c)) on ASCII: letters become lower case. */
  function FoldCase(c: char): (f: char)
  {
    if 'A' <= c <= 'Z' then (c as int + 32) as char else c
  }

  /** The two cases of one ASCII letter. */
  predicate CaseMates(c: char, d: char)
  {
    'A' <= c <= 'Z' && d as int == c as int + 32
  }

  /**
   * Folding leaves no upper-case letter, folding twice is folding once, and two
   * characters fold alike exactly when they are equal or the two cases of one letter.
   */
  lemma FoldCaseProperties(c: char, d: char)
    ensures !('A' <= FoldCase(c) <= 'Z')
    ensures FoldCase(FoldCase(c)) == FoldCase(c)
    ensures FoldCase(c) == FoldCase(d) <==> c == d || CaseMates(c, d) || CaseMates(d, c)
  {
  }

  /** The string with every character case-folded. */
  function Folded(s: string): (r: string)
    ensures |r| == |s|
    ensures forall i :: 0 <= i < |s| ==> r[i] == FoldCase(s[i])
  {
    if s == [] then [] else [FoldCase(s[0])] + Folded(s[1..])
  }

  /**
   * a.compareToIgnoreCase(b): at the first position where the folded characters differ,
   * their difference; when one string is a prefix of the other up to case, the
   * difference of the lengths.
   */
  function CompareIgnoreCase(a: string, b: string): (r: int)
    ensures a == b ==> r == 0
    ensures r == 0 ==> |a| == |b|
  {
    if a == [] || b == [] then |a| - |b|
    else if FoldCase(a[0]) != FoldCase(b[0]) then FoldCase(a[0]) as int - FoldCase(b[0]) as int
    else CompareIgnoreCase(a[1..], b[1..])
  }

  /** Swapping the strings negates the result. */
  lemma {:induction false} CompareIgnoreCaseAntisymmetric(a: string, b: string)
    ensures CompareIgnoreCase(a, b) == -CompareIgnoreCase(b, a)
  {
    if a != [] && b != [] && FoldCase(a[0]) == FoldCase(b[0]) {
      CompareIgnoreCaseAntisymmetric(a[1..], b[1..]);
    }
  }

  /** Two strings compare equal exactly when they are equal up to case. */
  lemma {:induction false} CompareIgnoreCaseZero(a: string, b: string)
    ensures CompareIgnoreCase(a, b) == 0 <==> Folded(a) == Folded(b)
  {
    if a != [] && b != [] {
      CompareIgnoreCaseZero(a[1..], b[1..]);
      assert Folded(a) == [FoldCase(a[0])] + Folded(a[1..]);
      assert Folded(b) == [FoldCase(b[0])] + Folded(b[1..]);
      if Folded(a) == Folded(b) {
        assert Folded(a)[0] == Folded(b)[0];
        assert Folded(a)[1..] == Folded(b)[1..];
      }
    }
  }

  /** "Not after" is transitive. */
  lemma {:induction false} CompareIgnoreCaseTransitive(a: string, b: string, c: string)
    requires CompareIgnoreCase(a, b) <= 0 && CompareIgnoreCase(b, c) <= 0
    ensures CompareIgnoreCase(a, c) <= 0
  {
    if a != [] && b != [] && c != []
      && FoldCase(a[0]) == FoldCase(b[0]) && FoldCase(b[0]) == FoldCase(c[0])
    {
      CompareIgnoreCaseTransitive(a[1..], b[1..], c[1..]);
    }
  }

  // ---------------------------------------------------------------------------
  // The task comparators
  // ---------------------------------------------------------------------------

  /**
   * A task the comparator can read under key: getStringValue finds the key (else a
   * NullPointerException) and, for LONG, getLongValue parses it (else a
   * NumberFormatException).
   */
  predicate Comparable<K>(t: map<K, string>, key: K, dataType: KeyDataType)
  {
    key in t && (dataType == LONG ==> ParseLong(t[key]).Some?)
  }

  /** MapCounterComparator.compare and ReduceCounterComparator.compare. */
  function Compare<K>(a: map<K, string>, b: map<K, string>, key: K, dataType: KeyDataType): (r: int)
    requires Comparable(a, key, dataType) && Comparable(b, key, dataType)
    ensures dataType == LONG ==> r == -1 || r == 0 || r == 1
    ensures a[key] == b[key] ==> r == 0
  {
    if dataType == LONG then CompareLongs(ParseLong(a[key]).value, ParseLong(b[key]).value)
    else CompareIgnoreCase(a[key], b[key])
  }

  /**
   * The comparator is a total preorder: swapping the tasks negates the sign, a task
   * compares equal to itself, and "not after" is transitive.
   */
  lemma CompareIsTotalPreorder<K>(a: map<K, string>, b: map<K, string>, c: map<K, string>, key: K, dataType: KeyDataType)
    requires Comparable(a, key, dataType) && Comparable(b, key, dataType) && Comparable(c, key, dataType)
    ensures Compare(a, b, key, dataType) < 0 <==> Compare(b, a, key, dataType) > 0
    ensures Compare(a, a, key, dataType) == 0
    ensures Compare(a, b, key, dataType) <= 0 && Compare(b, c, key, dataType) <= 0 ==> Compare(a, c, key, dataType) <= 0
  {
    if dataType != LONG {
      CompareIgnoreCaseAntisymmetric(a[key], b[key]);
      CompareIgnoreCaseZero(a[key], a[key]);
      if Compare(a, b, key, dataType) <= 0 && Compare(b, c, key, dataType) <= 0 {
        CompareIgnoreCaseTransitive(a[key], b[key], c[key]);
      }
    }
  }

  /** Two tasks compare equal exactly when their values under key are equal: as longs, or up to case. */
  lemma CompareZero<K>(a: map<K, string>, b: map<K, string>, key: K, dataType: KeyDataType)
    requires Comparable(a, key, dataType) && Comparable(b, key, dataType)
    ensures dataType == LONG ==> (Compare(a, b, key, dataType) == 0 <==> ParseLong(a[key]) == ParseLong(b[key]))
    ensures dataType != LONG ==> (Compare(a, b, key, dataType) == 0 <==> Folded(a[key]) == Folded(b[key]))
  {
    if dataType != LONG {
      CompareIgnoreCaseZero(a[key], b[key]);
    }
  }

  /** Under LONG a task comes first exactly when its value is the smaller long. */
  lemma CompareLongOrder<K>(a: map<K, string>, b: map<K, string>, key: K)
    requires Comparable(a, key, LONG) && Comparable(b, key, LONG)
    ensures Compare(a, b, key, LONG) < 0 <==> ParseLong(a[key]).value < ParseLong(b[key]).value
    ensures Compare(a, b, key, LONG) > 0 <==> ParseLong(a[key]).value > ParseLong(b[key]).value
  {
  }

  // ---------------------------------------------------------------------------
  // Collections.sort
  // ---------------------------------------------------------------------------

  /** No task of s compares after a task that follows it. */
  ghost predicate Sorted<K>(s: seq<map<K, string>>, key: K, dataType: KeyDataType)
  {
    forall i, j :: 0 <= i < j < |s| ==>
      Comparable(s[i], key, dataType) && Comparable(s[j], key, dataType)
      && Compare(s[i], s[j], key, dataType) <= 0
  }

  /** x inserted into sorted s after every task that does not compare after it. */
  function Insert<K>(x: map<K, string>, s: seq<map<K, string>>, key: K, dataType: KeyDataType)
    : (r: seq<map<K, string>>)
    requires Comparable(x, key, dataType)
    requires forall t :: t in s ==> Comparable(t, key, dataType)
    requires Sorted(s, key, dataType)
    ensures multiset(r) == multiset(s) + multiset{x}
    ensures Sorted(r, key, dataType)
  {
    if s == [] then [x]
    else if Compare(s[0], x, key, dataType) <= 0 then
      var rest := Insert(x, s[1..], key, dataType);
      HeadAndTail(s);
      InsertAfterHead(x, s, rest, key, dataType);
      [s[0]] + rest
    else
      InsertAtHead(x, s, key, dataType);
      [x] + s
  }

  /** A list is its head followed by its tail. */
  lemma HeadAndTail<T>(s: seq<T>)
    requires s != []
    ensures multiset(s) == multiset{s[0]} + multiset(s[1..])
    ensures forall t :: t in s[1..] ==> t in s
  {
    assert s == [s[0]] + s[1..];
  }

  lemma InsertAfterHead<K>(x: map<K, string>, s: seq<map<K, string>>, rest: seq<map<K, string>>,
                           key: K, dataType: KeyDataType)
    requires s != [] && Comparable(s[0], key, dataType) && Comparable(x, key, dataType)
    requires Sorted(s, key, dataType) && Sorted(rest, key, dataType)
    requires Compare(s[0], x, key, dataType) <= 0
    requires multiset(rest) == multiset(s[1..]) + multiset{x}
    ensures Sorted([s[0]] + rest, key, dataType)
  {
    var r := [s[0]] + rest;
    HeadComesFirst(s, key, dataType);
    forall j | 0 < j < |r|
      ensures Comparable(r[j], key, dataType) && Compare(s[0], r[j], key, dataType) <= 0
    {
      assert r[j] == rest[j - 1];
      FromTailOrInserted(rest, s[1..], x, j - 1);
    }
  }

  /** The head of a sorted list comes before every task of its tail. */
  lemma HeadComesFirst<K>(s: seq<map<K, string>>, key: K, dataType: KeyDataType)
    requires s != [] && Comparable(s[0], key, dataType) && Sorted(s, key, dataType)
    ensures forall t :: t in s[1..] ==> Comparable(t, key, dataType) && Compare(s[0], t, key, dataType) <= 0
  {
    forall t | t in s[1..]
      ensures Comparable(t, key, dataType) && Compare(s[0], t, key, dataType) <= 0
    {
      var k :| 0 <= k < |s[1..]| && s[1..][k] == t;
      assert s[k + 1] == t;
    }
  }

  /** A task of a permutation of tail plus x is x or a task of tail. */
  lemma FromTailOrInserted<T>(rest: seq<T>, tail: seq<T>, x: T, j: nat)
    requires multiset(rest) == multiset(tail) + multiset{x}
    requires j < |rest|
    ensures rest[j] == x || rest[j] in tail
  {
    assert rest[j] in multiset(rest);
  }

  lemma InsertAtHead<K>(x: map<K, string>, s: seq<map<K, string>>, key: K, dataType: KeyDataType)
    requires Comparable(x, key, dataType)
    requires s != [] && forall t :: t in s ==> Comparable(t, key, dataType)
    requires Sorted(s, key, dataType)
    requires Compare(s[0], x, key, dataType) > 0
    ensures Sorted([x] + s, key, dataType)
  {
    var r := [x] + s;
    forall j | 0 < j < |r|
      ensures Compare(x, r[j], key, dataType) <= 0
    {
      assert s[0] in s && r[j] in s;
      CompareIsTotalPreorder(x, s[0], r[j], key, dataType);
      CompareIsTotalPreorder(s[0], x, s[0], key, dataType);
    }
  }

  /**
   * Collections.sort with the task comparator: a list of fewer than two tasks is left as
   * it is without a comparison; a longer one, whose tasks must all be comparable, comes
   * back as a sorted permutation.
   */
  function SortTasks<K>(tasks: seq<map<K, string>>, key: K, dataType: KeyDataType): (sorted: seq<map<K, string>>)
    requires |tasks| >= 2 ==> forall t :: t in tasks ==> Comparable(t, key, dataType)
    ensures multiset(sorted) == multiset(tasks)
    ensures Sorted(sorted, key, dataType)
    ensures |tasks| < 2 ==> sorted == tasks
  {
    if |tasks| < 2 then tasks else InsertionSort(tasks, key, dataType)
  }

  /** The tasks inserted one by one, in list order, into a list that starts empty. */
  function InsertionSort<K>(s: seq<map<K, string>>, key: K, dataType: KeyDataType): (r: seq<map<K, string>>)
    requires forall t :: t in s ==> Comparable(t, key, dataType)
    ensures multiset(r) == multiset(s)
    ensures Sorted(r, key, dataType)
  {
    if s == [] then []
    else
      var init := s[..|s| - 1];
      assert s == init + [s[|s| - 1]];
      var r := InsertionSort(init, key, dataType);
      TakenFrom(r, s, |s| - 1);
      Insert(s[|s| - 1], r, key, dataType)
  }

  /** A permutation of a prefix of tasks holds only tasks of tasks. */
  lemma TakenFrom<T>(s: seq<T>, tasks: seq<T>, i: nat)
    requires i <= |tasks| && multiset(s) == multiset(tasks[..i])
    ensures forall t :: t in s ==> t in tasks
  {
    forall t | t in s
      ensures t in tasks
    {
      assert t in multiset(tasks[..i]);
      assert t in tasks[..i];
    }
  }
}
