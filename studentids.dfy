/** The student ID scheme of BaseStudent.generate_student_id:
      "PRPC" + last two digits of the graduation year + "-" + kind prefix + initials + counter,
    where the counter continues from the most recently created student of the same kind
    who joined in the same year. */
module StudentIds {
  import opened Common

  /** The two facts generate_student_id reads from each earlier student: the id and created_at. */
  datatype StudentRow = StudentRow(studentId: string, createdAt: int)

  /** The two concrete student models; the "UNK" branch of the source is for neither and cannot occur. */
  datatype StudentKind = RegularKind | TemporaryKind

  function TypePrefix(kind: StudentKind): (p: string)
    ensures kind == RegularKind <==> p == ""
  {
    match kind
    case RegularKind => ""
    case TemporaryKind => "TMP"
  }

  // ---------------------------------------------------------------------------
  // list.sort(key=lambda x: x.created_at): a stable sort
  // ---------------------------------------------------------------------------

  predicate SortedByCreated(s: seq<StudentRow>) {
    forall i, j :: 0 <= i < j < |s| ==> s[i].createdAt <= s[j].createdAt
  }

  /** Inserts x behind every element whose key is not larger, so equal keys keep their order. */
  function InsertByCreated(x: StudentRow, s: seq<StudentRow>): (r: seq<StudentRow>)
    ensures |r| == |s| + 1
    decreases |s|
  {
    if s == [] then [x]
    else if s[|s| - 1].createdAt <= x.createdAt then s + [x]
    else InsertByCreated(x, s[..|s| - 1]) + [s[|s| - 1]]
  }

  function SortByCreated(xs: seq<StudentRow>): (r: seq<StudentRow>)
    ensures |r| == |xs|
  {
    if xs == [] then [] else InsertByCreated(xs[|xs| - 1], SortByCreated(xs[..|xs| - 1]))
  }

  lemma {:induction false} InsertKeepsElements(x: StudentRow, s: seq<StudentRow>)
    ensures multiset(InsertByCreated(x, s)) == multiset(s) + multiset{x}
    decreases |s|
  {
    if s != [] && s[|s| - 1].createdAt > x.createdAt {
      var p := s[..|s| - 1];
      assert s == p + [s[|s| - 1]];
      InsertKeepsElements(x, p);
    }
  }

  lemma {:induction false} InsertKeepsSorted(x: StudentRow, s: seq<StudentRow>)
    requires SortedByCreated(s)
    ensures SortedByCreated(InsertByCreated(x, s))
    decreases |s|
  {
    if s != [] && s[|s| - 1].createdAt > x.createdAt {
      var p := s[..|s| - 1];
      var last := s[|s| - 1];
      InsertKeepsSorted(x, p);
      InsertKeepsElements(x, p);
      var q := InsertByCreated(x, p);
      forall i | 0 <= i < |q| ensures q[i].createdAt <= last.createdAt {
        assert q[i] in multiset(q);
        assert q[i] in multiset(p) || q[i] == x;
        if q[i] != x {
          var j :| 0 <= j < |p| && p[j] == q[i];
          assert s[j] == p[j];
        }
      }
    }
  }

  /** The sort returns its input reordered, in non-decreasing created_at order. */
  lemma {:induction false} SortIsSortedPermutation(xs: seq<StudentRow>)
    ensures SortedByCreated(SortByCreated(xs))
    ensures multiset(SortByCreated(xs)) == multiset(xs)
  {
    if xs != [] {
      var p := xs[..|xs| - 1];
      assert xs == p + [xs[|xs| - 1]];
      SortIsSortedPermutation(p);
      InsertKeepsSorted(xs[|xs| - 1], SortByCreated(p));
      InsertKeepsElements(xs[|xs| - 1], SortByCreated(p));
    }
  }

  /** The row that ends up last after the stable sort: the latest created_at, the last such one in list order. */
  function LatestIndex(xs: seq<StudentRow>): (k: nat)
    requires |xs| > 0
    ensures k < |xs|
    ensures forall j :: 0 <= j < |xs| ==> xs[j].createdAt <= xs[k].createdAt
    ensures forall j :: k < j < |xs| ==> xs[j].createdAt < xs[k].createdAt
  {
    if |xs| == 1 then 0
    else
      var k := LatestIndex(xs[..|xs| - 1]);
      if xs[k].createdAt <= xs[|xs| - 1].createdAt then |xs| - 1 else k
  }

  lemma InsertLast(x: StudentRow, s: seq<StudentRow>)
    ensures InsertByCreated(x, s)[|s|] ==
      if s == [] || s[|s| - 1].createdAt <= x.createdAt then x else s[|s| - 1]
  {
  }

  /** relevant_students[-1] after the sort is the row LatestIndex picks. */
  lemma {:induction false} SortLastIsLatest(xs: seq<StudentRow>)
    requires |xs| > 0
    ensures SortByCreated(xs)[|xs| - 1] == xs[LatestIndex(xs)]
  {
    var x := xs[|xs| - 1];
    var p := xs[..|xs| - 1];
    InsertLast(x, SortByCreated(p));
    if |xs| > 1 {
      SortLastIsLatest(p);
    }
  }

  // ---------------------------------------------------------------------------
  // The counter
  // ---------------------------------------------------------------------------

  /** int(student_id[-3:]), or 0 where int() raises ValueError. */
  function LastNumber(id: string): int {
    match ParseInt(Suffix(id, 3))
    case Some(n) => n
    case None => 0
  }

  /** Counters from 1 to 999 take exactly three characters. */
  lemma CounterWidth(m: int)
    ensures 1 <= m <= 999 ==> |ZFill(IntToDecimal(m), 3)| == 3
  {
    if 1 <= m <= 999 {
      assert IntToDecimal(m) == NatToDecimal(m);
      ShortDecimal(m);
    }
  }

  /** str(last_number + 1).zfill(3). */
  function CounterAfter(id: string): (c: string)
    ensures |c| >= 3
    ensures ParseInt(c) == Some(LastNumber(id) + 1)
  {
    ParseZFilledDecimal(LastNumber(id) + 1, 3);
    ZFill(IntToDecimal(LastNumber(id) + 1), 3)
  }

  /** The row that relevant_students[-1] names: the latest by created_at, ties going to the later row. */
  lemma LatestOfSorted(rows: seq<StudentRow>)
    ensures |rows| > 0 ==> SortByCreated(rows)[|rows| - 1] == rows[LatestIndex(rows)]
  {
    if |rows| > 0 {
      SortLastIsLatest(rows);
    }
  }

  /** The counter part of a new id: one past the latest same-kind, same-year student's, or "001". */
  function NextCounter(rows: seq<StudentRow>): (c: string)
    ensures |c| >= 3
    ensures (|rows| == 0 || rows[LatestIndex(rows)].studentId == "") ==> c == "001"
    ensures |rows| > 0 && rows[LatestIndex(rows)].studentId != "" ==>
      c == CounterAfter(rows[LatestIndex(rows)].studentId)
  {
    LatestOfSorted(rows);
    var sorted := SortByCreated(rows);
    if |sorted| > 0 && sorted[|sorted| - 1].studentId != "" then CounterAfter(sorted[|sorted| - 1].studentId)
    else "001"
  }

  /** str(year_joined + 3)[-2:]. */
  function YearPart(yearJoined: int): (y: string)
    ensures 1 <= |y| <= 2
    ensures |y| == 1 <==> 0 <= yearJoined + 3 < 10
  {
    Suffix(IntToDecimal(yearJoined + 3), 2)
  }

  /** (first_name[0] + last_name[0]).upper(). */
  function Initials(firstName: string, lastName: string): (r: string)
    requires |firstName| > 0 && |lastName| > 0
    ensures |r| == 2 && r[0] == ToUpper(firstName[0]) && r[1] == ToUpper(lastName[0])
  {
    Upper([firstName[0], lastName[0]])
  }

  /** Everything before the counter: "PRPC" + year part + "-" + kind prefix + initials. */
  function IdHead(firstName: string, lastName: string, yearJoined: int, kind: StudentKind): (h: string)
    requires |firstName| > 0 && |lastName| > 0
    ensures |h| == 4 + |YearPart(yearJoined)| + 1 + |TypePrefix(kind)| + 2
    ensures h[..4] == "PRPC"
  {
    "PRPC" + YearPart(yearJoined) + "-" + TypePrefix(kind) + Initials(firstName, lastName)
  }

  /** generate_student_id for one student, given the rows of the earlier students of its kind and year. */
  function GenerateStudentId(firstName: string, lastName: string, yearJoined: int, kind: StudentKind,
                             rows: seq<StudentRow>): (id: string)
    requires |firstName| > 0 && |lastName| > 0
    ensures |id| == 4 + |YearPart(yearJoined)| + 1 + |TypePrefix(kind)| + 2 + |NextCounter(rows)|
    ensures id[..4] == "PRPC"
    ensures Suffix(id, 3) == Suffix(NextCounter(rows), 3)
  {
    var h, c := IdHead(firstName, lastName, yearJoined, kind), NextCounter(rows);
    assert (h + c)[|h + c| - |c|..] == c;
    assert (h + c)[..4] == h[..4];
    h + c
  }

  // ---------------------------------------------------------------------------
  // Lemmas about the scheme
  // ---------------------------------------------------------------------------

  lemma ModHundred(n: nat)
    ensures (n / 10) % 10 * 10 + n % 10 == n % 100
  {
    var a, b := n / 100, n % 100;
    assert n == 100 * a + b;
    assert n / 10 == 10 * a + b / 10;
    assert (n / 10) % 10 == b / 10;
    assert n % 10 == b % 10;
  }

  lemma LastTwoDigits(n: nat)
    requires n >= 10
    ensures Suffix(NatToDecimal(n), 2) == [DigitChar((n / 10) % 10), DigitChar(n % 10)]
  {
    var p := NatToDecimal(n / 10);
    assert p[|p| - 1] == DigitChar((n / 10) % 10);
    assert NatToDecimal(n) == p + [DigitChar(n % 10)];
  }

  lemma ParseTwoDigits(hi: nat, lo: nat, v: nat)
    requires hi < 10 && lo < 10 && v == hi * 10 + lo
    ensures ParseInt([DigitChar(hi), DigitChar(lo)]) == Some(v)
  {
    var t := [DigitChar(hi), DigitChar(lo)];
    assert IsDigitRun(t);
    assert t[..1] == [DigitChar(hi)];
    assert [DigitChar(hi)][..0] == [];
    assert DigitsValue([DigitChar(hi)]) == hi;
    assert DigitsValue(t) == hi * 10 + lo;
    ParseUnsignedRun(t);
  }

  /** From 10 on, the last two characters of str(n) are its tens and units digits. */
  lemma YearDigits(n: nat)
    requires n >= 10
    ensures Suffix(IntToDecimal(n), 2) == [DigitChar((n / 10) % 10), DigitChar(n % 10)]
  {
    assert IntToDecimal(n) == NatToDecimal(n);
    LastTwoDigits(n);
  }

  /** int() reads the tens and units digits of n as n modulo 100. */
  lemma ParseLastTwoDigits(n: nat)
    ensures ParseInt([DigitChar((n / 10) % 10), DigitChar(n % 10)]) == Some(n % 100)
  {
    ModHundred(n);
    ParseTwoDigits((n / 10) % 10, n % 10, n % 100);
  }

  /** For graduation year n = year_joined + 3 with n >= 10, the year part is two digits reading as n modulo 100. */
  lemma YearPartValue(yearJoined: int, n: nat)
    requires n == yearJoined + 3 && n >= 10
    ensures |YearPart(yearJoined)| == 2
    ensures ParseInt(YearPart(yearJoined)) == Some(n % 100)
  {
    YearPartOfBatch(yearJoined, n);
    YearDigits(n);
    ParseLastTwoDigits(n);
  }

  /** The year part is the last two characters of str(n) for the graduation year n. */
  lemma YearPartOfBatch(yearJoined: int, n: nat)
    requires n == yearJoined + 3
    ensures YearPart(yearJoined) == Suffix(IntToDecimal(n), 2)
  {
  }

  /** The first student of a kind and year gets counter "001". */
  lemma FirstCounter()
    ensures NextCounter([]) == "001"
  {
  }

  lemma ShortDecimal(n: nat)
    requires n <= 999
    ensures |NatToDecimal(n)| <= 3
  {
    if n >= 10 {
      assert NatToDecimal(n) == NatToDecimal(n / 10) + [DigitChar(n % 10)];
      if n / 10 >= 10 {
        assert NatToDecimal(n / 10) == NatToDecimal(n / 100) + [DigitChar((n / 10) % 10)];
      }
    }
  }

  /** A three-character counter at the end of an id is what id[-3:] gives back. */
  lemma SuffixOfCounter(p: string, z: string)
    requires |z| == 3
    ensures Suffix(p + z, 3) == z
  {
    assert (p + z)[|p + z| - 3..] == z;
  }

  /** A counter of up to three digits is read back from an id that ends with it. */
  lemma LastNumberOfCounter(p: string, n: nat)
    requires n <= 999
    ensures LastNumber(p + ZFill(NatToDecimal(n), 3)) == n
  {
    var z := ZFill(IntToDecimal(n), 3);
    assert IntToDecimal(n) == NatToDecimal(n);
    ShortDecimal(n);
    SuffixOfCounter(p, z);
    ParseZFilledDecimal(n, 3);
  }

  /** The id after one ending in counter n (n <= 999) gets counter n + 1. */
  lemma CounterContinues(p: string, n: nat)
    requires n <= 999
    ensures CounterAfter(p + ZFill(NatToDecimal(n), 3)) == ZFill(NatToDecimal(n + 1), 3)
  {
    LastNumberOfCounter(p, n);
    assert IntToDecimal(n + 1) == NatToDecimal(n + 1);
  }

  /** With a strictly latest row appended, that row is what the sort puts last. */
  lemma AppendedLatestSortsLast(rows: seq<StudentRow>, x: StudentRow)
    requires forall r :: r in rows ==> r.createdAt <= x.createdAt
    ensures SortByCreated(rows + [x])[|rows|] == x
  {
    var xs := rows + [x];
    assert xs[..|rows|] == rows;
    InsertLast(x, SortByCreated(rows));
    if rows != [] {
      SortLastIsLatest(rows);
      assert rows[LatestIndex(rows)] in rows;
    }
  }

  /** Successive ids count up: the student created after one whose counter is n (n <= 999) gets n + 1. */
  lemma SuccessiveCounters(firstName: string, lastName: string, yearJoined: int, kind: StudentKind,
                           rows: seq<StudentRow>, createdAt: int, n: nat)
    requires |firstName| > 0 && |lastName| > 0
    requires NextCounter(rows) == ZFill(NatToDecimal(n), 3) && n <= 999
    requires forall r :: r in rows ==> r.createdAt <= createdAt
    ensures NextCounter(rows + [StudentRow(GenerateStudentId(firstName, lastName, yearJoined, kind, rows), createdAt)])
            == ZFill(NatToDecimal(n + 1), 3)
  {
    var h := IdHead(firstName, lastName, yearJoined, kind);
    var id := GenerateStudentId(firstName, lastName, yearJoined, kind, rows);
    assert id == h + ZFill(NatToDecimal(n), 3);
    AppendedLatestSortsLast(rows, StudentRow(id, createdAt));
    CounterContinues(h, n);
  }

  lemma ZeroSpelling()
    ensures IntToDecimal(0) == "0" && IntToDecimal(1) == "1"
  {
    assert NatToDecimal(0) == [DigitChar(0)];
    assert NatToDecimal(1) == [DigitChar(1)];
  }

  /** year_joined values a multiple of 100 apart, such as 2022 and 2122, give the same year part:
      only the last two digits of year_joined + 3 are kept. */
  lemma SameYearPartAcrossCenturies(y1: int, y2: int)
    requires y1 + 3 >= 10 && y2 + 3 >= 10 && (y1 - y2) % 100 == 0
    ensures YearPart(y1) == YearPart(y2)
  {
    var n1, n2: nat := y1 + 3, y2 + 3;
    assert n1 % 100 == n2 % 100 by {
      var q := (y1 - y2) / 100;
      ModShift(n2, q);
    }
    YearPartOfBatch(y1, n1);
    YearPartOfBatch(y2, n2);
    YearDigits(n1);
    YearDigits(n2);
    DigitsOfRemainder(n1);
    DigitsOfRemainder(n2);
  }

  lemma ModShift(m: int, q: int)
    ensures (m + 100 * q) % 100 == m % 100
  {
    var d, r := m / 100, m % 100;
    assert m + 100 * q == 100 * (d + q) + r;
  }

  /** The tens and units digits of n are those of n % 100. */
  lemma DigitsOfRemainder(n: nat)
    ensures (n / 10) % 10 == (n % 100) / 10 && n % 10 == (n % 100) % 10
  {
    var a, b := n / 100, n % 100;
    assert n == 100 * a + b;
    assert n / 10 == 10 * a + b / 10;
  }

  /** So two students with the same initials and kind, joining a multiple of 100 years apart, get the
      same id from the same number of earlier rows: each year_joined has its own counter, but the id
      does not tell the two years apart. */
  lemma CenturiesShareIds(firstName: string, lastName: string, y1: int, y2: int, kind: StudentKind,
                          rows: seq<StudentRow>)
    requires |firstName| > 0 && |lastName| > 0
    requires y1 + 3 >= 10 && y2 + 3 >= 10 && (y1 - y2) % 100 == 0
    ensures GenerateStudentId(firstName, lastName, y1, kind, rows) == GenerateStudentId(firstName, lastName, y2, kind, rows)
  {
    SameYearPartAcrossCenturies(y1, y2);
  }

  /** A thousandth same-year student (counter "1000") restarts the sequence: the next counter is "001". */
  lemma CounterWrapsAtThousand(p: string)
    ensures CounterAfter(p + "1000") == "001"
  {
    var id := p + "1000";
    assert id[|id| - 3..] == "000";
    ZeroSpelling();
    assert ZFill("0", 3) == "000";
    ParseZFilledDecimal(0, 3);
    assert LastNumber(id) == 0;
    assert ZFill("1", 3) == "001";
  }

  /** When the last three characters are not a number, int() fails, the base is 0 and the counter is "001". */
  lemma CounterFromUnreadableId(id: string)
    requires ParseInt(Suffix(id, 3)).None?
    ensures CounterAfter(id) == "001"
  {
    ZeroSpelling();
    assert ZFill("1", 3) == "001";
  }

  lemma PaddedDecimalHead(i: int)
    ensures IsDigit(ZFill(IntToDecimal(i), 3)[0]) || ZFill(IntToDecimal(i), 3)[0] == '-'
  {
    var s := IntToDecimal(i);
    if |s| < 3 && s[0] != '-' {
      assert ZFill(s, 3) == Zeros(3 - |s|) + s;
    }
  }

  /** Every counter starts with a digit or a minus sign. */
  lemma CounterHead(rows: seq<StudentRow>)
    ensures IsDigit(NextCounter(rows)[0]) || NextCounter(rows)[0] == '-'
  {
    var sorted := SortByCreated(rows);
    if |sorted| > 0 && sorted[|sorted| - 1].studentId != "" {
      PaddedDecimalHead(LastNumber(sorted[|sorted| - 1].studentId) + 1);
    }
  }

  /** The year part ends in a digit: str(n)[-1] is a digit even for a negative n. */
  lemma YearPartEndsInDigit(yearJoined: int)
    ensures IsDigit(YearPart(yearJoined)[|YearPart(yearJoined)| - 1])
  {
    var s := IntToDecimal(yearJoined + 3);
    if yearJoined + 3 < 0 {
      assert |s| >= 2;
    }
    assert YearPart(yearJoined)[|YearPart(yearJoined)| - 1] == s[|s| - 1];
  }

  /** Regular and temporary ids never coincide, whatever the years. */
  lemma KindsNeverCollide(f1: string, l1: string, y1: int, rows1: seq<StudentRow>,
                          f2: string, l2: string, y2: int, rows2: seq<StudentRow>)
    requires |f1| > 0 && |l1| > 0 && |f2| > 0 && |l2| > 0
    ensures GenerateStudentId(f1, l1, y1, RegularKind, rows1) != GenerateStudentId(f2, l2, y2, TemporaryKind, rows2)
  {
    YearPartEndsInDigit(y1);
    YearPartEndsInDigit(y2);
    CounterHead(rows1);
    IdsOfKindsDiffer(YearPart(y1), TypePrefix(RegularKind), Initials(f1, l1), NextCounter(rows1),
                     YearPart(y2), TypePrefix(TemporaryKind), Initials(f2, l2), NextCounter(rows2));
  }

  /** With year parts of equal width, the position after the initials holds the counter's first character
      in a regular id and the 'P' of "TMP" in a temporary one. With widths 1 and 2, position 5 holds the
      '-' in the one and the year's last digit in the other. */
  lemma IdsOfKindsDiffer(y1: string, p1: string, i1: string, c1: string,
                         y2: string, p2: string, i2: string, c2: string)
    requires 1 <= |y1| <= 2 && 1 <= |y2| <= 2 && |i1| == 2
    requires p1 == "" && p2 == "TMP"
    requires IsDigit(y1[|y1| - 1]) && IsDigit(y2[|y2| - 1])
    requires |c1| > 0 && (IsDigit(c1[0]) || c1[0] == '-')
    ensures "PRPC" + y1 + "-" + p1 + i1 + c1 != "PRPC" + y2 + "-" + p2 + i2 + c2
  {
    var a, b := "PRPC" + y1 + "-" + p1 + i1 + c1, "PRPC" + y2 + "-" + p2 + i2 + c2;
    if |y1| == |y2| {
      assert a[7 + |y1|] == c1[0];
      assert b[7 + |y2|] == 'P';
    } else if |y1| == 1 {
      assert a[5] == '-';
      assert b[5] == y2[1];
    } else {
      assert a[5] == y1[1];
      assert b[5] == '-';
    }
  }

  // ---------------------------------------------------------------------------
  // Uniqueness of generated ids
  // ---------------------------------------------------------------------------

  /** After a counter of "1000" the sequence restarts at "001": a student with the initials of the
      year's first student gets that student's id again, which the unique column then refuses. */
  lemma WrappedCounterRepeatsId(firstName: string, lastName: string, yearJoined: int, kind: StudentKind, p: string)
    requires |firstName| > 0 && |lastName| > 0
    ensures var first := GenerateStudentId(firstName, lastName, yearJoined, kind, []);
      GenerateStudentId(firstName, lastName, yearJoined, kind, [StudentRow(first, 1), StudentRow(p + "1000", 2)])
        == first
  {
    var first := GenerateStudentId(firstName, lastName, yearJoined, kind, []);
    var rows := [StudentRow(first, 1), StudentRow(p + "1000", 2)];
    assert NextCounter(rows) == NextCounter([]) by {
      assert rows == [StudentRow(first, 1)] + [StudentRow(p + "1000", 2)];
      AppendedIsLatest([StudentRow(first, 1)], StudentRow(p + "1000", 2));
      CounterWrapsAtThousand(p);
    }
    SameCounterSameId(firstName, lastName, yearJoined, kind, rows, []);
  }

  /** The rows enter an id only through its counter. */
  lemma SameCounterSameId(firstName: string, lastName: string, yearJoined: int, kind: StudentKind,
                          rows1: seq<StudentRow>, rows2: seq<StudentRow>)
    requires |firstName| > 0 && |lastName| > 0
    requires NextCounter(rows1) == NextCounter(rows2)
    ensures GenerateStudentId(firstName, lastName, yearJoined, kind, rows1)
         == GenerateStudentId(firstName, lastName, yearJoined, kind, rows2)
  {
  }

  /** The condition under which the scheme hands out fresh ids: no rows yet, or the latest row's
      counter is readable, at most 998, and no smaller than any other row's. */
  predicate CountersBelowWrap(rows: seq<StudentRow>) {
    |rows| == 0 ||
      var latest := rows[LatestIndex(rows)].studentId;
      && latest != ""
      && 0 <= LastNumber(latest) <= 998
      && forall i :: 0 <= i < |rows| ==> LastNumber(rows[i].studentId) <= LastNumber(latest)
  }

  /** "001" reads back as 1. */
  lemma FirstCounterValue()
    ensures LastNumber(NextCounter([])) == 1
  {
    ZeroSpelling();
    assert ZFill("1", 3) == "001";
    ParseZFilledDecimal(1, 3);
  }

  /** A generated id ends with the counter, so id[-3:] reads back as the counter does. */
  lemma IdCarriesCounter(firstName: string, lastName: string, yearJoined: int, kind: StudentKind,
                         rows: seq<StudentRow>)
    requires |firstName| > 0 && |lastName| > 0
    ensures LastNumber(GenerateStudentId(firstName, lastName, yearJoined, kind, rows)) == LastNumber(NextCounter(rows))
  {
  }

  /** Below the wrap, the counter after number n takes three characters. */
  lemma CounterAfterWidth(id: string, n: nat)
    requires LastNumber(id) == n && n <= 998
    ensures |CounterAfter(id)| == 3
  {
    CounterWidth(n + 1);
  }

  /** A three-character counter is its own last three characters, so id[-3:] reads it whole. */
  lemma ThreeCharNumber(c: string, v: int)
    requires |c| == 3 && ParseInt(c) == Some(v)
    ensures LastNumber(c) == v
  {
    assert Suffix(c, 3) == c;
  }

  /** Below the wrap, the counter after number n is three digits and reads back as n + 1. */
  lemma CounterAfterValue(id: string, n: nat)
    requires LastNumber(id) == n && n <= 998
    ensures |CounterAfter(id)| == 3
    ensures LastNumber(CounterAfter(id)) == n + 1
  {
    CounterAfterWidth(id, n);
    ThreeCharNumber(CounterAfter(id), n + 1);
  }

  /** Below the wrap, the counter after the latest row's reads back as one more than it. */
  lemma NextCounterAfterLatest(rows: seq<StudentRow>)
    requires |rows| > 0 && CountersBelowWrap(rows)
    ensures LastNumber(NextCounter(rows)) == LastNumber(rows[LatestIndex(rows)].studentId) + 1
  {
    var latest := rows[LatestIndex(rows)].studentId;
    assert NextCounter(rows) == CounterAfter(latest);
    CounterAfterValue(latest, LastNumber(latest));
  }

  /** Below the wrap, the counter is one past the latest row's (or 1 for the first row). */
  lemma NextCounterValue(rows: seq<StudentRow>)
    requires CountersBelowWrap(rows)
    ensures LastNumber(NextCounter(rows)) ==
      (if |rows| == 0 then 1 else LastNumber(rows[LatestIndex(rows)].studentId) + 1)
  {
    if |rows| == 0 {
      FirstCounterValue();
    } else {
      NextCounterAfterLatest(rows);
    }
  }

  /** An id whose counter exceeds every stored counter is none of the stored ids. */
  lemma LargerCounterIsFresh(rows: seq<StudentRow>, id: string)
    requires forall i :: 0 <= i < |rows| ==> LastNumber(rows[i].studentId) < LastNumber(id)
    ensures forall i :: 0 <= i < |rows| ==> rows[i].studentId != id
  {
  }

  /** Below the wrap, the new id carries a counter one past the latest and so differs from every stored id. */
  lemma GeneratedIdIsFresh(firstName: string, lastName: string, yearJoined: int, kind: StudentKind,
                           rows: seq<StudentRow>)
    requires |firstName| > 0 && |lastName| > 0
    requires CountersBelowWrap(rows)
    ensures var id := GenerateStudentId(firstName, lastName, yearJoined, kind, rows);
      && LastNumber(id) == (if |rows| == 0 then 1 else LastNumber(rows[LatestIndex(rows)].studentId) + 1)
      && forall i :: 0 <= i < |rows| ==> rows[i].studentId != id
  {
    IdCarriesCounter(firstName, lastName, yearJoined, kind, rows);
    NextCounterValue(rows);
    LargerCounterIsFresh(rows, GenerateStudentId(firstName, lastName, yearJoined, kind, rows));
  }

  /** Appending a row created last makes it the latest row. */
  lemma AppendedIsLatest(rows: seq<StudentRow>, x: StudentRow)
    requires forall i :: 0 <= i < |rows| ==> rows[i].createdAt <= x.createdAt
    ensures LatestIndex(rows + [x]) == |rows|
  {
    assert (rows + [x])[|rows|] == x;
  }

  /** Appending a row whose number is m to rows whose numbers are all below m leaves every number at most m.
      The reading of numbers is a parameter, so that this step does not depend on how ids are read. */
  lemma BoundAfterAppend(rows: seq<StudentRow>, x: StudentRow, number: string -> int, m: int)
    requires forall i :: 0 <= i < |rows| ==> number(rows[i].studentId) < m
    requires number(x.studentId) == m
    ensures forall i :: 0 <= i < |rows + [x]| ==> number((rows + [x])[i].studentId) <= m
  {
    forall i | 0 <= i < |rows + [x]| ensures number((rows + [x])[i].studentId) <= m {
      if i < |rows| {
        assert (rows + [x])[i] == rows[i];
      }
    }
  }

  /** The wrap condition holds after appending a latest row whose counter is one past the previous latest. */
  lemma BelowWrapAfterAppend(rows: seq<StudentRow>, x: StudentRow)
    requires CountersBelowWrap(rows)
    requires forall i :: 0 <= i < |rows| ==> rows[i].createdAt <= x.createdAt
    requires x.studentId != ""
    requires LastNumber(x.studentId) == (if |rows| == 0 then 1 else LastNumber(rows[LatestIndex(rows)].studentId) + 1)
    requires LastNumber(x.studentId) <= 998
    ensures CountersBelowWrap(rows + [x])
  {
    var m := LastNumber(x.studentId);
    assert forall i :: 0 <= i < |rows| ==> LastNumber(rows[i].studentId) < m;
    AppendedIsLatest(rows, x);
    assert (rows + [x])[|rows|] == x;
    BoundAfterAppend(rows, x, LastNumber, m);
  }

  /** The condition is kept by saving one more student, created last, while its counter stays below 999. */
  lemma FreshnessIsKept(firstName: string, lastName: string, yearJoined: int, kind: StudentKind,
                        rows: seq<StudentRow>, createdAt: int)
    requires |firstName| > 0 && |lastName| > 0
    requires CountersBelowWrap(rows)
    requires |rows| > 0 ==> LastNumber(rows[LatestIndex(rows)].studentId) <= 997
    requires forall i :: 0 <= i < |rows| ==> rows[i].createdAt <= createdAt
    ensures CountersBelowWrap(rows + [StudentRow(GenerateStudentId(firstName, lastName, yearJoined, kind, rows), createdAt)])
  {
    var id := GenerateStudentId(firstName, lastName, yearJoined, kind, rows);
    GeneratedIdIsFresh(firstName, lastName, yearJoined, kind, rows);
    assert id != "" by { assert |id| >= 3; }
    BelowWrapAfterAppend(rows, StudentRow(id, createdAt));
  }
}
