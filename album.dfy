/** csc::ImageAlbum: the records in a vector, kept in place by emplace, and a
    browsing cursor over them. */
module Album {
  import opened Wrappers
  import Dates
  import Records

  type Record = Records.ImageRecord

  /** The what() text libstdc++'s vector::at gives when it is asked for
      index 0 of an empty vector (the text is implementation-defined). */
  const AtRangeMessage: string := "vector::_M_range_check: __n (which is 0) >= this->size() (which is 0)"

  // ------------------------------------------------------------ Insertion

  /** The vector after insert(begin() + k, x). */
  function Insert<T>(s: seq<T>, k: nat, x: T): (r: seq<T>)
    requires k <= |s|
    ensures |r| == |s| + 1 && r[k] == x
  {
    s[..k] + [x] + s[k..]
  }

  /** The vector after erase(begin() + k). */
  function RemoveAt<T>(s: seq<T>, k: nat): (r: seq<T>)
    requires k < |s|
    ensures |r| == |s| - 1
  {
    s[..k] + s[k + 1..]
  }

  /** Inserting at k and erasing at k gives the old vector back, and no
      element other than the new one is lost or added. */
  lemma InsertRemoveRoundTrip<T>(s: seq<T>, k: nat, x: T)
    requires k <= |s|
    ensures RemoveAt(Insert(s, k, x), k) == s
    ensures multiset(Insert(s, k, x)) == multiset(s) + multiset{x}
  {
    var r := Insert(s, k, x);
    assert r[..k] == s[..k];
    assert r[k + 1..] == s[k..];
    assert s == s[..k] + s[k..];
    calc {
      multiset(r);
      multiset(s[..k] + [x]) + multiset(s[k..]);
      multiset(s[..k]) + multiset{x} + multiset(s[k..]);
      multiset(s) + multiset{x};
    }
  }

  /** Insertion keeps the other elements in their relative order: those
      before k stay put and those from k on move up by one. */
  lemma InsertKeepsOrder<T>(s: seq<T>, k: nat, x: T)
    requires k <= |s|
    ensures forall i :: 0 <= i < k ==> Insert(s, k, x)[i] == s[i]
    ensures forall i :: k <= i < |s| ==> Insert(s, k, x)[i + 1] == s[i]
  {
  }

  // ---------------------------------------------------------- Lower bound

  /** The elements < v come before all the others: the precondition
      std::lower_bound places on its range. */
  predicate Partitioned(s: seq<Record>, v: Record) {
    forall i, j :: 0 <= i < j < |s| && Records.RecordLess(s[j], v) ==> Records.RecordLess(s[i], v)
  }

  /** k is a boundary for v: the element before it is < v and the one at it
      is not. */
  predicate IsBoundary(s: seq<Record>, v: Record, k: nat) {
    && k <= |s|
    && (k > 0 ==> Records.RecordLess(s[k - 1], v))
    && (k < |s| ==> !Records.RecordLess(s[k], v))
  }

  /** k is the lower bound of v: every element before it is < v and the one
      at it is not. */
  predicate IsLowerBound(s: seq<Record>, v: Record, k: nat) {
    && k <= |s|
    && (forall i :: 0 <= i < k ==> Records.RecordLess(s[i], v))
    && (k < |s| ==> !Records.RecordLess(s[k], v))
  }

  /** On a partitioned range a boundary is the lower bound, and there is
      only one. */
  lemma BoundaryIsLowerBound(s: seq<Record>, v: Record, k: nat, m: nat)
    requires Partitioned(s, v) && IsBoundary(s, v, k) && IsBoundary(s, v, m)
    ensures IsLowerBound(s, v, k)
    ensures k == m
  {
  }

  /** For each record, whether it is < v: the only thing the search asks
      of an element. */
  function LessFlags(s: seq<Record>, v: Record): (less: seq<bool>)
    ensures |less| == |s|
    ensures forall i :: 0 <= i < |s| ==> less[i] == Records.RecordLess(s[i], v)
  {
    seq(|s|, i requires 0 <= i < |s| => Records.RecordLess(s[i], v))
  }

  /** The index the std::lower_bound binary search reaches on [first,
      first + len): it tests the middle element, keeps the part after it
      when that element is < v, and the part before it otherwise. */
  function SearchFrom(less: seq<bool>, first: nat, len: nat): (k: nat)
    requires first + len <= |less|
    ensures first <= k <= first + len
    decreases len
  {
    if len == 0 then first
    else if less[first + len / 2] then SearchFrom(less, first + len / 2 + 1, len - len / 2 - 1)
    else SearchFrom(less, first, len / 2)
  }

  /** The index std::lower_bound returns for the whole vector. */
  function LowerBoundIndex(s: seq<Record>, v: Record): (k: nat)
    ensures k <= |s|
  {
    SearchFrom(LessFlags(s, v), 0, |s|)
  }

  /** std::lower_bound with std::less: the binary search over [first,
      first + len) as the standard library writes it. Whatever the range,
      it stops at a boundary; on a partitioned range that is the lower
      bound; and when no element is < v it returns 0. */
  method LowerBound(s: seq<Record>, v: Record) returns (idx: nat)
    ensures idx == LowerBoundIndex(s, v)
    ensures IsBoundary(s, v, idx)
    ensures Partitioned(s, v) ==> IsLowerBound(s, v, idx)
    ensures (forall i :: 0 <= i < |s| ==> !Records.RecordLess(s[i], v)) ==> idx == 0
  {
    ghost var less := LessFlags(s, v);
    var first: nat, len: nat := 0, |s|;
    while len > 0
      invariant first + len <= |s|
      invariant SearchFrom(less, first, len) == LowerBoundIndex(s, v)
      decreases len
    {
      var half := len / 2;
      var middle := first + half;
      if Records.RecordLess(s[middle], v) {
        first := middle + 1;
        len := len - half - 1;
      } else {
        len := half;
      }
    }
    idx := first;
    SearchFromAfterTrue(less, 0, |s|);
    SearchFromAtFalse(less, 0, |s|);
    if Partitioned(s, v) {
      BoundaryIsLowerBound(s, v, idx, idx);
    }
  }

  /** Started just after a true flag (or at the front), the search stops
      just after a true flag (or at the front). */
  lemma {:induction false} SearchFromAfterTrue(less: seq<bool>, first: nat, len: nat)
    requires first + len <= |less|
    requires first > 0 ==> less[first - 1]
    ensures var k := SearchFrom(less, first, len);
            k > 0 ==> less[k - 1]
    decreases len
  {
    if len > 0 {
      var half := len / 2;
      if less[first + half] {
        SearchFromAfterTrue(less, first + half + 1, len - half - 1);
      } else {
        SearchFromAfterTrue(less, first, half);
      }
    }
  }

  /** Started with a false flag just past the range (or the end), the
      search stops at a false flag (or the end). */
  lemma {:induction false} SearchFromAtFalse(less: seq<bool>, first: nat, len: nat)
    requires first + len <= |less|
    requires first + len < |less| ==> !less[first + len]
    ensures var k := SearchFrom(less, first, len);
            k < |less| ==> !less[k]
    decreases len
  {
    if len > 0 {
      var half := len / 2;
      if less[first + half] {
        SearchFromAtFalse(less, first + half + 1, len - half - 1);
      } else {
        SearchFromAtFalse(less, first, half);
      }
    }
  }

  /** No record is < a later one in the vector. */
  predicate NoInversion(s: seq<Record>) {
    forall i, j :: 0 <= i < j < |s| ==> !Records.RecordLess(s[j], s[i])
  }

  /** Inserting at the lower bound of a partitioned range keeps a vector
      without inversions free of them. */
  lemma {:induction false} InsertAtLowerBoundKeepsOrder(s: seq<Record>, v: Record, k: nat)
    requires NoInversion(s) && Partitioned(s, v) && IsLowerBound(s, v, k)
    ensures NoInversion(Insert(s, k, v))
  {
    var r := Insert(s, k, v);
    InsertKeepsOrder(s, k, v);
    forall i, j | 0 <= i < j < |r|
      ensures !Records.RecordLess(r[j], r[i])
    {
      if j < k {
      } else if j == k {
        Records.RecordLessStrictOrder(r[i], v, r[i]);
      } else if i == k {
        assert r[j] == s[j - 1];
      } else if i < k {
        assert r[j] == s[j - 1];
      } else {
        assert r[i] == s[i - 1] && r[j] == s[j - 1];
      }
    }
  }

  /** When every stored record has the new record's time of day, none is
      < it, so the new record goes to the front. */
  lemma SameTimeNoneLess(s: seq<Record>, v: Record)
    requires forall i :: 0 <= i < |s| ==> s[i].dateTaken.time == v.dateTaken.time
    ensures forall i :: 0 <= i < |s| ==> !Records.RecordLess(s[i], v)
    ensures LowerBoundIndex(s, v) == 0
  {
    forall i | 0 <= i < |s|
      ensures !Records.RecordLess(s[i], v)
    {
      Dates.SameTimeNeverLess(s[i].dateTaken, v.dateTaken);
    }
    SearchFromAfterTrue(LessFlags(s, v), 0, |s|);
  }

  /** Under the componentwise order, emplace can put an inversion into a
      vector that had none: on a vector not partitioned for the new record
      the binary search may stop at a boundary with a smaller record after
      it. Here b is not < v, so the search keeps [a]; a is < v, so v goes
      between a and b, ahead of c, which is < v. */
  lemma EmplaceCanInvert(a: Record, b: Record, c: Record, v: Record)
    requires a.dateTaken == Dates.DateTime(Dates.Date(2023, 1, 1), Dates.Time(1))
    requires b.dateTaken == Dates.DateTime(Dates.Date(2023, 1, 2), Dates.Time(13))
    requires c.dateTaken == Dates.DateTime(Dates.Date(2023, 1, 3), Dates.Time(2))
    requires v.dateTaken == Dates.DateTime(Dates.Date(2023, 1, 10), Dates.Time(12))
    ensures NoInversion([a, b, c]) && !Partitioned([a, b, c], v)
    ensures LowerBoundIndex([a, b, c], v) == 1
    ensures !NoInversion(Insert([a, b, c], LowerBoundIndex([a, b, c], v), v))
  {
    var s := [a, b, c];
    assert Records.RecordLess(s[2], v) && !Records.RecordLess(s[1], v);
    var less := LessFlags(s, v);
    assert less == [true, false, true];
    assert SearchFrom(less, 0, 3) == SearchFrom(less, 0, 1) == SearchFrom(less, 1, 0) == 1;
    assert Insert(s, 1, v)[3] == c;
  }

  // ---------------------------------------------------------------- Text

  /** The text of each record, in order. */
  function RecordTexts(s: seq<Record>): (texts: seq<string>)
    reads s
    ensures |texts| == |s|
  {
    seq(|s|, i requires 0 <= i < |s| reads s => s[i].ToString())
  }

  /** The lines, each followed by "\n". */
  function Terminated(lines: seq<string>): string {
    if lines == [] then "" else Terminated(lines[..|lines| - 1]) + lines[|lines| - 1] + "\n"
  }

  /** The lines joined by "\n", with nothing after the last. */
  function Joined(lines: seq<string>): string
    requires lines != []
  {
    if |lines| == 1 then lines[0] else Joined(lines[..|lines| - 1]) + "\n" + lines[|lines| - 1]
  }

  /** Terminating every line with "\n" is joining them with "\n" and adding
      one final "\n". */
  lemma {:induction false} TerminatedIsJoinedPlusNewline(lines: seq<string>)
    requires lines != []
    ensures Terminated(lines) == Joined(lines) + "\n"
  {
    if |lines| == 1 {
      assert lines[..0] == [];
    } else {
      TerminatedIsJoinedPlusNewline(lines[..|lines| - 1]);
    }
  }

  /** The loop of operator std::string: appends each line and a "\n", then
      erases the last character. */
  method JoinLines(lines: seq<string>) returns (s: string)
    requires lines != []
    ensures s == Joined(lines)
  {
    var result := "";
    for i := 0 to |lines|
      invariant result == Terminated(lines[..i])
    {
      assert lines[..i + 1][..i] == lines[..i];
      result := result + lines[i] + "\n";
    }
    assert lines[..|lines|] == lines;
    TerminatedIsJoinedPlusNewline(lines);
    s := result[..|result| - 1];
  }

  // --------------------------------------------------------------- Album

  class ImageAlbum {
    var images: seq<Record>
    /** current_image_: None until get_first_image first sets it. */
    var cursor: Option<nat>

    /** Both constructors store the records in the order given, unsorted;
        the cursor starts unset. */
    constructor (images: seq<Record>)
      ensures this.images == images && cursor == None
    {
      this.images := images;
      cursor := None;
    }

    /** The cursor points at a stored record. */
    predicate CursorInRange()
      reads this
    {
      cursor.Some? && cursor.value < |images|
    }

    function IsEmpty(): (b: bool)
      reads this
      ensures b <==> |images| == 0
    {
      images == []
    }

    /** get_first_image: moves the cursor to 0 even when there is nothing
        there, then reads element 0 with at(), which fails on an empty
        vector. */
    method GetFirstImage() returns (r: Result<Record>)
      modifies this`cursor
      ensures cursor == Some(0)
      ensures images == [] ==> r == Err(OutOfRange(AtRangeMessage))
      ensures images != [] ==> r == Ok(images[0]) && CursorInRange()
    {
      cursor := Some(0);
      if cursor.value < |images| {
        r := Ok(images[cursor.value]);
      } else {
        r := Err(OutOfRange(AtRangeMessage));
      }
    }

    /** get_next_image: fails when the cursor is at or past the last index,
        without moving; otherwise steps forward and returns the record there.
        On an empty vector size() - 1 wraps to the largest size_t, the test
        never fails and the read is out of bounds, hence the precondition. */
    method GetNextImage() returns (r: Result<Record>)
      requires cursor.Some? && images != []
      modifies this`cursor
      ensures old(cursor.value) >= |images| - 1 ==>
                r == Err(OutOfRange("No next image.")) && cursor == old(cursor)
      ensures old(cursor.value) < |images| - 1 ==>
                cursor == Some(old(cursor.value) + 1) && CursorInRange()
                && r == Ok(images[cursor.value])
    {
      if cursor.value >= |images| - 1 {
        r := Err(OutOfRange("No next image."));
        return;
      }
      cursor := Some(cursor.value + 1);
      r := Ok(images[cursor.value]);
    }

    /** get_previous_image: fails at index 0 without moving, even on an empty
        vector; otherwise steps back and returns the record there, which
        exists when the cursor is at most the size. */
    method GetPreviousImage() returns (r: Result<Record>)
      requires cursor.Some? && cursor.value <= |images|
      modifies this`cursor
      ensures old(cursor.value) == 0 ==>
                r == Err(OutOfRange("No previous image.")) && cursor == old(cursor)
      ensures old(cursor.value) > 0 ==>
                cursor == Some(old(cursor.value) - 1) && CursorInRange()
                && r == Ok(images[cursor.value])
    {
      if cursor.value == 0 {
        r := Err(OutOfRange("No previous image."));
        return;
      }
      cursor := Some(cursor.value - 1);
      r := Ok(images[cursor.value]);
    }

    /** emplace: inserts the record where the binary search stops, which is
        a boundary, and the lower bound when the vector is partitioned for
        the record; the vector grows by one and keeps every old record, and
        the cursor is not touched. */
    method Emplace(image: Record)
      modifies this`images
      ensures images == Insert(old(images), LowerBoundIndex(old(images), image), image)
      ensures exists k :: IsBoundary(old(images), image, k) && images == Insert(old(images), k, image)
      ensures Partitioned(old(images), image) ==>
                exists k :: IsLowerBound(old(images), image, k) && images == Insert(old(images), k, image)
      ensures |images| == |old(images)| + 1
      ensures multiset(images) == multiset(old(images)) + multiset{image}
    {
      var k := LowerBound(images, image);
      InsertRemoveRoundTrip(images, k, image);
      images := Insert(images, k, image);
    }

    /** operator std::string: the records' texts, one per line, without a
        final newline. The erase of the last character is undefined on an
        empty album, hence the precondition. */
    method ToText() returns (s: string)
      requires images != []
      ensures s == Joined(RecordTexts(images))
    {
      s := JoinLines(RecordTexts(images));
    }
  }
}
