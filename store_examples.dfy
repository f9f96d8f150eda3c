/** Concrete files and calls that show the record store's behaviour on particular inputs. */
module StoreExamples {
  import opened Wrappers
  import opened Decimal
  import opened StableSort
  import opened Records
  import opened StoreLaws

  function Clip(id: int, views: int): Entry
  {
    Entry(id, Some("clip"), Some("h"), Some("2025-01-01"), views)
  }

  lemma ClipRowKept(variant: Variant)
    ensures DecodeRow(variant, Fields, ["1", "clip", "h", "2025-01-01", "5"]) == Keep(Clip(1, 5))
  {
    FieldsColumns(["1", "clip", "h", "2025-01-01", "5"]);
    assert ParseInt("1") == Some(1) && ParseInt("5") == Some(5);
    SampleDateIsValid();
  }

  lemma NonIntegerIdSkipped(variant: Variant)
    ensures DecodeRow(variant, Fields, ["x", "clip", "h", "2025-01-01", "5"]) == Skip
  {
    FieldsColumns(["x", "clip", "h", "2025-01-01", "5"]);
    assert ParseInt("5") == Some(5) && ParseInt("x") == None;
  }

  /** A well-formed row next to one with a non-integer id: only the well-formed one lists. */
  lemma BadRowIsSkipped(variant: Variant)
    ensures ListSpec(variant, Present(Fields, [["1", "clip", "h", "2025-01-01", "5"], ["x", "clip", "h", "2025-01-01", "5"]]), None, "asc")
         == [Clip(1, 5)]
  {
    var good, bad := ["1", "clip", "h", "2025-01-01", "5"], ["x", "clip", "h", "2025-01-01", "5"];
    ClipRowKept(variant);
    NonIntegerIdSkipped(variant);
    var none: seq<seq<string>> := [];
    DecodeAllSnoc(variant, Fields, none, good);
    DecodeAllSnoc(variant, Fields, [good], bad);
    assert none + [good] == [good] && [good] + [bad] == [good, bad];
  }

  /** A short row makes `int(None)` raise TypeError, which empties the whole listing. */
  lemma ShortRowEmptiesListing(variant: Variant)
    ensures ListSpec(variant, Present(Fields, [["1", "clip", "h", "2025-01-01", "5"], ["2", "clip"]]), None, "asc") == []
  {
    var short := ["2", "clip"];
    assert LastIndex(Fields, "views_count") == 4;
    assert Lookup(Fields, short, "views_count") == NoValue;
    assert DecodeRow(variant, Fields, short) == Abort;
    var rows := [["1", "clip", "h", "2025-01-01", "5"], short];
    assert DecodeRow(variant, Fields, rows[1]).Abort?;
    DecodeAllAborts(variant, Fields, rows);
  }

  /** An impossible date lists in the dict copies but is skipped by the Flask copy's `Video` validation. */
  lemma InvalidDateOnlyListsInDictCopies()
    ensures DecodeRow(PlainDict, Fields, ["1", "clip", "h", "2025-02-30", "5"])
         == Keep(Entry(1, Some("clip"), Some("h"), Some("2025-02-30"), 5))
    ensures DecodeRow(VideoSchema, Fields, ["1", "clip", "h", "2025-02-30", "5"]) == Skip
  {
    FieldsColumns(["1", "clip", "h", "2025-02-30", "5"]);
    assert ParseInt("1") == Some(1) && ParseInt("5") == Some(5);
    PostDate.ImpossibleDayRejected();
  }

  /** The cells DictReader gives for a row that stops before its last column, "name". */
  lemma NamelessLookups()
    ensures var header, row := ["id", "views_count", "href", "post_date", "name"], ["1", "5", "h", "2025-01-01"];
      Lookup(header, row, "id") == Text("1") && Lookup(header, row, "views_count") == Text("5") &&
      Lookup(header, row, "href") == Text("h") && Lookup(header, row, "post_date") == Text("2025-01-01") &&
      Lookup(header, row, "name") == NoValue
  {
    var header, row := ["id", "views_count", "href", "post_date", "name"], ["1", "5", "h", "2025-01-01"];
    assert NoDuplicates(header);
    LookupColumn(header, row, 0);
    LookupColumn(header, row, 1);
    LookupColumn(header, row, 2);
    LookupColumn(header, row, 3);
    LookupColumn(header, row, 4);
  }

  lemma NamelessRowKept()
    ensures DecodeRow(PlainDict, ["id", "views_count", "href", "post_date", "name"], ["1", "5", "h", "2025-01-01"])
         == Keep(Entry(1, None, Some("h"), Some("2025-01-01"), 5))
  {
    NamelessLookups();
    assert ParseInt("1") == Some(1) && ParseInt("5") == Some(5);
  }

  /** A file of one kept row lists as that record unsorted, and as nothing sorted by name when it has no name. */
  lemma SingleRowListing(variant: Variant, header: seq<string>, row: seq<string>, e: Entry, order: string)
    requires DecodeRow(variant, header, row) == Keep(e)
    ensures ListSpec(variant, Present(header, [row]), None, order) == [e]
    ensures e.name.None? ==> ListSpec(variant, Present(header, [row]), Some("name"), order) == []
  {
    assert DecodeAll(variant, header, [row]) == Some([e]) by {
      var none: seq<seq<string>>, nothing: seq<Entry> := [], [];
      DecodeAllSnoc(variant, header, none, row);
      assert none + [row] == [row] && nothing + [e] == [e];
    }
    if e.name.None? {
      assert SortFieldOf(Some("name")) == Some(ByName);
      assert !KeysDefined(ByName, [e]) by {
        assert [e][0].name.None?;
      }
    }
  }

  /** A record with no name (short row, name column last) lists unsorted, but sorting by name empties the list. */
  lemma MissingNameBreaksNameSort()
    ensures var file := Present(["id", "views_count", "href", "post_date", "name"], [["1", "5", "h", "2025-01-01"]]);
      ListSpec(PlainDict, file, None, "asc") == [Entry(1, None, Some("h"), Some("2025-01-01"), 5)] &&
      ListSpec(PlainDict, file, Some("name"), "asc") == []
  {
    NamelessRowKept();
    SingleRowListing(PlainDict, ["id", "views_count", "href", "post_date", "name"], ["1", "5", "h", "2025-01-01"],
                     Entry(1, None, Some("h"), Some("2025-01-01"), 5), "asc");
  }

  lemma OrderWords()
    ensures !IsDescending("asc") && IsDescending("desc") && IsDescending("DESC")
  {
    assert Lower("desc") == "desc";
    assert Lower("DESC") == "desc";
  }

  /** Sorting two elements swaps them exactly when the second must come strictly first. */
  lemma SortTwo<T>(a: T, b: T, key: T -> Key, desc: bool)
    ensures Sort([a, b], key, desc) == if Before(key(b), key(a), desc) then [b, a] else [a, b]
  {
    assert Sort([a], key, desc) == [a] by {
      SortUnfold([a], key, desc);
      assert [a][..0] == [];
    }
    SortUnfold([a, b], key, desc);
    assert [a, b][..1] == [a];
    InsertUnfold(b, [a], key, desc);
    assert [a][1..] == [];
  }

  /** Two texts with a common prefix compare as what follows it. */
  lemma {:induction false} TextLessCommonPrefix(p: string, a: string, b: string)
    ensures TextLess(p + a, p + b) == TextLess(a, b)
    decreases |p|
  {
    if p != [] {
      TextLessCommonPrefix(p[1..], a, b);
      var pa, pb := p + a, p + b;
      assert |pa| > 0 && |pb| > 0 && pa[0] == p[0] == pb[0];
      assert pa[1..] == p[1..] + a && pb[1..] == p[1..] + b;
      assert TextLess(pa, pb) == TextLess(pa[1..], pb[1..]);
    } else {
      assert p + a == a && p + b == b;
    }
  }

  /** The two videos of the sorting test, added in this order. */
  function TestVideoB(): Video
  {
    Video(1, "B Test Video", "http://example.com/1", "2025-01-02", 100)
  }

  function TestVideoA(): Video
  {
    Video(2, "A Test Video", "http://example.com/2", "2025-01-01", 200)
  }

  /** Two rows that both decode list as their two records. */
  lemma TwoRowsDecode(variant: Variant, header: seq<string>, r1: seq<string>, r2: seq<string>, e1: Entry, e2: Entry)
    requires DecodeRow(variant, header, r1) == Keep(e1) && DecodeRow(variant, header, r2) == Keep(e2)
    ensures DecodeAll(variant, header, [r1, r2]) == Some([e1, e2])
  {
    var none: seq<seq<string>>, nothing: seq<Entry> := [], [];
    assert DecodeAll(variant, header, none) == Some(nothing);
    DecodeAllSnoc(variant, header, none, r1);
    assert none + [r1] == [r1] && nothing + [e1] == [e1];
    DecodeAllSnoc(variant, header, [r1], r2);
    assert [r1] + [r2] == [r1, r2] && [e1] + [e2] == [e1, e2];
  }

  /** A sorted listing of two records with defined keys puts the second first exactly when its key comes strictly first. */
  lemma SortedListingOfTwo(variant: Variant, file: FileState, sortBy: Option<string>, order: string, f: SortField, x: Entry, y: Entry)
    requires file.Present? && DecodeAll(variant, file.header, file.rows) == Some([x, y])
    requires SortFieldOf(sortBy) == Some(f) && KeysDefined(f, [x, y])
    ensures ListSpec(variant, file, sortBy, order)
         == if Before(SortKey(f, y), SortKey(f, x), IsDescending(order)) then [y, x] else [x, y]
  {
    SortTwo(x, y, KeyFn(f), IsDescending(order));
  }

  /** The file the sorting test builds: the two records in the order they were added. */
  function TestFile(): FileState
  {
    Present(Fields, [Cells(TestVideoB()), Cells(TestVideoA())])
  }

  /** Any recognised sort of the test file lists A first exactly when A's key comes strictly first. */
  lemma TestListing(sortBy: Option<string>, order: string, f: SortField)
    requires SortFieldOf(sortBy) == Some(f)
    ensures var b, a := EntryOf(TestVideoB()), EntryOf(TestVideoA());
      ListSpec(PlainDict, TestFile(), sortBy, order)
      == if Before(SortKey(f, a), SortKey(f, b), IsDescending(order)) then [a, b] else [b, a]
  {
    var b, a := EntryOf(TestVideoB()), EntryOf(TestVideoA());
    CellsDecode(PlainDict, TestVideoB());
    CellsDecode(PlainDict, TestVideoA());
    TwoRowsDecode(PlainDict, Fields, Cells(TestVideoB()), Cells(TestVideoA()), b, a);
    StoredKeysDefined(TestVideoB(), TestVideoA());
    SortedListingOfTwo(PlainDict, TestFile(), sortBy, order, f, b, a);
  }

  lemma NameAscendingTest()
    ensures ListSpec(PlainDict, TestFile(), Some("name"), "asc") == [EntryOf(TestVideoA()), EntryOf(TestVideoB())]
  {
    OrderWords();
    SortFieldNames();
    TestKeysOrder();
    TestListing(Some("name"), "asc", ByName);
  }

  lemma NameDescendingTest()
    ensures ListSpec(PlainDict, TestFile(), Some("name"), "desc") == [EntryOf(TestVideoB()), EntryOf(TestVideoA())]
  {
    OrderWords();
    SortFieldNames();
    TestKeysOrder();
    TestListing(Some("name"), "desc", ByName);
  }

  lemma ViewsAscendingTest()
    ensures ListSpec(PlainDict, TestFile(), Some("views_count"), "asc") == [EntryOf(TestVideoB()), EntryOf(TestVideoA())]
  {
    OrderWords();
    SortFieldNames();
    TestListing(Some("views_count"), "asc", ByViews);
  }

  lemma DateDescendingTest()
    ensures ListSpec(PlainDict, TestFile(), Some("post_date"), "desc") == [EntryOf(TestVideoB()), EntryOf(TestVideoA())]
  {
    OrderWords();
    SortFieldNames();
    TestKeysOrder();
    TestListing(Some("post_date"), "desc", ByPostDate);
  }

  /**
   * The sorting test: with "B Test Video" (100 views, 2025-01-02) added before
   * "A Test Video" (200 views, 2025-01-01), name ascending lists A first, name
   * descending B first, views ascending the 100-view record first, and
   * post_date descending the 2025-01-02 record first.
   */
  lemma SortingTestExample()
    ensures var b, a := EntryOf(TestVideoB()), EntryOf(TestVideoA());
      ListSpec(PlainDict, TestFile(), Some("name"), "asc") == [a, b] &&
      ListSpec(PlainDict, TestFile(), Some("name"), "desc") == [b, a] &&
      ListSpec(PlainDict, TestFile(), Some("views_count"), "asc") == [b, a] &&
      ListSpec(PlainDict, TestFile(), Some("post_date"), "desc") == [b, a]
  {
    NameAscendingTest();
    NameDescendingTest();
    ViewsAscendingTest();
    DateDescendingTest();
  }

  /** Records that were stored as `Video`s have every sort key. */
  lemma StoredKeysDefined(v: Video, w: Video)
    ensures KeysDefined(ByName, [EntryOf(v), EntryOf(w)]) && KeysDefined(ByPostDate, [EntryOf(v), EntryOf(w)])
  {
    var s := [EntryOf(v), EntryOf(w)];
    assert s[0] == EntryOf(v) && s[1] == EntryOf(w);
  }

  lemma SortFieldNames()
    ensures SortFieldOf(Some("name")) == Some(ByName)
    ensures SortFieldOf(Some("views_count")) == Some(ByViews)
    ensures SortFieldOf(Some("post_date")) == Some(ByPostDate)
  {
  }

  /** The names of the test compare by their lowered first letters, the dates by their last digits. */
  lemma TestKeysOrder()
    ensures TextLess(Lower("A Test Video"), Lower("B Test Video")) && !TextLess(Lower("B Test Video"), Lower("A Test Video"))
    ensures !TextLess("2025-01-02", "2025-01-01")
  {
    var la, lb := Lower("A Test Video"), Lower("B Test Video");
    assert la[0] == 'a' && lb[0] == 'b';
    var p := "2025-01-0";
    TextLessCommonPrefix(p, "2", "1");
    assert p + "2" == "2025-01-02" && p + "1" == "2025-01-01";
  }

  /**
   * The header lacks "name", so the replacement row raises in the writer after
   * the file was truncated: the update reports failure and every row from the
   * matched one on is gone.
   */
  lemma UpdateWithoutNameColumnLosesRows(v: Video)
    ensures var header := ["id", "views_count"];
      WriteRows(header, UpdatePlan(header, [["1", "5"], ["2", "6"]], 1, v)) == Written([], false)
  {
    var header, rows := ["id", "views_count"], [["1", "5"], ["2", "6"]];
    assert LastIndex(header, "id") == 0;
    assert Matches(header, rows[0], 1) && !Matches(header, rows[1], 1);
    assert rows[..1] == [rows[0]] && rows[..1][..0] == [];
    assert UpdatePlan(header, rows, 1, v) == [Fresh(1, v), Kept(rows[1])];
    assert "name" in Fields && "name" !in header;
    assert EncodeRow(header, Fresh(1, v)) == None;
  }

  /**
   * A kept row wider than the header carries DictReader's extra key, which
   * the writer refuses: the delete reports failure and leaves only the rows
   * before it.
   */
  lemma DeleteWithWideRowLosesRows()
    ensures var header := ["id", "views_count"];
      WriteRows(header, DeletePlan(header, [["1", "5"], ["2", "6"], ["3", "7", "x"], ["4", "8"]], 1))
        == Written([["2", "6"]], false)
  {
    var header, rows := ["id", "views_count"], [["1", "5"], ["2", "6"], ["3", "7", "x"], ["4", "8"]];
    assert LastIndex(header, "id") == 0;
    assert NoDuplicates(header);
    assert Matches(header, rows[0], 1);
    assert !Matches(header, rows[1], 1) && !Matches(header, rows[2], 1) && !Matches(header, rows[3], 1);
    assert rows[..3] == [rows[0], rows[1], rows[2]] && rows[..3][..2] == [rows[0], rows[1]];
    assert rows[..3][..2][..1] == [rows[0]] && rows[..3][..2][..1][..0] == [];
    var plan := [Kept(rows[1]), Kept(rows[2]), Kept(rows[3])];
    assert DeletePlan(header, rows[..3][..2][..1], 1) == [];
    assert DeletePlan(header, rows[..3][..2], 1) == [Kept(rows[1])];
    assert DeletePlan(header, rows[..3], 1) == [Kept(rows[1]), Kept(rows[2])];
    assert DeletePlan(header, rows, 1) == plan;
    KeptRowUnchanged(header, rows[1]);
    assert EncodeRow(header, Kept(rows[2])) == None;
    assert plan[1..][0] == Kept(rows[2]);
  }

  /**
   * `add_video` writes its cells in the order id,name,href,post_date,views_count
   * whatever the file's header is. Under a header that starts with "name" the
   * added row's id cell is read as its name, so the duplicate check does not
   * find the id and a second add of the same record is appended too.
   */
  lemma ReorderedHeaderMissesAddedId()
    ensures var header := ["name", "id", "href", "post_date", "views_count"];
      var v := Video(7, "X", "h", "2025-01-01", 1);
      Lookup(header, Cells(v), "id") == Text("X") && !HasId(header, [Cells(v)], 7)
  {
    var header := ["name", "id", "href", "post_date", "views_count"];
    var v := Video(7, "X", "h", "2025-01-01", 1);
    assert NoDuplicates(header);
    LookupColumn(header, Cells(v), 1);
    assert IntToString(7) == "7";
    assert [Cells(v)][0] == Cells(v);
  }
}
