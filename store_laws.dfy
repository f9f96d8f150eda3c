/**
 * What the record store promises, stated on the specification functions
 * that the `Store` methods are proved against: listing, the add/list round
 * trip, id uniqueness, and what a rewrite keeps and replaces.
 */
module StoreLaws {
  import opened Wrappers
  import opened Decimal
  import PostDate
  import opened StableSort
  import opened Records

  predicate NoDuplicates(header: seq<string>)
  {
    forall i, j :: 0 <= i < j < |header| ==> header[i] != header[j]
  }

  /** A file as the store writes it: distinct column names and rows exactly as wide as the header. */
  predicate WellFormed(header: seq<string>, rows: seq<seq<string>>)
  {
    NoDuplicates(header) && forall i :: 0 <= i < |rows| ==> |rows[i]| == |header|
  }

  /** No two rows carry the same id text. */
  predicate UniqueIds(header: seq<string>, rows: seq<seq<string>>)
  {
    forall i, j :: 0 <= i < j < |rows| && Lookup(header, rows[i], "id").Text? ==>
      Lookup(header, rows[i], "id") != Lookup(header, rows[j], "id")
  }

  /** The rows whose id text is not `str(id)`, in file order. */
  function Unmatched(header: seq<string>, rows: seq<seq<string>>, id: int): seq<seq<string>>
    decreases |rows|
  {
    if rows == [] then []
    else (if Matches(header, rows[0], id) then [] else [rows[0]]) + Unmatched(header, rows[1..], id)
  }

  /** The rows kept are rows of the file, and none of them matches. */
  lemma UnmatchedRows(header: seq<string>, rows: seq<seq<string>>, id: int)
    ensures forall x :: x in Unmatched(header, rows, id) ==> x in rows && !Matches(header, x, id)
  {
    UnmatchedNoMatch(header, rows, id);
    UnmatchedSubset(header, rows, id);
  }

  lemma {:induction false} UnmatchedNoMatch(header: seq<string>, rows: seq<seq<string>>, id: int)
    ensures forall x :: x in Unmatched(header, rows, id) ==> !Matches(header, x, id)
    decreases |rows|
  {
    if rows != [] {
      UnmatchedNoMatch(header, rows[1..], id);
      var f := if Matches(header, rows[0], id) then [] else [rows[0]];
      var u := Unmatched(header, rows[1..], id);
      assert Unmatched(header, rows, id) == f + u;
      forall x | x in f + u ensures !Matches(header, x, id) {
        if x in f { assert x == rows[0]; }
      }
    }
  }

  lemma {:induction false} UnmatchedSubset(header: seq<string>, rows: seq<seq<string>>, id: int)
    ensures forall x :: x in Unmatched(header, rows, id) ==> x in rows
    decreases |rows|
  {
    if rows != [] {
      UnmatchedSubset(header, rows[1..], id);
      var f := if Matches(header, rows[0], id) then [] else [rows[0]];
      var u := Unmatched(header, rows[1..], id);
      assert Unmatched(header, rows, id) == f + u;
      forall x | x in f + u ensures x in rows {
        if x in u { assert x in rows[1..]; }
      }
    }
  }

  /** The rows of the file after a successful update: every matching row replaced in place. */
  function Replaced(header: seq<string>, rows: seq<seq<string>>, id: int, v: Video): seq<seq<string>>
    requires forall n :: n in Fields ==> n in header
  {
    seq(|rows|, i requires 0 <= i < |rows| =>
      if Matches(header, rows[i], id) then EncodeRow(header, Fresh(id, v)).value else rows[i])
  }

  /** The record an update stores: the new fields with the id forced to the one looked up. */
  function WithId(v: Video, id: int): Video
  {
    Video(id, v.name, v.href, v.postDate, v.views)
  }

  // Helpers about the DictReader view and the writer.

  lemma LookupColumn(header: seq<string>, row: seq<string>, i: int)
    requires NoDuplicates(header) && 0 <= i < |header|
    ensures Lookup(header, row, header[i]) == if i < |row| then Text(row[i]) else NoValue
  {
    var r := LastIndex(header, header[i]);
    assert r >= i;
  }

  lemma FieldsColumns(row: seq<string>)
    requires |row| == |Fields|
    ensures Lookup(Fields, row, "id") == Text(row[0])
    ensures Lookup(Fields, row, "name") == Text(row[1])
    ensures Lookup(Fields, row, "href") == Text(row[2])
    ensures Lookup(Fields, row, "post_date") == Text(row[3])
    ensures Lookup(Fields, row, "views_count") == Text(row[4])
  {
    assert NoDuplicates(Fields);
    LookupColumn(Fields, row, 0);
    LookupColumn(Fields, row, 1);
    LookupColumn(Fields, row, 2);
    LookupColumn(Fields, row, 3);
    LookupColumn(Fields, row, 4);
  }

  /** A row as wide as a header without repeated names is written back unchanged. */
  lemma KeptRowUnchanged(header: seq<string>, row: seq<string>)
    requires NoDuplicates(header) && |row| == |header|
    ensures EncodeRow(header, Kept(row)) == Some(row)
  {
    var e := EncodeRow(header, Kept(row)).value;
    forall i | 0 <= i < |header| ensures e[i] == row[i] {
      LookupColumn(header, row, i);
    }
    assert e == row;
  }

  /** Under the standard header a replacement row is the cells of the stored record. */
  lemma FreshRowUnderFields(id: int, v: Video)
    ensures EncodeRow(Fields, Fresh(id, v)) == Some(Cells(WithId(v, id)))
  {
    assert forall n :: n in Fields ==> n in Fields;
    var e := EncodeRow(Fields, Fresh(id, v)).value;
    assert e[0] == FreshCell("id", id, v) == IntToString(id);
    assert e[1] == FreshCell("name", id, v) == v.name;
    assert e[2] == FreshCell("href", id, v) == v.href;
    assert e[3] == FreshCell("post_date", id, v) == v.postDate;
    assert e[4] == FreshCell("views_count", id, v) == IntToString(v.views);
    assert e == Cells(WithId(v, id));
  }

  lemma {:induction false} WriteRowsAll(header: seq<string>, out: seq<OutRow>)
    requires forall i :: 0 <= i < |out| ==> EncodeRow(header, out[i]).Some?
    ensures WriteRows(header, out).complete && |WriteRows(header, out).rows| == |out|
    ensures forall i :: 0 <= i < |out| ==> WriteRows(header, out).rows[i] == EncodeRow(header, out[i]).value
    decreases |out|
  {
    if out != [] {
      WriteRowsAll(header, out[1..]);
    }
  }

  lemma {:induction false} UnmatchedAppend(header: seq<string>, a: seq<seq<string>>, b: seq<seq<string>>, id: int)
    ensures Unmatched(header, a + b, id) == Unmatched(header, a, id) + Unmatched(header, b, id)
    decreases |a|
  {
    if a == [] {
      assert a + b == b;
    } else {
      assert (a + b)[0] == a[0] && (a + b)[1..] == a[1..] + b;
      UnmatchedAppend(header, a[1..], b, id);
    }
  }

  lemma {:induction false} UnmatchedNone(header: seq<string>, rows: seq<seq<string>>, id: int)
    requires forall i :: 0 <= i < |rows| ==> !Matches(header, rows[i], id)
    ensures Unmatched(header, rows, id) == rows
    decreases |rows|
  {
    if rows != [] {
      UnmatchedNone(header, rows[1..], id);
      assert rows == [rows[0]] + rows[1..];
    }
  }

  /** The dicts `delete_video` hands to the writer are exactly the unmatched rows. */
  lemma {:induction false} DeletePlanIsUnmatched(header: seq<string>, rows: seq<seq<string>>, id: int)
    ensures |DeletePlan(header, rows, id)| == |Unmatched(header, rows, id)|
    ensures forall i :: 0 <= i < |Unmatched(header, rows, id)| ==>
      DeletePlan(header, rows, id)[i] == Kept(Unmatched(header, rows, id)[i])
    decreases |rows|
  {
    if rows != [] {
      var init, last := rows[..|rows| - 1], rows[|rows| - 1];
      DeletePlanIsUnmatched(header, init, id);
      assert rows == init + [last];
      UnmatchedAppend(header, init, [last], id);
      assert Unmatched(header, [last], id) == if Matches(header, last, id) then [] else [last];
    }
  }

  lemma {:induction false} UpdatePlanAt(header: seq<string>, rows: seq<seq<string>>, id: int, v: Video)
    ensures |UpdatePlan(header, rows, id, v)| == |rows|
    ensures forall i :: 0 <= i < |rows| ==>
      UpdatePlan(header, rows, id, v)[i] == if Matches(header, rows[i], id) then Fresh(id, v) else Kept(rows[i])
    decreases |rows|
  {
    if rows != [] {
      var init, last := rows[..|rows| - 1], rows[|rows| - 1];
      UpdatePlanAt(header, init, id, v);
      var p := UpdatePlan(header, rows, id, v);
      assert p == UpdatePlan(header, init, id, v) + [if Matches(header, last, id) then Fresh(id, v) else Kept(last)];
      forall i | 0 <= i < |rows|
        ensures p[i] == if Matches(header, rows[i], id) then Fresh(id, v) else Kept(rows[i])
      {
        if i < |init| { assert rows[i] == init[i]; }
      }
    }
  }

  // Listing.

  /** At most one record per data row: each row appends at most one dict, and sorting keeps the count. */
  lemma ListAtMostOnePerRow(variant: Variant, file: FileState, sortBy: Option<string>, order: string)
    requires file.Present?
    ensures |ListSpec(variant, file, sortBy, order)| <= |file.rows|
  {
    var d := DecodeAll(variant, file.header, file.rows);
    if d.Some? && SortFieldOf(sortBy).Some? {
      var f := SortFieldOf(sortBy).value;
      SortPermutes(d.value, KeyFn(f), IsDescending(order));
      assert |SortEntries(d.value, f, order)| == |multiset(d.value)|;
    }
  }

  /** The record one row contributes: its entry when it decodes, nothing otherwise. */
  function RowEntries(variant: Variant, header: seq<string>, row: seq<string>): seq<Entry>
  {
    match DecodeRow(variant, header, row)
    case Keep(e) => [e]
    case _ => []
  }

  /** `f` applied to each element of `s` in turn, the results joined front to back. */
  function FlatMap<T, U>(f: T -> seq<U>, s: seq<T>): seq<U>
    decreases |s|
  {
    if s == [] then [] else f(s[0]) + FlatMap(f, s[1..])
  }

  lemma {:induction false} FlatMapSnoc<T, U>(f: T -> seq<U>, s: seq<T>, x: T)
    ensures FlatMap(f, s + [x]) == FlatMap(f, s) + f(x)
    decreases |s|
  {
    if s == [] {
      assert s + [x] == [x] && [x][1..] == [];
      assert f(x) + [] == f(x);
    } else {
      FlatMapSnoc(f, s[1..], x);
      assert (s + [x])[0] == s[0] && (s + [x])[1..] == s[1..] + [x];
    }
  }

  /** The records of the rows that decode, reading the file front to back. */
  function DecodedInOrder(variant: Variant, header: seq<string>, rows: seq<seq<string>>): seq<Entry>
  {
    FlatMap(row => RowEntries(variant, header, row), rows)
  }

  /** Decoding one more row that raises no escaping error adds its record, if any. */
  lemma DecodeAllSnocEntries(variant: Variant, header: seq<string>, rows: seq<seq<string>>, row: seq<string>, vs: seq<Entry>)
    requires DecodeAll(variant, header, rows) == Some(vs) && !DecodeRow(variant, header, row).Abort?
    ensures DecodeAll(variant, header, rows + [row]) == Some(vs + RowEntries(variant, header, row))
  {
    DecodeAllSnoc(variant, header, rows, row);
    if DecodeRow(variant, header, row).Skip? {
      assert vs + [] == vs;
    }
  }

  /** When decoding raises no escaping error, the decoded records are those of the decoding rows in file order. */
  lemma {:induction false} DecodeAllInOrder(variant: Variant, header: seq<string>, rows: seq<seq<string>>)
    requires DecodeAll(variant, header, rows).Some?
    ensures DecodeAll(variant, header, rows) == Some(DecodedInOrder(variant, header, rows))
    decreases |rows|
  {
    if rows != [] {
      var init, last := rows[..|rows| - 1], rows[|rows| - 1];
      DecodeAllInOrder(variant, header, init);
      DecodeAllSnocEntries(variant, header, init, last, DecodedInOrder(variant, header, init));
      FlatMapSnoc(row => RowEntries(variant, header, row), init, last);
      InitLast(rows);
    }
  }

  lemma InitLast<T>(s: seq<T>)
    requires s != []
    ensures s[..|s| - 1] + [s[|s| - 1]] == s
  {
  }

  /**
   * Without a recognised sort field the listing is the records of the rows
   * that decode, in file order, or empty when some row raises an escaping error.
   */
  lemma ListUnsortedKeepsFileOrder(variant: Variant, header: seq<string>, rows: seq<seq<string>>,
                                   sortBy: Option<string>, order: string)
    requires SortFieldOf(sortBy).None?
    ensures (forall i :: 0 <= i < |rows| ==> !DecodeRow(variant, header, rows[i]).Abort?) ==>
      ListSpec(variant, Present(header, rows), sortBy, order) == DecodedInOrder(variant, header, rows)
    ensures (exists i :: 0 <= i < |rows| && DecodeRow(variant, header, rows[i]).Abort?) ==>
      ListSpec(variant, Present(header, rows), sortBy, order) == []
  {
    DecodeAllAborts(variant, header, rows);
    if DecodeAll(variant, header, rows).Some? {
      DecodeAllInOrder(variant, header, rows);
    }
  }

  /**
   * With a recognised sort field the listing is a permutation of the decoded
   * records, ordered by the field's key (non-increasing for "desc" in any
   * letter case), records with equal keys in file order.
   */
  lemma ListSortedIsStableSort(variant: Variant, header: seq<string>, rows: seq<seq<string>>,
                               sortBy: Option<string>, order: string)
    requires DecodeAll(variant, header, rows).Some? && SortFieldOf(sortBy).Some?
    requires KeysDefined(SortFieldOf(sortBy).value, DecodeAll(variant, header, rows).value)
    ensures var vs, f, r := DecodeAll(variant, header, rows).value, SortFieldOf(sortBy).value,
                            ListSpec(variant, Present(header, rows), sortBy, order);
      multiset(r) == multiset(vs) &&
      Sorted(r, KeyFn(f), IsDescending(order)) &&
      forall k :: WithKey(r, KeyFn(f), k) == WithKey(vs, KeyFn(f), k)
  {
    var vs, f := DecodeAll(variant, header, rows).value, SortFieldOf(sortBy).value;
    SortIsSorted(vs, KeyFn(f), IsDescending(order));
    SortPermutes(vs, KeyFn(f), IsDescending(order));
    forall k ensures WithKey(SortEntries(vs, f, order), KeyFn(f), k) == WithKey(vs, KeyFn(f), k) {
      SortIsStable(vs, KeyFn(f), IsDescending(order), k);
    }
  }

  /** Where one string is below another of the same length, they first differ at a smaller character. */
  lemma {:induction false} TextLessWitness(a: string, b: string)
    requires |a| == |b| && TextLess(a, b)
    ensures exists k :: 0 <= k < |a| && a[..k] == b[..k] && a[k] < b[k]
    decreases |a|
  {
    if a[0] != b[0] {
      assert a[..0] == b[..0];
    } else {
      TextLessWitness(a[1..], b[1..]);
      var k :| 0 <= k < |a| - 1 && a[1..][..k] == b[1..][..k] && a[1..][k] < b[1..][k];
      assert a[..k + 1] == [a[0]] + a[1..][..k];
      assert b[..k + 1] == [b[0]] + b[1..][..k];
    }
  }

  /** Calendar order of two dates of the post_date shape. */
  predicate DateBefore(s: string, t: string)
    requires PostDate.HasDateShape(s) && PostDate.HasDateShape(t)
  {
    PostDate.Year(s) < PostDate.Year(t) ||
    (PostDate.Year(s) == PostDate.Year(t) &&
     (PostDate.Month(s) < PostDate.Month(t) ||
      (PostDate.Month(s) == PostDate.Month(t) && PostDate.Day(s) < PostDate.Day(t))))
  }

  lemma TextBeforeIsDateBefore(s: string, t: string)
    requires PostDate.HasDateShape(s) && PostDate.HasDateShape(t) && TextLess(s, t)
    ensures DateBefore(s, t)
  {
    TextLessWitness(s, t);
    var k :| 0 <= k < |s| && s[..k] == t[..k] && s[k] < t[k];
    forall j | 0 <= j < k ensures s[j] == t[j] {
      assert s[..k][j] == t[..k][j];
    }
    assert k != 4 && k != 7;
    assert DigitValue(s[k]) < DigitValue(t[k]);
  }

  /**
   * For valid post dates, comparing the raw text (the post_date sort key)
   * is comparing the dates in calendar order.
   */
  lemma PostDateOrderIsChronological(s: string, t: string)
    requires PostDate.IsValidPostDate(s) && PostDate.IsValidPostDate(t)
    ensures TextLess(s, t) <==> DateBefore(s, t)
  {
    if TextLess(s, t) {
      TextBeforeIsDateBefore(s, t);
    } else if DateBefore(s, t) {
      TextLessTotal(s, t);
      if TextLess(t, s) {
        TextBeforeIsDateBefore(t, s);
      }
    }
  }

  /** A row the writer produced for a `Video` reads back as that record. */
  lemma CellsDecode(variant: Variant, v: Video)
    requires variant == PlainDict || PostDate.IsValidPostDate(v.postDate)
    ensures DecodeRow(variant, Fields, Cells(v)) == Keep(EntryOf(v))
  {
    FieldsColumns(Cells(v));
    IntRoundTrip(v.id);
    IntRoundTrip(v.views);
  }

  /**
   * Add then list: the record appended by a successful add lists last, with
   * equal fields, after the records listed before.
   */
  lemma AddThenList(variant: Variant, file: FileState, v: Video, order: string)
    requires variant == PlainDict || PostDate.IsValidPostDate(v.postDate)
    requires HasContent(file) ==> file.header == Fields && DecodeAll(variant, Fields, file.rows).Some?
    ensures var after := if HasContent(file) then Present(Fields, file.rows + [Cells(v)]) else Present(Fields, [Cells(v)]);
      ListSpec(variant, after, None, order) == ListSpec(variant, file, None, order) + [EntryOf(v)]
  {
    if HasContent(file) {
      AppendDecodes(variant, file.rows, v);
    } else {
      CreateDecodes(variant, v);
    }
  }

  lemma AppendDecodes(variant: Variant, rows: seq<seq<string>>, v: Video)
    requires variant == PlainDict || PostDate.IsValidPostDate(v.postDate)
    requires DecodeAll(variant, Fields, rows).Some?
    ensures DecodeAll(variant, Fields, rows + [Cells(v)]) == Some(DecodeAll(variant, Fields, rows).value + [EntryOf(v)])
  {
    CellsDecode(variant, v);
    DecodeAllSnoc(variant, Fields, rows, Cells(v));
  }

  lemma CreateDecodes(variant: Variant, v: Video)
    requires variant == PlainDict || PostDate.IsValidPostDate(v.postDate)
    ensures DecodeAll(variant, Fields, [Cells(v)]) == Some([EntryOf(v)])
  {
    var none: seq<seq<string>>, nothing: seq<Entry> := [], [];
    assert DecodeAll(variant, Fields, none) == Some(nothing);
    AppendDecodes(variant, none, v);
    assert none + [Cells(v)] == [Cells(v)] && nothing + [EntryOf(v)] == [EntryOf(v)];
  }


  // Uniqueness.

  /** An add that passed the duplicate check keeps the ids unique. */
  lemma AddKeepsIdsUnique(rows: seq<seq<string>>, v: Video)
    requires UniqueIds(Fields, rows) && !HasId(Fields, rows, v.id)
    ensures UniqueIds(Fields, rows + [Cells(v)])
  {
    FieldsColumns(Cells(v));
    var after := rows + [Cells(v)];
    forall i, j | 0 <= i < j < |after| && Lookup(Fields, after[i], "id").Text?
      ensures Lookup(Fields, after[i], "id") != Lookup(Fields, after[j], "id")
    {
      if j == |rows| {
        assert !Matches(Fields, rows[i], v.id);
      }
    }
  }

  /** Once a record is added under the standard header, a second add with its id is a duplicate. */
  lemma AddedIdIsDuplicate(rows: seq<seq<string>>, a: Video)
    ensures HasId(Fields, rows + [Cells(a)], a.id)
  {
    FieldsColumns(Cells(a));
    assert (rows + [Cells(a)])[|rows|] == Cells(a);
  }

  /** A row matched by text lists, if it lists at all, with exactly the id looked up. */
  lemma MatchedRowListsWithThatId(variant: Variant, header: seq<string>, row: seq<string>, id: int)
    requires Matches(header, row, id) && DecodeRow(variant, header, row).Keep?
    ensures DecodeRow(variant, header, row).entry.id == id
  {
    IntRoundTrip(id);
  }

  // Delete.

  /**
   * Delete on a well-formed file rewrites it completely with exactly the
   * rows whose id text differs, unchanged and in their original order; no
   * remaining row matches the id.
   */
  lemma DeleteOnWellFormedFile(header: seq<string>, rows: seq<seq<string>>, id: int)
    requires WellFormed(header, rows)
    ensures WriteRows(header, DeletePlan(header, rows, id)) == Written(Unmatched(header, rows, id), true)
    ensures !HasId(header, Unmatched(header, rows, id), id)
  {
    var plan, u := DeletePlan(header, rows, id), Unmatched(header, rows, id);
    DeletePlanIsUnmatched(header, rows, id);
    UnmatchedRows(header, rows, id);
    forall i | 0 <= i < |plan| ensures EncodeRow(header, plan[i]) == Some(u[i]) {
      assert u[i] in rows;
      KeptRowUnchanged(header, u[i]);
    }
    WriteRowsAll(header, plan);
  }

  /** With unique ids, a row matching `id` is the only one. */
  lemma OnlyOneMatch(header: seq<string>, rows: seq<seq<string>>, id: int, k: int)
    requires UniqueIds(header, rows) && 0 <= k < |rows| && Matches(header, rows[k], id)
    ensures forall i :: 0 <= i < |rows| && i != k ==> !Matches(header, rows[i], id)
  {
    forall i | 0 <= i < |rows| && i != k ensures !Matches(header, rows[i], id) {
      if i < k {
        assert Lookup(header, rows[i], "id") != Lookup(header, rows[k], "id");
      } else {
        assert Lookup(header, rows[k], "id") != Lookup(header, rows[i], "id");
      }
    }
  }

  /** With unique ids, deleting a stored id removes exactly its one row. */
  lemma DeleteRemovesExactlyOne(header: seq<string>, rows: seq<seq<string>>, id: int, k: int)
    requires UniqueIds(header, rows) && 0 <= k < |rows| && Matches(header, rows[k], id)
    ensures Unmatched(header, rows, id) == rows[..k] + rows[k + 1..]
  {
    OthersUnmatched(header, rows, id, k);
    RemoveAt(header, rows, id, k);
  }

  /** When only row k matches, the delete keeps the rows around it. */
  lemma RemoveAt(header: seq<string>, rows: seq<seq<string>>, id: int, k: int)
    requires 0 <= k < |rows| && Matches(header, rows[k], id)
    requires Unmatched(header, rows[..k], id) == rows[..k] && Unmatched(header, rows[k + 1..], id) == rows[k + 1..]
    ensures Unmatched(header, rows, id) == rows[..k] + rows[k + 1..]
  {
    var pre, post := rows[..k], rows[k + 1..];
    assert rows == pre + [rows[k]] + post;
    UnmatchedSingle(header, rows[k], id);
    UnmatchedAppend(header, pre + [rows[k]], post, id);
    UnmatchedAppend(header, pre, [rows[k]], id);
    assert pre + [] == pre;
  }

  /** With unique ids, the rows before and after the matching one are all kept. */
  lemma OthersUnmatched(header: seq<string>, rows: seq<seq<string>>, id: int, k: int)
    requires UniqueIds(header, rows) && 0 <= k < |rows| && Matches(header, rows[k], id)
    ensures Unmatched(header, rows[..k], id) == rows[..k]
    ensures Unmatched(header, rows[k + 1..], id) == rows[k + 1..]
  {
    OnlyOneMatch(header, rows, id, k);
    var pre, post := rows[..k], rows[k + 1..];
    assert forall i :: 0 <= i < |pre| ==> pre[i] == rows[i];
    UnmatchedNone(header, pre, id);
    assert forall i :: 0 <= i < |post| ==> post[i] == rows[k + 1 + i];
    UnmatchedNone(header, post, id);
  }

  lemma UnmatchedSingle(header: seq<string>, row: seq<string>, id: int)
    requires Matches(header, row, id)
    ensures Unmatched(header, [row], id) == []
  {
    assert [row][1..] == [];
  }

  // Update.

  /**
   * Update on a well-formed file whose header has the five columns rewrites
   * it completely: each matching row replaced in place, the others unchanged.
   */
  lemma UpdateOnWellFormedFile(header: seq<string>, rows: seq<seq<string>>, id: int, v: Video)
    requires WellFormed(header, rows) && forall n :: n in Fields ==> n in header
    ensures WriteRows(header, UpdatePlan(header, rows, id, v)) == Written(Replaced(header, rows, id, v), true)
  {
    var plan := UpdatePlan(header, rows, id, v);
    UpdatePlanAt(header, rows, id, v);
    forall i | 0 <= i < |plan| ensures EncodeRow(header, plan[i]) == Some(Replaced(header, rows, id, v)[i]) {
      if !Matches(header, rows[i], id) {
        KeptRowUnchanged(header, rows[i]);
      }
    }
    WriteRowsAll(header, plan);
  }

  /**
   * After an update of a file with the standard header, every replaced row
   * lists as the new record with the id forced to the one looked up, and
   * carries that id's text; the other rows are untouched.
   */
  lemma UpdateReplacesFully(variant: Variant, rows: seq<seq<string>>, id: int, v: Video, i: int)
    requires variant == PlainDict || PostDate.IsValidPostDate(v.postDate)
    requires 0 <= i < |rows|
    ensures Matches(Fields, rows[i], id) ==>
      DecodeRow(variant, Fields, Replaced(Fields, rows, id, v)[i]) == Keep(EntryOf(WithId(v, id))) &&
      Matches(Fields, Replaced(Fields, rows, id, v)[i], id)
    ensures !Matches(Fields, rows[i], id) ==> Replaced(Fields, rows, id, v)[i] == rows[i]
  {
    FreshRowUnderFields(id, v);
    CellsDecode(variant, WithId(v, id));
    FieldsColumns(Cells(WithId(v, id)));
  }

  /** An update of a stored id keeps the ids unique. */
  lemma UpdateKeepsIdsUnique(rows: seq<seq<string>>, id: int, v: Video)
    requires UniqueIds(Fields, rows)
    ensures UniqueIds(Fields, Replaced(Fields, rows, id, v))
  {
    var after := Replaced(Fields, rows, id, v);
    FreshRowUnderFields(id, v);
    FieldsColumns(Cells(WithId(v, id)));
    forall i, j | 0 <= i < j < |after| && Lookup(Fields, after[i], "id").Text?
      ensures Lookup(Fields, after[i], "id") != Lookup(Fields, after[j], "id")
    {
    }
  }

  // Concrete cases.

  lemma SampleDateIsValid()
    ensures PostDate.IsValidPostDate("2025-01-01")
  {
    PostDate.RenderedFields(2025, 1, 1);
    assert PostDate.RenderDate(2025, 1, 1) == "2025-01-01";
  }

  /** Lookup is by text: a stored "01" lists as id 1 yet is not id 1 for add, update or delete. */
  lemma LeadingZeroId(variant: Variant)
    ensures var row := ["01", "clip", "http://example.com", "2025-01-01", "5"];
      DecodeRow(variant, Fields, row) == Keep(Entry(1, Some("clip"), Some("http://example.com"), Some("2025-01-01"), 5)) &&
      !Matches(Fields, row, 1) && !HasId(Fields, [row], 1)
  {
    var row := ["01", "clip", "http://example.com", "2025-01-01", "5"];
    FieldsColumns(row);
    LeadingZeroReadsAsOne();
    assert ParseInt("5") == Some(5);
    SampleDateIsValid();
  }
}
