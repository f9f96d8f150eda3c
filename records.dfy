/**
 * The record store's data: the CSV file as abstract state, the view
 * `csv.DictReader` gives of a row, the decoding of a row into a listed
 * record, the listing with its optional sort, and the rows `csv.DictWriter`
 * produces when the file is rewritten.
 *
 * The file is held after CSV unquoting: a header and the data rows, each a
 * sequence of cells. Blank lines, which DictReader skips, are not held.
 */
module Records {
  import opened Wrappers
  import opened Decimal
  import PostDate
  import opened StableSort

  /** The header `add_video` writes when it creates the file. */
  const Fields: seq<string> := ["id", "name", "href", "post_date", "views_count"]

  /** A record as the boundary layers pass it in: integer id and views_count, text otherwise. */
  datatype Video = Video(id: int, name: string, href: string, postDate: string, views: int)

  /**
   * A listed record. In the copies that build a plain dict a row whose text
   * cell is missing lists with a null field, hence the options; a short row
   * gets there only when its id and views_count cells come before that cell.
   */
  datatype Entry = Entry(id: int, name: Option<string>, href: Option<string>, postDate: Option<string>, views: int)

  /** The backing file: missing, zero bytes long, or a header with data rows. */
  datatype FileState = Absent | Empty | Present(header: seq<string>, rows: seq<seq<string>>)

  /**
   * PlainDict: the Django and FastAPI copies, which build a dict per row.
   * VideoSchema: the Flask copy, which builds a pydantic `Video` per row.
   */
  datatype Variant = PlainDict | VideoSchema

  /** What a DictReader row gives for a column: KeyError, None (short row) or text. */
  datatype Cell = NoKey | NoValue | Text(s: string)

  /** `_file_exists`: the path exists and the file is not empty. */
  predicate HasContent(file: FileState)
    ensures !HasContent(file) <==> file == Absent || file == Empty
  {
    file.Present?
  }

  /** The last position of `name` in the header, or -1. */
  function LastIndex(header: seq<string>, name: string): (r: int)
    ensures -1 <= r < |header|
    ensures r >= 0 ==> header[r] == name
    ensures forall j :: r < j < |header| ==> header[j] != name
    decreases |header|
  {
    if header == [] then -1
    else if header[|header| - 1] == name then |header| - 1
    else LastIndex(header[..|header| - 1], name)
  }

  /**
   * `row[name]` for the dict DictReader builds: `dict(zip(header, row))`, so
   * the last column of that name wins, and None for the columns past the end
   * of a short row.
   */
  function Lookup(header: seq<string>, row: seq<string>, name: string): (c: Cell)
    ensures c.NoKey? <==> name !in header
  {
    var i := LastIndex(header, name);
    if i < 0 then NoKey else if i < |row| then Text(row[i]) else NoValue
  }

  /** A present column gives None exactly past the end of a short row, and otherwise the cell at its last position. */
  lemma LookupCell(header: seq<string>, row: seq<string>, name: string)
    ensures Lookup(header, row, name).NoValue? <==> name in header && LastIndex(header, name) >= |row|
    ensures Lookup(header, row, name).Text? ==> Lookup(header, row, name).s == row[LastIndex(header, name)]
  {
  }

  function TextOf(c: Cell): Option<string>
  {
    if c.Text? then Some(c.s) else None
  }

  /** The listed form of a stored `Video`. */
  function EntryOf(v: Video): Entry
  {
    Entry(v.id, Some(v.name), Some(v.href), Some(v.postDate), v.views)
  }

  /**
   * The rows `get_videos` lists: id and views_count cells that `int` reads, the
   * name, href and post_date columns present, and in the Flask copy non-null
   * text fields and a valid post_date.
   */
  predicate Decodes(variant: Variant, header: seq<string>, row: seq<string>)
  {
    var id, views := Lookup(header, row, "id"), Lookup(header, row, "views_count");
    id.Text? && ParseInt(id.s).Some? && views.Text? && ParseInt(views.s).Some? &&
    "name" in header && "href" in header && "post_date" in header &&
    (variant == VideoSchema ==>
       Lookup(header, row, "name").Text? && Lookup(header, row, "href").Text? &&
       Lookup(header, row, "post_date").Text? && PostDate.IsValidPostDate(Lookup(header, row, "post_date").s))
  }

  /** The outcome of one row: a record, a row skipped (ValueError or KeyError), or an escaping error. */
  datatype Decoded = Keep(entry: Entry) | Skip | Abort

  /**
   * One iteration of `get_videos`' loop, in the order the statements run:
   * `int(row["views_count"])` if the column exists, then `int(row["id"])`,
   * then the text fields, then `row["views_count"]` again. `int(None)`
   * raises TypeError, which no handler in the loop catches. The Flask copy
   * also builds a `Video`, whose validation error is a ValueError.
   */
  function DecodeRow(variant: Variant, header: seq<string>, row: seq<string>): (d: Decoded)
    ensures d.Keep? ==> Lookup(header, row, "id").Text? && ParseInt(Lookup(header, row, "id").s) == Some(d.entry.id)
    ensures d.Keep? ==> (Lookup(header, row, "views_count").Text? &&
                         ParseInt(Lookup(header, row, "views_count").s) == Some(d.entry.views))
    ensures d.Keep? ==> (d.entry.name == TextOf(Lookup(header, row, "name")) &&
                         d.entry.href == TextOf(Lookup(header, row, "href")) &&
                         d.entry.postDate == TextOf(Lookup(header, row, "post_date")))
    ensures d.Keep? && variant == VideoSchema ==>
      d.entry.name.Some? && d.entry.href.Some? && d.entry.postDate.Some? &&
      PostDate.IsValidPostDate(d.entry.postDate.value)
    ensures d.Abort? <==> (Lookup(header, row, "views_count").NoValue? ||
                           (Lookup(header, row, "id").NoValue? &&
                            !(Lookup(header, row, "views_count").Text? &&
                              ParseInt(Lookup(header, row, "views_count").s).None?)))
  {
    var views := Lookup(header, row, "views_count");
    var id := Lookup(header, row, "id");
    if views.NoValue? then Abort
    else if views.Text? && ParseInt(views.s).None? then Skip
    else if id.NoKey? then Skip
    else if id.NoValue? then Abort
    else if ParseInt(id.s).None? then Skip
    else if "name" !in header || "href" !in header || "post_date" !in header || views.NoKey? then Skip
    else
      var e := Entry(ParseInt(id.s).value, TextOf(Lookup(header, row, "name")), TextOf(Lookup(header, row, "href")),
                     TextOf(Lookup(header, row, "post_date")), ParseInt(views.s).value);
      if variant == VideoSchema &&
         !(e.name.Some? && e.href.Some? && e.postDate.Some? && PostDate.IsValidPostDate(e.postDate.value))
      then Skip
      else Keep(e)
  }

  /** A row is kept exactly when it decodes, aborts exactly on `int(None)`, and is skipped otherwise. */
  lemma DecodeRowOutcome(variant: Variant, header: seq<string>, row: seq<string>)
    ensures DecodeRow(variant, header, row).Keep? <==> Decodes(variant, header, row)
    ensures DecodeRow(variant, header, row).Skip? <==> !DecodeRow(variant, header, row).Abort? && !Decodes(variant, header, row)
  {
  }

  /** The records decoded from the rows in file order, or None when some row raises an escaping error. */
  function DecodeAll(variant: Variant, header: seq<string>, rows: seq<seq<string>>): (r: Option<seq<Entry>>)
    ensures r.Some? ==> |r.value| <= |rows|
    ensures r.None? ==> |rows| > 0
    decreases |rows|
  {
    if rows == [] then Some([])
    else
      var init := rows[..|rows| - 1];
      match DecodeAll(variant, header, init)
      case None => None
      case Some(vs) =>
        match DecodeRow(variant, header, rows[|rows| - 1])
        case Abort => None
        case Skip => Some(vs)
        case Keep(e) => Some(vs + [e])
  }

  /** Decoding one more row after the others. */
  lemma DecodeAllSnoc(variant: Variant, header: seq<string>, rows: seq<seq<string>>, row: seq<string>)
    ensures DecodeAll(variant, header, rows + [row])
         == match DecodeAll(variant, header, rows)
            case None => None
            case Some(vs) =>
              match DecodeRow(variant, header, row)
              case Abort => None
              case Skip => Some(vs)
              case Keep(e) => Some(vs + [e])
  {
    var all := rows + [row];
    assert all[..|all| - 1] == rows && all[|all| - 1] == row;
  }

  /** The listing fails exactly when some row raises an escaping error; otherwise each row gives at most one record. */
  lemma {:induction false} DecodeAllAborts(variant: Variant, header: seq<string>, rows: seq<seq<string>>)
    ensures DecodeAll(variant, header, rows).None? <==>
            exists i :: 0 <= i < |rows| && DecodeRow(variant, header, rows[i]).Abort?
    ensures DecodeAll(variant, header, rows).Some? ==> |DecodeAll(variant, header, rows).value| <= |rows|
    decreases |rows|
  {
    if rows != [] {
      var init := rows[..|rows| - 1];
      DecodeAllAborts(variant, header, init);
      if DecodeAll(variant, header, init).None? {
        var i :| 0 <= i < |init| && DecodeRow(variant, header, init[i]).Abort?;
        assert rows[i] == init[i];
      }
      if exists i :: 0 <= i < |rows| && DecodeRow(variant, header, rows[i]).Abort? {
        var i :| 0 <= i < |rows| && DecodeRow(variant, header, rows[i]).Abort?;
        if i < |rows| - 1 { assert init[i] == rows[i]; }
      }
    }
  }

  /** The sort fields `get_videos` recognises. */
  datatype SortField = ByName | ByPostDate | ByViews

  function SortFieldOf(sortBy: Option<string>): (f: Option<SortField>)
    ensures f.Some? <==> sortBy == Some("name") || sortBy == Some("post_date") || sortBy == Some("views_count")
  {
    match sortBy
    case Some("name") => Some(ByName)
    case Some("post_date") => Some(ByPostDate)
    case Some("views_count") => Some(ByViews)
    case _ => None
  }

  /**
   * The Flask `VideosSortParams` schema: sort_by and order optional, each from
   * a fixed set. Every sort_by it admits is one the store sorts by, and of its
   * order values only "desc" sorts descending.
   */
  predicate IsSortParams(sortBy: Option<string>, order: Option<string>)
    ensures IsSortParams(sortBy, order) ==> (sortBy.Some? <==> SortFieldOf(sortBy).Some?)
    ensures IsSortParams(sortBy, order) && order.Some? ==> (IsDescending(order.value) <==> order.value == "desc")
  {
    (sortBy.None? || sortBy.value == "name" || sortBy.value == "post_date" || sortBy.value == "views_count") &&
    (order.None? || order.value == "asc" || order.value == "desc")
  }

  /** `str.lower` on ASCII letters. */
  function Lower(s: string): (r: string)
    ensures |r| == |s|
  {
    seq(|s|, i requires 0 <= i < |s| => if 'A' <= s[i] <= 'Z' then ((s[i] as int) + 32) as char else s[i])
  }

  /** The lowered text has no letter 'A'..'Z' and keeps every other character. */
  lemma LowerIsLowercase(s: string)
    ensures forall i :: 0 <= i < |s| ==> !('A' <= Lower(s)[i] <= 'Z')
    ensures forall i :: 0 <= i < |s| && !('A' <= s[i] <= 'Z') ==> Lower(s)[i] == s[i]
  {
  }

  /** Lowering twice is lowering once. */
  lemma LowerIdempotent(s: string)
    ensures Lower(Lower(s)) == Lower(s)
  {
    var r := Lower(s);
    LowerIsLowercase(s);
    LowerIsLowercase(r);
    assert forall i :: 0 <= i < |r| ==> Lower(r)[i] == r[i];
  }

  /** Texts that differ only in the case of their letters lower to the same text. */
  lemma LowerIgnoresCase(s: string, t: string)
    requires |s| == |t|
    requires forall i :: 0 <= i < |s| ==> s[i] == t[i] || ('A' <= s[i] <= 'Z' && t[i] as int == s[i] as int + 32)
    ensures Lower(s) == Lower(t)
  {
    assert forall i :: 0 <= i < |s| ==> Lower(s)[i] == Lower(t)[i];
  }

  /** `order.lower() == "desc"`. */
  predicate IsDescending(order: string)
    ensures IsDescending(order) ==> |order| == 4
    ensures order == "desc" || order == "DESC" ==> IsDescending(order)
  {
    assert Lower("desc") == "desc" && Lower("DESC") == "desc";
    Lower(order) == "desc"
  }

  /** `sort_key`: the integer views_count, the raw post_date text, or the lowercased name. */
  function SortKey(f: SortField, e: Entry): (k: Key)
    ensures k.IntKey? <==> f == ByViews
    ensures k.IntKey? ==> k.n == e.views
  {
    match f
    case ByViews => IntKey(e.views)
    case ByPostDate => TextKey(if e.postDate.Some? then e.postDate.value else "")
    case ByName => TextKey(if e.name.Some? then Lower(e.name.value) else "")
  }

  function KeyFn(f: SortField): Entry -> Key
  {
    e => SortKey(f, e)
  }

  /**
   * The sort raises no error: `None.lower()` fails for any record without a
   * name, and comparing a None post_date fails once there are two records.
   */
  predicate KeysDefined(f: SortField, vs: seq<Entry>)
    ensures f == ByViews || vs == [] || (f == ByPostDate && |vs| == 1) ==> KeysDefined(f, vs)
  {
    match f
    case ByViews => true
    case ByName => forall i :: 0 <= i < |vs| ==> vs[i].name.Some?
    case ByPostDate => |vs| < 2 || forall i :: 0 <= i < |vs| ==> vs[i].postDate.Some?
  }

  function SortEntries(vs: seq<Entry>, f: SortField, order: string): seq<Entry>
  {
    Sort(vs, KeyFn(f), IsDescending(order))
  }

  /** What `get_videos(sort_by, order)` returns, every escaping error giving the empty list. */
  function ListSpec(variant: Variant, file: FileState, sortBy: Option<string>, order: string): (r: seq<Entry>)
    ensures !HasContent(file) ==> r == []
  {
    match file
    case Absent => []
    case Empty => []
    case Present(header, rows) =>
      match DecodeAll(variant, header, rows)
      case None => []
      case Some(vs) =>
        match SortFieldOf(sortBy)
        case None => vs
        case Some(f) => if KeysDefined(f, vs) then SortEntries(vs, f, order) else []
  }

  // Writing.

  /** `row.get("id") == str(id)`: lookup is by text, not by integer value. */
  predicate Matches(header: seq<string>, row: seq<string>, id: int)
    ensures Matches(header, row, id) ==> "id" in header
  {
    Lookup(header, row, "id") == Text(IntToString(id))
  }

  /** Some row's id text is `str(id)`: the `found` flag of delete and update. */
  predicate HasId(header: seq<string>, rows: seq<seq<string>>, id: int)
    ensures HasId(header, rows, id) ==> |rows| > 0 && "id" in header
  {
    exists i :: 0 <= i < |rows| && Matches(header, rows[i], id)
  }

  /** One more row: HasId holds of the rows and the row exactly when it held before or the row matches. */
  lemma HasIdSnoc(header: seq<string>, rows: seq<seq<string>>, row: seq<string>, id: int)
    ensures HasId(header, rows + [row], id) <==> HasId(header, rows, id) || Matches(header, row, id)
  {
    var all := rows + [row];
    if HasId(header, all, id) {
      var j :| 0 <= j < |all| && Matches(header, all[j], id);
      if j < |rows| { assert all[j] == rows[j]; }
    }
    if HasId(header, rows, id) {
      var j :| 0 <= j < |rows| && Matches(header, rows[j], id);
      assert all[j] == rows[j];
    }
    if Matches(header, row, id) {
      assert all[|rows|] == row;
    }
  }

  /** Extending a prefix of the rows by one row: HasId holds of it when it held before or the new row matches. */
  lemma PrefixHasId(header: seq<string>, rows: seq<seq<string>>, i: int, id: int)
    requires 0 <= i < |rows|
    ensures HasId(header, rows[..i + 1], id) <==> HasId(header, rows[..i], id) || Matches(header, rows[i], id)
  {
    HasIdSnoc(header, rows[..i], rows[i], id);
    assert rows[..i] + [rows[i]] == rows[..i + 1];
  }

  /** Extending a prefix of the rows by one row extends the delete plan by that row unless it matches. */
  lemma PrefixDelete(header: seq<string>, rows: seq<seq<string>>, i: int, id: int)
    requires 0 <= i < |rows|
    ensures DeletePlan(header, rows[..i + 1], id)
         == DeletePlan(header, rows[..i], id) + (if Matches(header, rows[i], id) then [] else [Kept(rows[i])])
  {
    var p := rows[..i + 1];
    assert p[..i] == rows[..i] && p[i] == rows[i];
  }

  /** Extending a prefix of the rows by one row extends the update plan by that row or its replacement. */
  lemma PrefixUpdate(header: seq<string>, rows: seq<seq<string>>, i: int, id: int, v: Video)
    requires 0 <= i < |rows|
    ensures UpdatePlan(header, rows[..i + 1], id, v)
         == UpdatePlan(header, rows[..i], id, v) + [if Matches(header, rows[i], id) then Fresh(id, v) else Kept(rows[i])]
  {
    var p := rows[..i + 1];
    assert p[..i] == rows[..i] && p[i] == rows[i];
  }

  /** The cells DictWriter writes for a `Video` under the header `Fields`. */
  function Cells(v: Video): (r: seq<string>)
    ensures |r| == |Fields|
  {
    [IntToString(v.id), v.name, v.href, v.postDate, IntToString(v.views)]
  }

  /** A dict handed to `writerows`: a row as DictReader read it, or the replacement for a matched row. */
  datatype OutRow = Kept(cells: seq<string>) | Fresh(id: int, video: Video)

  /** The value of one header column in a replacement row; DictWriter's `restval` is "". */
  function FreshCell(name: string, id: int, v: Video): string
  {
    if name == "id" then IntToString(id)
    else if name == "name" then v.name
    else if name == "href" then v.href
    else if name == "post_date" then v.postDate
    else if name == "views_count" then IntToString(v.views)
    else ""
  }

  /**
   * The cells DictWriter writes for one dict under `header`, or None where it
   * raises ValueError: a read row longer than the header carries the extra
   * key None, and a replacement row has keys the header may lack.
   */
  function EncodeRow(header: seq<string>, out: OutRow): (r: Option<seq<string>>)
    ensures r.Some? ==> |r.value| == |header|
  {
    match out
    case Kept(cells) =>
      if |cells| > |header| then None
      else Some(seq(|header|, i requires 0 <= i < |header| =>
                  var c := Lookup(header, cells, header[i]); if c.Text? then c.s else ""))
    case Fresh(id, v) =>
      if !(forall n :: n in Fields ==> n in header) then None
      else Some(seq(|header|, i requires 0 <= i < |header| => FreshCell(header[i], id, v)))
  }

  /** The data rows on disk after `writerows`, and whether every row was written. */
  datatype Written = Written(rows: seq<seq<string>>, complete: bool)

  /** `writerows` after the file was truncated: rows are written until the first one that raises. */
  function WriteRows(header: seq<string>, out: seq<OutRow>): (w: Written)
    ensures |w.rows| <= |out|
    ensures w.complete <==> forall i :: 0 <= i < |out| ==> EncodeRow(header, out[i]).Some?
    ensures w.complete ==> |w.rows| == |out|
    decreases |out|
  {
    if out == [] then Written([], true)
    else
      match EncodeRow(header, out[0])
      case None => Written([], false)
      case Some(cells) =>
        var rest := WriteRows(header, out[1..]);
        assert forall i :: 1 <= i < |out| ==> out[i] == out[1..][i - 1];
        Written([cells] + rest.rows, rest.complete)
  }

  /** `videos_to_keep`: every row whose id text differs from `str(id)`, in file order. */
  function DeletePlan(header: seq<string>, rows: seq<seq<string>>, id: int): (r: seq<OutRow>)
    ensures |r| <= |rows|
    ensures HasId(header, rows, id) ==> |r| < |rows|
    decreases |rows|
  {
    if rows == [] then []
    else
      var init, last := rows[..|rows| - 1], rows[|rows| - 1];
      assert rows == init + [last];
      HasIdSnoc(header, init, last, id);
      DeletePlan(header, init, id) + (if Matches(header, last, id) then [] else [Kept(last)])
  }

  /** `updated_rows`: every matching row replaced by the new record, the others as read. */
  function UpdatePlan(header: seq<string>, rows: seq<seq<string>>, id: int, v: Video): (r: seq<OutRow>)
    ensures |r| == |rows|
    decreases |rows|
  {
    if rows == [] then []
    else
      var last := rows[|rows| - 1];
      UpdatePlan(header, rows[..|rows| - 1], id, v) + [if Matches(header, last, id) then Fresh(id, v) else Kept(last)]
  }

  /** The `id` of `update_video`'s reply: an int in the dict copies, `str(id)` in the Flask copy. */
  datatype ReplyId = IntId(n: int) | TextId(s: string)

  datatype Reply = Reply(id: ReplyId, name: string, href: string, postDate: string, views: int)
}
