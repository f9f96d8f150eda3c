/**
 * The record store itself: one object owning the backing CSV file, with the
 * four operations of `csv_manager.py` / `data_manager.py`. Each operation
 * reads the file row by row as those functions do, and replaces the file's
 * state the way their writes do (create, append, or truncate and rewrite).
 */
module CsvStore {
  import opened Wrappers
  import opened Decimal
  import opened Records

  class Store {
    /** Which of the three copies this store behaves as. */
    const variant: Variant
    /** The backing file. */
    var file: FileState

    constructor (variant: Variant, file: FileState)
      ensures this.variant == variant && this.file == file
    {
      this.variant := variant;
      this.file := file;
    }

    /** `get_videos(sort_by, order)`. */
    method List(sortBy: Option<string>, order: string) returns (videos: seq<Entry>)
      ensures videos == ListSpec(variant, file, sortBy, order)
    {
      if !HasContent(file) {
        return [];
      }
      var header, rows := file.header, file.rows;
      videos := [];
      var i := 0;
      while i < |rows|
        invariant 0 <= i <= |rows|
        invariant DecodeAll(variant, header, rows[..i]) == Some(videos)
      {
        DecodeAllSnoc(variant, header, rows[..i], rows[i]);
        assert rows[..i] + [rows[i]] == rows[..i + 1];
        match DecodeRow(variant, header, rows[i]) {
          case Abort =>
            DecodeAllAborts(variant, header, rows);
            return [];
          case Skip =>
          case Keep(e) =>
            videos := videos + [e];
        }
        i := i + 1;
      }
      assert rows[..i] == rows;
      var field := SortFieldOf(sortBy);
      if field.Some? {
        if !KeysDefined(field.value, videos) {
          return [];
        }
        videos := SortEntries(videos, field.value, order);
      }
    }

    /** `add_video(video)`: refuse an id whose text is stored, else append or create the file. */
    method Add(v: Video) returns (ok: bool)
      modifies this
      ensures !HasContent(old(file)) ==> ok && file == Present(Fields, [Cells(v)])
      ensures HasContent(old(file)) ==> ok == !HasId(old(file).header, old(file).rows, v.id)
      ensures HasContent(old(file)) && ok ==> file == Present(old(file).header, old(file).rows + [Cells(v)])
      ensures HasContent(old(file)) && !ok ==> file == old(file)
    {
      var row := Cells(v);
      if HasContent(file) {
        var header, rows := file.header, file.rows;
        var i := 0;
        while i < |rows|
          invariant 0 <= i <= |rows|
          invariant forall j :: 0 <= j < i ==> !Matches(header, rows[j], v.id)
        {
          if Lookup(header, rows[i], "id") == Text(row[0]) {
            return false;
          }
          i := i + 1;
        }
        file := Present(header, rows + [row]);
      } else {
        file := Present(Fields, [row]);
      }
      ok := true;
    }

    /** `delete_video(id)`: rewrite the file without the rows whose id text is `str(id)`. */
    method Delete(id: int) returns (ok: bool)
      modifies this
      ensures !HasContent(old(file)) ==> !ok && file == old(file)
      ensures HasContent(old(file)) && !HasId(old(file).header, old(file).rows, id) ==> !ok && file == old(file)
      ensures HasContent(old(file)) && HasId(old(file).header, old(file).rows, id) ==>
        var w := WriteRows(old(file).header, DeletePlan(old(file).header, old(file).rows, id));
        file == Present(old(file).header, w.rows) && ok == w.complete
    {
      if !HasContent(file) {
        return false;
      }
      var header, rows := file.header, file.rows;
      var keep: seq<OutRow> := [];
      var found := false;
      var i := 0;
      while i < |rows|
        invariant 0 <= i <= |rows|
        invariant file == old(file) == Present(header, rows)
        invariant keep == DeletePlan(header, rows[..i], id)
        invariant found <==> HasId(header, rows[..i], id)
      {
        PrefixHasId(header, rows, i, id);
        PrefixDelete(header, rows, i, id);
        if Lookup(header, rows[i], "id") == Text(IntToString(id)) {
          found := true;
        } else {
          keep := keep + [Kept(rows[i])];
        }
        i := i + 1;
      }
      assert rows[..i] == rows;
      if !found {
        return false;
      }
      var w := WriteRows(header, keep);
      file := Present(header, w.rows);
      ok := w.complete;
    }

    /**
     * `update_video(id, video)`: rewrite the file with every row whose id text
     * is `str(id)` replaced by the new record, its id forced to `id`.
     */
    method Update(id: int, v: Video) returns (ok: bool, reply: Option<Reply>)
      modifies this
      ensures !HasContent(old(file)) ==> !ok && reply == None && file == old(file)
      ensures HasContent(old(file)) && !HasId(old(file).header, old(file).rows, id) ==>
        !ok && reply == None && file == old(file)
      ensures HasContent(old(file)) && HasId(old(file).header, old(file).rows, id) ==>
        var w := WriteRows(old(file).header, UpdatePlan(old(file).header, old(file).rows, id, v));
        file == Present(old(file).header, w.rows) && ok == w.complete
      ensures ok ==> reply == Some(Reply(if variant == PlainDict then IntId(id) else TextId(IntToString(id)),
                                         v.name, v.href, v.postDate, v.views))
      ensures !ok ==> reply == None
    {
      if !HasContent(file) {
        return false, None;
      }
      var header, rows := file.header, file.rows;
      var updated: seq<OutRow> := [];
      var found := false;
      var i := 0;
      while i < |rows|
        invariant 0 <= i <= |rows|
        invariant file == old(file) == Present(header, rows)
        invariant updated == UpdatePlan(header, rows[..i], id, v)
        invariant found <==> HasId(header, rows[..i], id)
      {
        PrefixHasId(header, rows, i, id);
        PrefixUpdate(header, rows, i, id, v);
        if Lookup(header, rows[i], "id") == Text(IntToString(id)) {
          found := true;
          updated := updated + [Fresh(id, v)];
        } else {
          updated := updated + [Kept(rows[i])];
        }
        i := i + 1;
      }
      assert rows[..i] == rows;
      if !found {
        return false, None;
      }
      var w := WriteRows(header, updated);
      file := Present(header, w.rows);
      if !w.complete {
        return false, None;
      }
      ok := true;
      match variant {
        case PlainDict =>
          // int(updated_row["id"]) and int(updated_row["views_count"]) of the cells just written
          IntRoundTrip(id);
          IntRoundTrip(v.views);
          var storedId := ParseInt(IntToString(id)).value;
          var storedViews := ParseInt(IntToString(v.views)).value;
          reply := Some(Reply(IntId(storedId), v.name, v.href, v.postDate, storedViews));
        case VideoSchema =>
          // model_dump() with "id" overwritten by str(id)
          reply := Some(Reply(TextId(IntToString(id)), v.name, v.href, v.postDate, v.views));
      }
    }
  }
}
