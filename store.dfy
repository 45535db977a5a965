/** The `faces` table of facial_data.db and the loading of the known faces
    from it. The table is kept as its sequence of rows in SELECT order; the
    PNG blob of a row is kept as the face it encodes. */
module FaceStore {
  import opened Wrappers
  import opened Image

  /** One row of the faces table (the autoincrement id is never read back). */
  datatype Row = Row(name: string, face: Face)

  /** `knownFaces` and `knownNames` are the two columns of `rows`, pair by
      pair and in row order. */
  predicate LoadedFrom(knownFaces: seq<Face>, knownNames: seq<string>, rows: seq<Row>)
  {
    |knownFaces| == |rows| && |knownNames| == |rows| &&
    forall i :: 0 <= i < |rows| ==> knownFaces[i] == rows[i].face && knownNames[i] == rows[i].name
  }

  /** Rows rebuilt from two parallel columns. */
  function Zip(knownFaces: seq<Face>, knownNames: seq<string>): (rows: seq<Row>)
    requires |knownFaces| == |knownNames|
  {
    if knownFaces == [] then []
    else [Row(knownNames[0], knownFaces[0])] + Zip(knownFaces[1..], knownNames[1..])
  }

  /** Loading is lossless: the columns are the rows' columns exactly when
      zipping them back gives the rows. */
  lemma {:induction false} LoadedFromZip(knownFaces: seq<Face>, knownNames: seq<string>, rows: seq<Row>)
    ensures LoadedFrom(knownFaces, knownNames, rows) <==>
              |knownFaces| == |knownNames| && Zip(knownFaces, knownNames) == rows
  {
    if |knownFaces| == |knownNames| {
      if knownFaces == [] {
      } else {
        LoadedFromZip(knownFaces[1..], knownNames[1..], if rows == [] then [] else rows[1..]);
        if LoadedFrom(knownFaces, knownNames, rows) {
          assert rows == [rows[0]] + rows[1..];
        }
        if Zip(knownFaces, knownNames) == rows {
          assert rows[0] == Row(knownNames[0], knownFaces[0]);
          assert rows[1..] == Zip(knownFaces[1..], knownNames[1..]);
          assert forall i :: 1 <= i < |rows| ==> rows[i] == rows[1..][i - 1];
        }
      }
    }
  }

  /** The connection to facial_data.db. */
  class Database {
    /** The faces table: None until CREATE TABLE has run on this file. */
    var table: Option<seq<Row>>
    var isOpen: bool

    /** sqlite3.connect('facial_data.db'), on a file that may already hold
        the table from an earlier run. */
    constructor Connect(existing: Option<seq<Row>>)
      ensures table == existing && isOpen
    {
      table := existing;
      isOpen := true;
    }

    /** CREATE TABLE IF NOT EXISTS faces (...): an existing table and its
        rows are left as they are; otherwise the table starts empty. */
    method CreateTable()
      requires isOpen
      modifies this`table
      ensures table.Some?
      ensures old(table).Some? ==> table == old(table)
      ensures old(table).None? ==> table == Some([])
    {
      if table.None? {
        table := Some([]);
      }
    }

    /** INSERT INTO faces (name, face_data) VALUES (?, ?), then commit: the
        row goes after every existing row. */
    method Insert(row: Row)
      requires isOpen && table.Some?
      modifies this`table
      ensures table == Some(old(table).value + [row])
    {
      table := Some(table.value + [row]);
    }

    /** SELECT name, face_data FROM faces, then fetchall(): None when the
        table does not exist (sqlite raises "no such table"). */
    method SelectAll() returns (rows: Option<seq<Row>>)
      requires isOpen
      ensures rows == table
    {
      rows := table;
    }

    /** db_conn.close(). */
    method Close()
      modifies this`isOpen
      ensures !isOpen
    {
      isOpen := false;
    }
  }

  /** load_known_faces: fetch every row and append its face and its name to
      two lists, in row order. None when the table does not exist. */
  method LoadKnownFaces(db: Database) returns (loaded: Option<(seq<Face>, seq<string>)>)
    requires db.isOpen
    ensures loaded.None? <==> db.table.None?
    ensures loaded.Some? ==> LoadedFrom(loaded.value.0, loaded.value.1, db.table.value)
  {
    var results := db.SelectAll();
    if results.None? {
      return None;
    }
    var rows := results.value;
    var knownFaces: seq<Face> := [];
    var knownNames: seq<string> := [];
    var i := 0;
    while i < |rows|
      invariant 0 <= i <= |rows|
      invariant LoadedFrom(knownFaces, knownNames, rows[..i])
    {
      knownFaces := knownFaces + [rows[i].face];
      knownNames := knownNames + [rows[i].name];
      i := i + 1;
    }
    assert rows[..i] == rows;
    loaded := Some((knownFaces, knownNames));
  }
}
