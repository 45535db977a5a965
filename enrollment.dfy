/** capture_face, shared by the enrollment screen of the demo and the data
    collector: check the name, read a frame, detect faces, and store the
    first detected face under the name. */
module Enrollment {
  import opened Wrappers
  import opened Image
  import opened FaceStore

  /** How a press of the capture button ends: the two error dialogs, a
      failed camera read (cvtColor on None raises), or a stored row. */
  datatype CaptureOutcome = EmptyName | NoFrame | NoFace | Stored(row: Row)

  /** The decision capture_face takes for a name, a camera read, the
      detector and the resize. */
  function Capture(name: string, read: Option<Grid>, detect: Grid -> seq<Region>,
                   resize: Grid -> Face): (outcome: CaptureOutcome)
    ensures name == "" ==> outcome == EmptyName
    ensures outcome.Stored? <==> name != "" && read.Some? && |detect(read.value)| > 0
    ensures outcome.Stored? ==>
              outcome.row == Row(name, resize(Crop(read.value, detect(read.value)[0])))
  {
    if name == "" then EmptyName
    else if read.None? then NoFrame
    else
      var faces := detect(read.value);
      if |faces| == 0 then NoFace
      else Stored(Row(name, resize(Crop(read.value, faces[0]))))
  }

  /** Only the first detection matters: two detectors that agree on the first
      region of a frame lead to the same outcome, whatever else they find. */
  lemma CaptureUsesFirstRegionOnly(name: string, gray: Grid, detect1: Grid -> seq<Region>,
                                   detect2: Grid -> seq<Region>, resize: Grid -> Face)
    requires |detect1(gray)| > 0 && |detect2(gray)| > 0
    requires detect1(gray)[0] == detect2(gray)[0]
    ensures Capture(name, Some(gray), detect1, resize) == Capture(name, Some(gray), detect2, resize)
  {
  }

  /** capture_face's steps against the store: the guards return before the
      INSERT, so they leave the table as it was; otherwise exactly one row is
      appended after the existing ones. */
  method CaptureFace(db: Database, name: string, read: Option<Grid>,
                     detect: Grid -> seq<Region>, resize: Grid -> Face)
    returns (outcome: CaptureOutcome)
    requires db.isOpen && db.table.Some?
    modifies db
    ensures outcome == Capture(name, read, detect, resize)
    ensures db.isOpen && db.table.Some?
    ensures !outcome.Stored? ==> db.table == old(db.table)
    ensures outcome.Stored? ==> db.table.value == old(db.table.value) + [outcome.row]
  {
    if name == "" {
      return EmptyName;
    }
    if read.None? {
      return NoFrame;
    }
    var gray := read.value;
    var faces := detect(gray);
    if |faces| == 0 {
      return NoFace;
    }
    var face := Crop(gray, faces[0]);
    var faceResized := resize(face);
    var row := Row(name, faceResized);
    db.Insert(row);
    outcome := Stored(row);
  }
}
