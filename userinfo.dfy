/** getUserInfo.py: the data collector window. It opens the camera and the
    database, makes sure the faces table exists, and stores one face per
    successful press of the capture button. */
module UserInfo {
  import opened Wrappers
  import opened Image
  import opened FaceStore
  import opened Video
  import opened Enrollment

  class FacialDataCollector {
    const db: Database
    /** face_cascade.detectMultiScale(gray, 1.3, 5). */
    const detect: Grid -> seq<Region>
    /** cv2.resize(face, (128, 128)). */
    const resize: Grid -> Face
    var videoCapture: Camera

    /** The table exists for as long as the connection is open. */
    ghost predicate Valid()
      reads this, db
    {
      db.isOpen ==> db.table.Some?
    }

    /** __init__: open the camera, connect, and create_table. */
    constructor(db: Database, detect: Grid -> seq<Region>, resize: Grid -> Face)
      requires db.isOpen
      modifies db
      ensures Valid() && this.db == db && db.isOpen
      ensures this.detect == detect && this.resize == resize
      ensures videoCapture == DefaultCamera
      ensures old(db.table).Some? ==> db.table == old(db.table)
      ensures old(db.table).None? ==> db.table == Some([])
    {
      this.db := db;
      this.detect := detect;
      this.resize := resize;
      videoCapture := DefaultCamera;
      new;
      db.CreateTable();
    }

    /** create_table again: CREATE TABLE IF NOT EXISTS leaves the existing
        table and its rows as they are. */
    method CreateTable()
      requires Valid() && db.isOpen
      modifies db
      ensures Valid() && db.isOpen && db.table == old(db.table)
    {
      db.CreateTable();
    }

    /** capture_face: an empty name or no detected face aborts with the
        table unchanged; otherwise the first detected face, cropped from the
        frame as read (not mirrored) and resized, is appended under the name. */
    method CaptureFace(name: string, delivered: Option<Grid>) returns (outcome: CaptureOutcome)
      requires Valid() && db.isOpen
      modifies db
      ensures Valid() && db.isOpen
      ensures outcome == Capture(name, Read(videoCapture, delivered), detect, resize)
      ensures !outcome.Stored? ==> db.table == old(db.table)
      ensures outcome.Stored? ==> db.table.value == old(db.table.value) + [outcome.row]
    {
      outcome := Enrollment.CaptureFace(db, name, Read(videoCapture, delivered), detect, resize);
    }

    /** quit: release the camera and close the connection. */
    method Quit()
      requires Valid()
      modifies this`videoCapture, db
      ensures Valid() && videoCapture == Release(old(videoCapture)) && !db.isOpen
      ensures db.table == old(db.table)
    {
      videoCapture := Release(videoCapture);
      db.Close();
    }
  }
}
