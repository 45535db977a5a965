/** demo.py: the combined window. From the main menu the user enters
    enrollment or recognition; each opens the camera, and going back to the
    menu releases it and drops the handle. The refresh loops do work, and
    reschedule themselves, only while a handle is held. Recognition matches
    against a snapshot of the table taken when recognition is entered. */
module Demo {
  import opened Wrappers
  import opened Image
  import opened Distance
  import opened FaceStore
  import opened Video
  import opened Recognition
  import opened Enrollment

  class FacialRecognitionDemo {
    const db: Database
    /** face_cascade.detectMultiScale(gray, 1.3, 5). */
    const detect: Grid -> seq<Region>
    /** cv2.resize(face, (128, 128)). */
    const resize: Grid -> Face
    /** None in the main menu. */
    var videoCapture: Option<Camera>
    /** The snapshot taken by setup_recognition. */
    var knownFaces: seq<Face>
    var knownNames: seq<string>
    /** What info_label shows on the recognition screen. */
    var infoLabel: Status

    /** The table exists while the connection is open, and the known lists
        are parallel. */
    ghost predicate Valid()
      reads this, db
    {
      (db.isOpen ==> db.table.Some?) && |knownFaces| == |knownNames|
    }

    /** __init__: no camera yet, connect, create_table, main menu. */
    constructor(db: Database, detect: Grid -> seq<Region>, resize: Grid -> Face)
      requires db.isOpen
      modifies db
      ensures Valid() && this.db == db && db.isOpen
      ensures this.detect == detect && this.resize == resize
      ensures videoCapture == None && knownFaces == [] && knownNames == []
      ensures old(db.table).Some? ==> db.table == old(db.table)
      ensures old(db.table).None? ==> db.table == Some([])
    {
      this.db := db;
      this.detect := detect;
      this.resize := resize;
      videoCapture := None;
      knownFaces := [];
      knownNames := [];
      infoLabel := Waiting;
      new;
      db.CreateTable();
    }

    /** setup_add_user: open the camera for the enrollment screen. */
    method SetupAddUser()
      modifies this`videoCapture
      ensures videoCapture == Some(DefaultCamera)
    {
      videoCapture := Some(DefaultCamera);
    }

    /** update_video: while a handle is held, show the mirrored frame (if
        one was read) and reschedule; with no handle, do nothing. */
    method UpdateVideo(delivered: Option<Grid>) returns (rescheduled: bool, shown: Option<Grid>)
      ensures rescheduled <==> videoCapture.Some?
      ensures videoCapture.None? ==> shown.None?
      ensures videoCapture.Some? ==>
                if Read(videoCapture.value, delivered).Some?
                then shown == Some(Mirror(Read(videoCapture.value, delivered).value))
                else shown.None?
    {
      rescheduled, shown := false, None;
      if videoCapture.Some? {
        var frame := Read(videoCapture.value, delivered);
        if frame.Some? {
          shown := Some(Mirror(frame.value));
        }
        rescheduled := true;
      }
    }

    /** capture_face on the enrollment screen: the same guards and the same
        single append as the data collector. The recognition snapshot is not
        touched, so a stored row is not matched against until recognition is
        entered again. */
    method CaptureFace(name: string, delivered: Option<Grid>) returns (outcome: CaptureOutcome)
      requires Valid() && db.isOpen && videoCapture.Some?
      modifies db
      ensures Valid() && db.isOpen && unchanged(this)
      ensures outcome == Capture(name, Read(videoCapture.value, delivered), detect, resize)
      ensures !outcome.Stored? ==> db.table == old(db.table)
      ensures outcome.Stored? ==> db.table.value == old(db.table.value) + [outcome.row]
    {
      outcome := Enrollment.CaptureFace(db, name, Read(videoCapture.value, delivered), detect, resize);
    }

    /** setup_recognition: open the camera, take the snapshot of the table
        and show the waiting text. */
    method SetupRecognition()
      requires Valid() && db.isOpen
      modifies this`videoCapture, this`knownFaces, this`knownNames, this`infoLabel
      ensures Valid() && videoCapture == Some(DefaultCamera)
      ensures LoadedFrom(knownFaces, knownNames, db.table.value)
      ensures infoLabel == Waiting
    {
      videoCapture := Some(DefaultCamera);
      var loaded := LoadKnownFaces(db);
      knownFaces, knownNames := loaded.value.0, loaded.value.1;
      infoLabel := Waiting;
    }

    /** update_recognition: with no handle, do nothing and stop. Otherwise
        reschedule, and if a frame was read, mirror it and match every
        detected face against the snapshot, the label ending on the last
        one. Returns the names drawn, in detection order. */
    method UpdateRecognition(delivered: Option<Grid>) returns (rescheduled: bool, labels: seq<string>)
      requires Valid()
      modifies this`infoLabel
      ensures rescheduled <==> videoCapture.Some?
      ensures videoCapture.None? || Read(videoCapture.value, delivered).None? ==>
                labels == [] && infoLabel == old(infoLabel)
      ensures videoCapture.Some? && Read(videoCapture.value, delivered).Some? ==>
                var gray := Mirror(Read(videoCapture.value, delivered).value);
                var regions := detect(gray);
                labels == FrameNames(gray, regions, resize, knownFaces, knownNames, Uint8Distance) &&
                (|regions| == 0 ==> infoLabel == old(infoLabel)) &&
                (|regions| > 0 ==> infoLabel == Recognized(labels[|regions| - 1]))
    {
      rescheduled, labels := false, [];
      if videoCapture.Some? {
        var frame := Read(videoCapture.value, delivered);
        if frame.Some? {
          var gray := Mirror(frame.value);
          var faces := detect(gray);
          labels, infoLabel := ProcessFrame(gray, faces, resize, knownFaces, knownNames, Uint8Distance, infoLabel);
        }
        rescheduled := true;
      }
    }

    /** return_to_main: drop the camera handle, if any. Releasing the dropped
        camera is not observable in the model, which holds no other handle. */
    method ReturnToMain()
      modifies this`videoCapture
      ensures videoCapture.None?
    {
      if videoCapture.Some? {
        videoCapture := None;
      }
    }

    /** quit: release the camera, if any (the handle is kept, released), and
        close the connection. */
    method Quit()
      requires Valid()
      modifies this`videoCapture, db
      ensures !db.isOpen && db.table == old(db.table) && Valid()
      ensures videoCapture == if old(videoCapture).Some? then Some(Release(old(videoCapture).value)) else None
    {
      if videoCapture.Some? {
        videoCapture := Some(Release(videoCapture.value));
      }
      db.Close();
    }
  }

  /** Going back to the menu stops both refresh loops: the next tick of
      either does nothing and does not reschedule. */
  method ReturnStopsRefresh(app: FacialRecognitionDemo, delivered: Option<Grid>)
    returns (rescheduled: bool, shown: Option<Grid>, again: bool, labels: seq<string>)
    requires app.Valid()
    modifies app`videoCapture, app`infoLabel
    ensures app.videoCapture.None? && app.infoLabel == old(app.infoLabel)
    ensures !rescheduled && shown.None?
    ensures !again && labels == []
  {
    app.ReturnToMain();
    rescheduled, shown := app.UpdateVideo(delivered);
    again, labels := app.UpdateRecognition(delivered);
  }

  /** A face enrolled after recognition was entered is missing from the
      snapshot until recognition is entered again, and is its last entry
      after that. */
  method EnrollThenRecognise(app: FacialRecognitionDemo, name: string, delivered: Option<Grid>)
    returns (outcome: CaptureOutcome, facesBefore: seq<Face>, namesBefore: seq<string>,
             facesWhileEnrolling: seq<Face>, namesWhileEnrolling: seq<string>)
    requires app.Valid() && app.db.isOpen
    modifies app`videoCapture, app`knownFaces, app`knownNames, app`infoLabel, app.db
    ensures app.Valid() && app.db.isOpen
    ensures facesWhileEnrolling == facesBefore && namesWhileEnrolling == namesBefore
    ensures outcome.Stored? ==>
              app.knownFaces == facesBefore + [outcome.row.face] && app.knownNames == namesBefore + [name]
    ensures !outcome.Stored? ==> app.knownFaces == facesBefore && app.knownNames == namesBefore
  {
    app.SetupRecognition();
    facesBefore, namesBefore := app.knownFaces, app.knownNames;
    ghost var rows := app.db.table.value;
    app.ReturnToMain();
    app.SetupAddUser();
    outcome := app.CaptureFace(name, delivered);
    facesWhileEnrolling, namesWhileEnrolling := app.knownFaces, app.knownNames;
    app.ReturnToMain();
    app.SetupRecognition();
    if outcome.Stored? {
      assert app.db.table.value == rows + [outcome.row];
      assert app.knownFaces == facesBefore + [outcome.row.face];
      assert app.knownNames == namesBefore + [name];
    } else {
      assert app.knownFaces == facesBefore && app.knownNames == namesBefore;
    }
  }
}
