/** getRecognised.py: the recognition window. The known faces are loaded
    once, when the window is built, and every refresh matches each face
    detected in the mirrored frame against them. */
module Recognised {
  import opened Wrappers
  import opened Image
  import opened Distance
  import opened FaceStore
  import opened Video
  import opened Recognition

  class FacialRecognitionSystem {
    const db: Database
    /** face_cascade.detectMultiScale(gray, 1.3, 5). */
    const detect: Grid -> seq<Region>
    /** cv2.resize(face, (128, 128)). */
    const resize: Grid -> Face
    /** Loaded in __init__ and never assigned again. */
    const knownFaces: seq<Face>
    const knownNames: seq<string>
    var videoCapture: Camera
    /** What info_label shows. */
    var infoLabel: Status

    /** The two known lists are parallel. */
    ghost predicate Valid()
      reads this
    {
      |knownFaces| == |knownNames|
    }

    /** __init__: open the camera, connect, load the known faces and show
        the waiting text. The table must exist: SELECT on a missing table
        raises and the window is never built. */
    constructor(db: Database, detect: Grid -> seq<Region>, resize: Grid -> Face)
      requires db.isOpen && db.table.Some?
      ensures this.db == db && this.detect == detect && this.resize == resize
      ensures Valid() && LoadedFrom(knownFaces, knownNames, db.table.value)
      ensures videoCapture == DefaultCamera && infoLabel == Waiting
    {
      var loaded := LoadKnownFaces(db);
      this.db := db;
      this.detect := detect;
      this.resize := resize;
      knownFaces := loaded.value.0;
      knownNames := loaded.value.1;
      videoCapture := DefaultCamera;
      infoLabel := Waiting;
    }

    /** update_video: read a frame; if there is one, mirror it, detect the
        faces and match each against the known faces, drawing the matched
        name on it and writing it to the status label. Returns the names
        drawn, in detection order. */
    method UpdateVideo(delivered: Option<Grid>) returns (labels: seq<string>)
      requires Valid()
      modifies this`infoLabel
      ensures Read(videoCapture, delivered).None? ==> labels == [] && infoLabel == old(infoLabel)
      ensures Read(videoCapture, delivered).Some? ==>
                var gray := Mirror(Read(videoCapture, delivered).value);
                var regions := detect(gray);
                labels == FrameNames(gray, regions, resize, knownFaces, knownNames, Uint8Distance) &&
                (|regions| == 0 ==> infoLabel == old(infoLabel)) &&
                (|regions| > 0 ==> infoLabel == Recognized(labels[|regions| - 1]))
    {
      var frame := Read(videoCapture, delivered);
      labels := [];
      if frame.Some? {
        var gray := Mirror(frame.value);
        var faces := detect(gray);
        labels, infoLabel := ProcessFrame(gray, faces, resize, knownFaces, knownNames, Uint8Distance, infoLabel);
      }
    }

    /** quit: release the camera and close the connection. */
    method Quit()
      modifies this`videoCapture, db
      ensures videoCapture == Release(old(videoCapture)) && !db.isOpen
      ensures db.table == old(db.table)
    {
      videoCapture := Release(videoCapture);
      db.Close();
    }
  }
}
