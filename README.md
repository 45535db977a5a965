# Face recognition demo: a Dafny model

This project models the logic shared by the three Tkinter applications of a
small desktop face-recognition demo:

- `getUserInfo.py` is the data collector. It stores a name and one face per
  press of the capture button.
- `getRecognised.py` is the recognition window. It names every face in the
  camera feed after the nearest stored face.
- `demo.py` combines both behind a main menu.

The camera, the Haar-cascade detector, `cv2.resize`, the PNG codec and SQLite
are left abstract. The model covers what remains:

- **Enrollment guards and the store append.** An empty name or an empty
  detection list aborts with an error dialog. A failed read leaves no frame,
  and converting it to grey raises before the `INSERT`, with no dialog, so
  nothing is stored. Otherwise only the first detection is cropped (`gray[y:y+h, x:x+w]`), resized to 128 x 128 and appended as one
  `(name, face)` row (`Enrollment`).
- **The faces table.** `CREATE TABLE IF NOT EXISTS`, `INSERT`, `SELECT` and
  `close` act on the table, kept as a sequence of rows (`FaceStore.Database`).
  `load_known_faces` turns the rows into two parallel lists in row order
  (`FaceStore.LoadKnownFaces`).
- **The nearest-neighbour matcher.** It is a linear scan that starts from
  `"Desconocido"` at infinite distance. It takes a name only on a strictly
  smaller distance, and there is no threshold (`Recognition.Recognise`,
  specified by `Recognition.Nearest` and `Recognition.FirstMin`). The
  per-frame loop matches every detected region and leaves the status label on
  the last one (`Recognition.ProcessFrame`).
- **The distance.** It is `np.linalg.norm(a.flatten() - b.flatten())` on
  `uint8` arrays, modelled squared. `sqrt` is monotone, so the ranking is the
  same. Each pixel difference wraps modulo 256 (`Distance.Uint8Distance`).
- **The window state.** `demo.py` holds `video_capture` only between entering
  a screen and `return_to_main`. Its refresh loops do work and reschedule only
  while the handle is held. The recognition screen matches against a snapshot
  of the table taken when it is entered (`Demo.FacialRecognitionDemo`).
  `getRecognised.py` loads the known faces once, into constant fields
  (`Recognised.FacialRecognitionSystem`).

Abstract inputs:

- The detector (`detectMultiScale(gray, 1.3, 5)`) and the resize are
  constant function-valued fields of each application class. The resize
  always yields a 128 x 128 `Face`.
- A camera read is a parameter `delivered: Option<Grid>`, where `None` means
  `ret` was False. A released handle delivers nothing (`Video.Read`).
- The grey conversion is not modelled: a frame is already a grey `Grid`.
  Recognition mirrors the frame (`cv2.flip(frame, 1)`) before detecting.
  Enrollment crops the frame as read, without mirroring, as `getUserInfo.py`
  and `demo.py` do.
  So stored faces are mirror images of the faces recognition crops.

## Model

| member | source | states |
|---|---|---|
| Image.Crop | getUserInfo.py:74-75 | the crop of region (x, y, w, h) holds pixel gray[y+i][x+j] at (i, j), has h rows when the region fits the frame vertically and w columns on each row that is long enough, and otherwise has exactly as many rows as the numpy slice gray[y:y+h] and, on each row, as many pixels as the slice row[x:x+w], both bounds clamped to the length |
| Image.Mirror | getRecognised.py:53 | the horizontal flip keeps the shape and puts pixel g[i][len-1-j] at (i, j) |
| Image.MirrorTwice | demo.py:143 | flipping a frame twice gives it back |
| Image.FlattenInjective | getRecognised.py:66 | flattening two grids of the same shape gives equal vectors only when the grids are equal |
| Distance.Uint8Sub | getRecognised.py:66 | the uint8 difference of two equally long vectors is the byte vector that, added back to the subtrahend modulo 256, gives the minuend |
| Distance.SqNormZero | getRecognised.py:66 | the squared norm is 0 if and only if every component is 0 |
| Distance.Uint8DistanceZero | getRecognised.py:66 | despite the wrap-around, the distance between two faces is 0 if and only if they are identical |
| Distance.Uint8DistanceUniform | demo.py:155 | between uniform faces of grey levels c and e the distance is 16384 * ((c - e) mod 256)^2 |
| Distance.Uint8DistanceAsymmetric | getRecognised.py:66 | the distance is not symmetric: between uniform faces whose levels differ by anything but 0 or 128, the two directions give different distances |
| Distance.SignedDistanceZero | demo.py:155 | with signed differences, the distance is 0 if and only if the faces are identical |
| Distance.SignedDistanceSymmetric | getRecognised.py:66 | with signed differences, the distance does not depend on which face is the query |
| Recognition.FirstNearestUnique | getRecognised.py:67-69 | at most one index is the first minimum (no smaller entry anywhere, only larger entries before it) |
| Recognition.FirstMin | getRecognised.py:62-69 | the index where the strict-`<` scan settles is the first index of a minimum distance |
| Recognition.Nearest | getRecognised.py:62-69 | with no known faces the name is "Desconocido" |
| Recognition.NearestIsFirstNearest | getRecognised.py:62-69 | with known faces, the name is the one at an index where no distance is smaller and every earlier distance is larger |
| Recognition.NearestAt | getRecognised.py:65-69 | conversely, whenever index i is the first minimum, the name is known_names[i] |
| Recognition.ExactDuplicateWins | getRecognised.py:65-69 | a query identical to a known face is named after the first known face equal to it |
| Recognition.Recognise | demo.py:151-158 | the matching loop returns Nearest's name: "Desconocido" for an empty known set; otherwise some known name, never "Desconocido" unless a known face was enrolled under that name |
| Recognition.MatchRegion | getRecognised.py:58-69 | a region's name is the nearest name of its crop, resized to 128 x 128 |
| Recognition.FrameNames | getRecognised.py:57-69 | one name per detected region, in detection order, each the nearest name of that region's resized crop |
| Recognition.ProcessFrame | getRecognised.py:57-75 | the region loop returns exactly the frame's names; the status shows the last region's name and is unchanged with no region |
| Recognition.NothingKnownAllUnknown | getRecognised.py:62-69 | with nothing known, every region of a frame is named "Desconocido" |
| Recognition.TwoFaceNearest | getRecognised.py:62-69 | with two known faces, the query gets the second name only when strictly closer to the second face |
| Recognition.WrapAroundPicksFartherFace | getRecognised.py:66 | as written, with Alice all 0 and Bob all 255, a query all 254 is named Alice |
| Recognition.SignedDistancePicksNearerFace | getRecognised.py:66 | with signed differences, a uniform query is named after the uniform face whose grey level is nearer, and after the first one on a tie |
| FaceStore.LoadedFromZip | getRecognised.py:39-48 | the two loaded lists are the rows' columns exactly when they have equal length and zipping them back gives the rows |
| FaceStore.LoadKnownFaces | demo.py:123-137 | with no table the load fails; otherwise it returns two lists of the row count's length, known_faces[i] and known_names[i] taken from row i |
| FaceStore.Database.Connect | demo.py:17 | a new connection is open and sees the table the file already holds, if any |
| FaceStore.Database.CreateTable | getUserInfo.py:41-47 | afterwards the table exists; an existing table keeps its rows, and a new one is empty |
| FaceStore.Database.Insert | getUserInfo.py:79-81 | the row is appended after all existing rows |
| FaceStore.Database.SelectAll | getRecognised.py:35-37 | the query returns the table's rows in order, or fails when there is no table |
| FaceStore.Database.Close | getUserInfo.py:87 | the connection is closed |
| Enrollment.Capture | getUserInfo.py:60-77 | an empty name aborts; a row is stored if and only if the name is non-empty, a frame was read and a face was detected; the row is (name, resize(crop of the first detection)) |
| Enrollment.CaptureUsesFirstRegionOnly | getUserInfo.py:74 | detections after the first one never change the outcome |
| Enrollment.CaptureFace | getUserInfo.py:60-81 | a failed guard leaves the table unchanged; success appends exactly the captured row after the existing rows |
| UserInfo.FacialDataCollector.constructor | getUserInfo.py:15-19 | the camera is open and the table exists with any earlier rows kept |
| UserInfo.FacialDataCollector.CreateTable | getUserInfo.py:41-47 | calling create_table again leaves the table and its rows unchanged |
| UserInfo.FacialDataCollector.CaptureFace | getUserInfo.py:60-83 | the capture outcome for the frame as read (not mirrored); the table is unchanged on abort and gains exactly one row on success |
| UserInfo.FacialDataCollector.Quit | getUserInfo.py:85-88 | the camera is released and the connection closed, rows untouched |
| Recognised.FacialRecognitionSystem.constructor | getRecognised.py:14-18 | the known lists are loaded from the table in row order, the camera is open and the label shows the waiting text |
| Recognised.FacialRecognitionSystem.UpdateVideo | getRecognised.py:50-84 | no frame: nothing drawn, label unchanged; otherwise each face detected in the mirrored frame gets its nearest name, and the label ends on the last one |
| Recognised.FacialRecognitionSystem.Quit | getRecognised.py:86-89 | the camera is released and the connection closed |
| Demo.FacialRecognitionDemo.constructor | demo.py:14-20 | main menu: no camera handle, empty snapshot, table created if missing |
| Demo.FacialRecognitionDemo.SetupAddUser | demo.py:49-51 | the enrollment screen holds an open camera handle |
| Demo.FacialRecognitionDemo.UpdateVideo | demo.py:70-80 | reschedules if and only if a handle is held; shows the mirrored frame when one was read |
| Demo.FacialRecognitionDemo.CaptureFace | demo.py:82-105 | as the data collector's capture; the recognition snapshot is left as it was |
| Demo.FacialRecognitionDemo.SetupRecognition | demo.py:107-121 | holds an open handle and a snapshot equal to the table's columns in row order; label shows the waiting text |
| Demo.FacialRecognitionDemo.UpdateRecognition | demo.py:139-171 | reschedules if and only if a handle is held; without a handle or a frame nothing is drawn and the label is kept; otherwise each face in the mirrored frame gets its nearest name from the snapshot and the label ends on the last one |
| Demo.FacialRecognitionDemo.ReturnToMain | demo.py:173-177 | the handle is dropped |
| Demo.FacialRecognitionDemo.Quit | demo.py:179-183 | a held handle is released but kept; the connection is closed with the rows untouched |
| Demo.ReturnStopsRefresh | demo.py:139-177 | after return_to_main, the next tick of either refresh loop shows no frame, draws no name, keeps the label and does not reschedule |
| Demo.EnrollThenRecognise | demo.py:82-137 | a face stored after recognition was entered is absent from both snapshot lists until recognition is re-entered; then the stored face and its name are the last entries; a failed capture leaves both lists as they were |

## Left out

- Tkinter widgets, layout, message boxes and the `after(10, …)` timer are left out. A refresh is one method call that returns whether it would reschedule.
- The frame annotation is left out: `cv2.rectangle`, `putText` and the colour conversions for display. The names that would be drawn are returned instead.
- The camera device, `cvtColor` to grey and `detectMultiScale` are inputs. The detector is a function-valued field whose regions have non-negative coordinates, so numpy's negative-index slicing is not modelled.
- `cv2.resize` is a function-valued field that always returns a 128 x 128 face. Its interpolation is not modelled, and neither is the exception it raises on an empty crop.
- PNG `imencode`/`imdecode` are not modelled: a row holds the face grid itself, which assumes a lossless round trip. A blob that fails to decode is outside the model.
- The SQLite connection is a single `Database` object: commit durability, the autoincrement `id` and concurrent writers are not modelled. `SELECT` without `ORDER BY` is modelled as returning rows in insertion order.
- `sqrt` is left out. Distances are squared norms, which rank faces the same way.
- Recognised.FacialRecognitionSystem.constructor: requires the faces table to exist. When it does not, the `SELECT` in `getRecognised.py` raises inside `__init__` and the window is never built.
- `update_video` of `getUserInfo.py` only displays frames, so it is not modelled.
- A timer tick can stay pending from a screen that was left. It then runs on the next screen's widgets. This interleaving is not modelled.

## Findings

| source | as written | input that shows it | evidently intended | confidence | as-written member | corrected member |
|---|---|---|---|---|---|---|
| getRecognised.py:66 | `face_resized.flatten() - known_face.flatten()` subtracts `uint8` arrays, so each pixel difference wraps modulo 256 before the norm | known faces Alice all 0 and Bob all 255, query all 254: the distance to Bob counts 255 per pixel and the distance to Alice 254, so the query is named Alice | the Euclidean distance between the images, with signed differences, names the query Bob | high; not executed | Recognition.WrapAroundPicksFartherFace | Recognition.SignedDistancePicksNearerFace |

The same subtraction appears in `demo.py:155`. `Distance.Uint8DistanceAsymmetric` shows the general effect: a face one grey level below another is 255 levels from it, and one level above is 1 level from it.

The corrected metric is `Distance.SignedDistance`. It is proved symmetric, zero exactly on identical faces, and it picks the nearer face in the two-face scenario. The matcher (`Recognition.Nearest`, `Recognise`, `ProcessFrame`) takes the metric as a parameter, and every general lemma about it (`FirstNearestUnique`, `NearestIsFirstNearest`, `NearestAt`, `NothingKnownAllUnknown`, `TwoFaceNearest`) holds for any metric. Three lemmas fix a metric. `Recognition.ExactDuplicateWins` and `Recognition.WrapAroundPicksFartherFace` are stated for `Distance.Uint8Distance`. `Recognition.SignedDistancePicksNearerFace` is stated for `Distance.SignedDistance`. The application classes pass the as-written `Distance.Uint8Distance`, because they model the programs as they behave.
