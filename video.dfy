/** The camera handle (cv2.VideoCapture(0)) as far as the pipelines observe
    it: it delivers a frame or none, and after release it delivers none. */
module Video {
  import opened Wrappers
  import opened Image

  /** A capture handle on a device; `released` once release() has run. */
  datatype Camera = Camera(device: nat, released: bool)

  /** cv2.VideoCapture(0): the default device, open. */
  const DefaultCamera: Camera := Camera(0, false)

  /** video_capture.read(): `delivered` is what the device has to offer
      (None when ret is False); a released handle offers nothing. The colour
      conversion to grey is not modelled, so a frame is already grey. */
  function Read(camera: Camera, delivered: Option<Grid>): Option<Grid>
  {
    if camera.released then None else delivered
  }

  /** video_capture.release(). */
  function Release(camera: Camera): Camera
  {
    camera.(released := true)
  }
}
