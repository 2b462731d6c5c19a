/** `anpr_system`: fetch the registered plate once, refuse to start without one, then run the
    frame loop until a grant, the end of the frame stream, or an exception. Capture, display,
    the two-second dwell and the 'q' key are outside the model; cancelling is the stream simply
    ending. */
module Session {
  import opened Wrappers
  import opened PlateText
  import opened Booking
  import opened Stability
  import Corners
  import Localizer

  /** What `get_inner_plate` and the OCR step make of one frame: no contour at all (the triple
      `(None, frame, None)`), a largest contour that does not approximate to four vertices
      (`(None, None, frame)`), or a rectified plate and the OCR engine's raw text for it
      (`FrameOf` makes one from the triple). */
  datatype FrameResult = NoContour | NotQuad | Ocr(text: string)

  /** What one frame yields to the loop, from the triple `get_inner_plate` returned and the OCR
      engine `ocr` run on the cropped plate: the frame is contour-free exactly when both the plate
      and the annotated frame are missing, and it is read exactly when there is a plate. */
  function FrameOf<P>(loc: Localizer.Located<P>, ocr: Localizer.Raster<P> -> string): (f: FrameResult)
    ensures f == NoContour <==> loc.inner.None? && loc.debug.None?
    ensures f.Ocr? <==> loc.inner.Some?
    ensures f.Ocr? ==> f.text == ocr(loc.inner.value)
  {
    if loc.inner.Some? then Ocr(ocr(loc.inner.value))
    else if loc.debug.None? then NoContour
    else NotQuad
  }

  /** For the triples `get_inner_plate` returns, a frame is contour-free exactly when no contour
      was found, and exactly when `debug_frame` is `None`, the value `cv2.imshow` then fails on. */
  lemma NoContourIsMissingDebugFrame<P>(frame: Localizer.Raster<P>, approx: Option<seq<Corners.Point>>,
                                        edgeLength: (Corners.Point, Corners.Point) -> nat,
                                        warp: (Corners.Quad, Localizer.Size) -> Localizer.Raster<P>,
                                        ocr: Localizer.Raster<P> -> string)
    requires forall q, s :: warp(q, s).Valid() && warp(q, s).width == Localizer.WarpSize(s, frame).width &&
                            warp(q, s).height == Localizer.WarpSize(s, frame).height
    ensures var loc := Localizer.GetInnerPlate(frame, approx, edgeLength, warp);
            (FrameOf(loc, ocr) == NoContour <==> approx == None) &&
            (FrameOf(loc, ocr) == NoContour <==> loc.debug.None?)
  {
  }

  /** How the session ends. `Crashed(i)`: frame `i` raised an exception, so the loop ends there
      without a grant. */
  datatype Outcome = NoBooking | AccessGranted(frame: nat) | StreamEnded | Crashed(frame: nat)

  /** The plate read from one frame (`detected_plate`): "" when no plate region was found,
      otherwise the OCR text as `read_plate_chars` sanitises it. */
  function Detected(f: FrameResult): (r: string)
    ensures IsPlateText(r)
    ensures !f.Ocr? ==> r == ""
    ensures f.Ocr? ==> r == Sanitise(f.text)
  {
    match f
    case Ocr(text) => Sanitise(text)
    case _ => ""
  }

  /** The readings of successive frames: one per frame, each plate text, and "" for every frame
      without a plate region. */
  function Readings(frames: seq<FrameResult>): (r: seq<string>)
    ensures |r| == |frames|
    ensures forall i :: 0 <= i < |frames| ==> r[i] == Detected(frames[i])
    ensures forall i :: 0 <= i < |r| ==> IsPlateText(r[i])
    ensures forall i :: 0 <= i < |frames| && !frames[i].Ocr? ==> r[i] == ""
  {
    seq(|frames|, i requires 0 <= i < |frames| => Detected(frames[i]))
  }

  /** The plate the session compares against, or `None` when `not registered_plate` holds. */
  function Registered(bookings: map<string, Record>): (r: Option<string>)
    ensures r.Some? ==> IsPlateText(r.value)
    ensures r == None <==> LatestBookingPlate(bookings) in [None, Some("")]
    ensures r.Some? ==> r.value == Sanitise(LatestBookingPlate(bookings).value)
  {
    match LatestBookingPlate(bookings)
    case None => None
    case Some(p) => if p == "" then None else Some(Sanitise(p))
  }

  /** The plate compared is the raw plate of the latest booking, upper-cased and stripped of
      every character outside `A-Z0-9`; there is none exactly when that plate is "". The
      upper-casing `get_latest_booking_plate` already applied changes nothing here. */
  lemma RegisteredIsSanitisedLatestPlate(bookings: map<string, Record>, k: string)
    requires IsGreatest(k, bookings.Keys)
    ensures Registered(bookings) == None <==> PlateOf(bookings[k]) == ""
    ensures Registered(bookings).Some? ==> Registered(bookings).value == Sanitise(PlateOf(bookings[k]))
  {
    var p := PlateOf(bookings[k]);
    assert Upper(Upper(p)) == Upper(p);
  }

  /** A frame grants access exactly when `get_inner_plate` gave a plate, the OCR text of that
      plate sanitises to the registered plate, and the registered plate is not "". */
  lemma FrameGrantsExactlyOnMatch<P>(loc: Localizer.Located<P>, ocr: Localizer.Raster<P> -> string,
                                     registered: string)
    ensures Grants(Detected(FrameOf(loc, ocr)), registered) <==>
              loc.inner.Some? && Sanitise(ocr(loc.inner.value)) == registered != ""
  {
  }

  /** The index of the first frame without any contour, if any. */
  function FirstNoContour(frames: seq<FrameResult>): (r: Option<nat>)
    ensures r.Some? ==> r.value < |frames| && frames[r.value] == NoContour &&
                        forall j :: 0 <= j < r.value ==> frames[j] != NoContour
    ensures r == None ==> forall j :: 0 <= j < |frames| ==> frames[j] != NoContour
    decreases |frames|
  {
    if frames == [] then None
    else if frames[0] == NoContour then Some(0)
    else match FirstNoContour(frames[1..])
      case None => None
      case Some(i) => Some(i + 1)
  }

  /** The session of a registered plate as evidently intended: every frame without a plate region
      is a frame without a detection, and the loop ends at the first grant or when the frames run
      out. Gives the outcome and the number of frames read. */
  function Intended(registered: string, frames: seq<FrameResult>): (r: (Outcome, nat))
    ensures r.0.AccessGranted? || r.0 == StreamEnded
    ensures r.0.AccessGranted? ==> r.1 == r.0.frame + 1 <= |frames|
    ensures r.0 == StreamEnded ==> r.1 == |frames|
  {
    match FirstGrant(Readings(frames), registered)
    case Some(i) => (AccessGranted(i), i + 1)
    case None => (StreamEnded, |frames|)
  }

  /** The session of a registered plate as written: a frame without any contour leaves
      `debug_frame` as `None`, and `cv2.imshow` of `None` raises, so the intended session is cut
      short at the first such frame unless a grant came earlier. */
  function AsWritten(registered: string, frames: seq<FrameResult>): (r: (Outcome, nat))
    ensures r.0 != NoBooking && r.1 <= |frames|
    ensures r.0.Crashed? ==> r.0.frame < |frames| && frames[r.0.frame] == NoContour && r.1 == r.0.frame + 1
  {
    var intended := Intended(registered, frames);
    match FirstNoContour(frames)
    case Some(k) =>
      if intended.0.AccessGranted? && intended.0.frame < k then intended else (Crashed(k), k + 1)
    case None => intended
  }

  /** The session as written ends at frame `i` with a grant when that frame grants and no
      earlier frame granted or lacked a contour. */
  lemma AsWrittenGrantsAt(registered: string, frames: seq<FrameResult>, i: nat)
    requires i < |frames| && Grants(Detected(frames[i]), registered)
    requires forall j :: 0 <= j < i ==> frames[j] != NoContour && !Grants(Detected(frames[j]), registered)
    ensures AsWritten(registered, frames) == (AccessGranted(i), i + 1)
  {
    FirstGrantAt(Readings(frames), registered, i);
    assert frames[i] != NoContour;
  }

  /** Frame `i` lacks a contour and neither it nor an earlier frame granted or lacked a contour:
      the session as written crashes there. */
  lemma AsWrittenCrashesAt(registered: string, frames: seq<FrameResult>, i: nat)
    requires i < |frames| && frames[i] == NoContour
    requires forall j :: 0 <= j < i ==> frames[j] != NoContour && !Grants(Detected(frames[j]), registered)
    ensures AsWritten(registered, frames) == (Crashed(i), i + 1)
  {
    FirstGrantSpec(Readings(frames), registered);
  }

  /** No frame granted or lacked a contour: the session as written reads the whole stream. */
  lemma AsWrittenEndsWithStream(registered: string, frames: seq<FrameResult>)
    requires forall j :: 0 <= j < |frames| ==> frames[j] != NoContour && !Grants(Detected(frames[j]), registered)
    ensures AsWritten(registered, frames) == (StreamEnded, |frames|)
  {
    FirstGrantSpec(Readings(frames), registered);
  }

  /** The frame loop of `anpr_system` as written, for the registered plate `registered`:
      `frames[i]` is what frame `i` yields to the OCR step. Returns how the loop ended and how
      many frames it read. The streak the tracker keeps is described by `Stability.Run`; only the
      decisions matter here. */
  method FrameLoop(registered: string, frames: seq<FrameResult>) returns (outcome: Outcome, framesRead: nat)
    ensures (outcome, framesRead) == AsWritten(registered, frames)
  {
    var tracker := new Tracker();
    var i := 0;
    while i < |frames|
      invariant 0 <= i <= |frames|
      invariant tracker.Valid()
      invariant forall j :: 0 <= j < i ==> frames[j] != NoContour && !Grants(Detected(frames[j]), registered)
    {
      var reading := Detected(frames[i]);
      var d := tracker.Step(reading, registered);
      if d == Granted {
        AsWrittenGrantsAt(registered, frames, i);
        return AccessGranted(i), i + 1;
      }
      if frames[i] == NoContour {
        AsWrittenCrashesAt(registered, frames, i);
        return Crashed(i), i + 1;
      }
      assert frames[i] != NoContour && !Grants(reading, registered);
      i := i + 1;
    }
    AsWrittenEndsWithStream(registered, frames);
    return StreamEnded, |frames|;
  }

  /** One session as written: no booking, or one whose plate is "", ends it before any frame is
      read; otherwise the frame loop runs for the sanitised plate. */
  method AnprSystem(bookings: map<string, Record>, frames: seq<FrameResult>)
    returns (outcome: Outcome, framesRead: nat)
    ensures Registered(bookings) == None ==> outcome == NoBooking && framesRead == 0
    ensures Registered(bookings).Some? ==>
              (outcome, framesRead) == AsWritten(Registered(bookings).value, frames)
  {
    var registered := Registered(bookings);
    if registered == None {
      return NoBooking, 0;
    }
    outcome, framesRead := FrameLoop(registered.value, frames);
  }

  /** The corrected session: a frame without any contour is a frame without a detection. */
  method AnprSystemIntended(bookings: map<string, Record>, frames: seq<FrameResult>)
    returns (outcome: Outcome, framesRead: nat)
    ensures Registered(bookings) == None ==> outcome == NoBooking && framesRead == 0
    ensures Registered(bookings).Some? ==>
              (outcome, framesRead) == Intended(Registered(bookings).value, frames)
  {
    var registered := Registered(bookings);
    if registered == None {
      return NoBooking, 0;
    }
    var grantAt, _ := Run(Readings(frames), registered.value);
    match grantAt
    case Some(i) =>
      outcome, framesRead := AccessGranted(i), i + 1;
    case None =>
      outcome, framesRead := StreamEnded, |frames|;
  }

  /** The intended session ends at the first frame whose sanitised OCR text is the non-empty
      registered plate, having read up to it, or reads every frame when there is none. */
  lemma {:induction false} IntendedEndsAtFirstMatch(registered: string, frames: seq<FrameResult>)
    ensures var (outcome, n) := Intended(registered, frames);
            (outcome.AccessGranted? && outcome.frame < |frames| && n == outcome.frame + 1 &&
             frames[outcome.frame].Ocr? && Sanitise(frames[outcome.frame].text) == registered != "" &&
             forall j :: 0 <= j < outcome.frame ==> Detected(frames[j]) != registered || Detected(frames[j]) == "") ||
            (outcome == StreamEnded && n == |frames| &&
             forall j :: 0 <= j < |frames| ==> Detected(frames[j]) != registered || Detected(frames[j]) == "")
  {
    FirstGrantSpec(Readings(frames), registered);
  }

  /** The session as written crashes exactly at the first frame without any contour, and only
      when no frame up to it granted access. */
  lemma {:induction false} CrashIsFirstContourFreeFrame(registered: string, frames: seq<FrameResult>, k: nat)
    ensures AsWritten(registered, frames).0 == Crashed(k) <==>
              k < |frames| && frames[k] == NoContour &&
              (forall j :: 0 <= j < k ==> frames[j] != NoContour) &&
              (forall j :: 0 <= j < k ==> !Grants(Detected(frames[j]), registered))
  {
    FirstGrantSpec(Readings(frames), registered);
  }

  /** Without a contour-free frame the session as written is the intended one. */
  lemma SessionsAgreeWithoutContourFreeFrames(registered: string, frames: seq<FrameResult>)
    requires forall j :: 0 <= j < |frames| ==> frames[j] != NoContour
    ensures AsWritten(registered, frames) == Intended(registered, frames)
  {
  }

  /** A first frame without any contour ends the session as written before the matching second
      frame is read; the intended session grants at that second frame. */
  lemma ContourFreeFrameEndsSession()
    ensures AsWritten("KA01", [NoContour, Ocr("KA01")]) == (Crashed(0), 1)
    ensures Intended("KA01", [NoContour, Ocr("KA01")]) == (AccessGranted(1), 2)
  {
    var frames := [NoContour, Ocr("KA01")];
    SanitiseFixedPoint("KA01");
    assert Readings(frames) == ["", "KA01"];
    assert Readings(frames)[1..] == ["KA01"];
  }

  /** A granting frame had a plate region, its sanitised text equals the registered plate, which
      is not empty, and no earlier frame's reading did. */
  lemma GrantMeansMatch(frames: seq<FrameResult>, registered: string, i: nat)
    requires FirstGrant(Readings(frames), registered) == Some(i)
    ensures i < |frames| && frames[i].Ocr?
    ensures Sanitise(frames[i].text) == registered != ""
    ensures forall j :: 0 <= j < i ==> Detected(frames[j]) != registered || Detected(frames[j]) == ""
  {
    FirstGrantSpec(Readings(frames), registered);
  }

  /** A booking whose plate is, say, "--" passes the emptiness check but sanitises to "", so no
      frame can ever grant access. */
  lemma PunctuationPlateNeverGrants(frames: seq<FrameResult>)
    ensures Registered(map["k" := map["plate" := "--"]]) == Some("")
    ensures FirstGrant(Readings(frames), "") == None
  {
    var m := map["k" := map["plate" := "--"]];
    assert IsGreatest("k", m.Keys) by {
      assert m.Keys == {"k"};
    }
    assert Upper("--") == "--";
    assert Sanitise("--") == "";
    EmptyRegisteredNeverGrants(Readings(frames));
  }
}
