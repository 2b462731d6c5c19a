/** The streak bookkeeping and the grant decision of the frame loop in `anpr_system`. */
module Stability {
  import opened Wrappers

  /** The values of `last_detected` and `stable_count`. */
  datatype Streak = Streak(lastDetected: string, stableCount: int)

  /** `stable_count = 0`, `last_detected = ""` before the first frame. */
  const Initial := Streak("", 0)

  /** What one frame shows: no text read, "ACCESS DENIED" or "ACCESS GRANTED". */
  datatype Decision = NoDetection | Denied | Granted

  /** The invariant of the two loop variables. */
  predicate WellFormed(s: Streak) {
    s.stableCount >= 0 && (s.stableCount == 0 <==> s.lastDetected == "")
  }

  /** The update of one frame's reading; an empty reading changes nothing, any other becomes
      `last_detected`, and the update keeps the two variables well formed. */
  function Next(s: Streak, reading: string): (r: Streak)
    ensures reading == "" ==> r == s
    ensures reading != "" ==> r.lastDetected == reading
    ensures reading != "" && WellFormed(s) ==> r.stableCount >= 1
    ensures WellFormed(s) ==> WellFormed(r)
  {
    if reading == "" then s
    else if reading == s.lastDetected then s.(stableCount := s.stableCount + 1)
    else Streak(reading, 1)
  }

  /** The streak after the given readings, starting from `Initial`: always well formed. */
  function Replay(readings: seq<string>): (r: Streak)
    ensures WellFormed(r)
    decreases |readings|
  {
    if readings == [] then Initial
    else Next(Replay(readings[..|readings| - 1]), readings[|readings| - 1])
  }

  /** A reading grants access when it is non-empty and equals the registered plate; with a
      registered plate of "" nothing grants. */
  predicate Grants(reading: string, registered: string)
    ensures Grants(reading, registered) ==> reading == registered
    ensures registered == "" ==> !Grants(reading, registered)
  {
    reading != "" && reading == registered
  }

  /** The index of the first granting reading, if any: an index of the readings at which the
      reading equals the registered plate. */
  function FirstGrant(readings: seq<string>, registered: string): (r: Option<nat>)
    ensures r.Some? ==> r.value < |readings| && Grants(readings[r.value], registered)
    decreases |readings|
  {
    if readings == [] then None
    else if Grants(readings[0], registered) then Some(0)
    else match FirstGrant(readings[1..], registered)
      case None => None
      case Some(i) => Some(i + 1)
  }

  /** The non-empty readings, in order. */
  function NonEmpty(readings: seq<string>): seq<string>
    decreases |readings|
  {
    if readings == [] then []
    else
      var last := readings[|readings| - 1];
      NonEmpty(readings[..|readings| - 1]) + (if last == "" then [] else [last])
  }

  lemma {:induction false} NonEmptyProperties(readings: seq<string>)
    ensures |NonEmpty(readings)| <= |readings|
    ensures forall i :: 0 <= i < |NonEmpty(readings)| ==> NonEmpty(readings)[i] != "" && NonEmpty(readings)[i] in readings
    ensures NonEmpty(readings) == [] <==> forall i :: 0 <= i < |readings| ==> readings[i] == ""
    decreases |readings|
  {
    if readings != [] {
      var init := readings[..|readings| - 1];
      NonEmptyProperties(init);
      assert forall i :: 0 <= i < |init| ==> init[i] == readings[i];
      assert readings == init + [readings[|readings| - 1]];
    }
  }

  /** `stable_count` is the length of the block of identical readings that ends the sequence of
      non-empty readings, and `last_detected` is that block's reading ("" when there is none). */
  lemma {:induction false} ReplayIsTrailingBlock(readings: seq<string>)
    ensures var s := Replay(readings);
            var ne := NonEmpty(readings);
            s.lastDetected == (if ne == [] then "" else ne[|ne| - 1]) &&
            0 <= s.stableCount <= |ne| &&
            (ne != [] ==> s.stableCount >= 1) &&
            (forall j :: |ne| - s.stableCount <= j < |ne| ==> ne[j] == s.lastDetected) &&
            (s.stableCount < |ne| ==> ne[|ne| - s.stableCount - 1] != s.lastDetected)
    decreases |readings|
  {
    if readings != [] {
      var init := readings[..|readings| - 1];
      var x := readings[|readings| - 1];
      ReplayIsTrailingBlock(init);
      NonEmptyProperties(init);
      var s0, ne0 := Replay(init), NonEmpty(init);
      if x != "" {
        var ne := NonEmpty(readings);
        assert ne == ne0 + [x];
        if x == s0.lastDetected {
          assert ne0 != [];
        }
      }
    }
  }

  /** `last_detected` is "" or one of the readings. */
  lemma ReplayLastIsReading(readings: seq<string>)
    ensures Replay(readings).lastDetected == "" || Replay(readings).lastDetected in readings
  {
    ReplayIsTrailingBlock(readings);
    NonEmptyProperties(readings);
  }

  /** Extending the consumed prefix by one reading is one more `Next`. */
  lemma ReplayStep(readings: seq<string>, i: nat)
    requires i < |readings|
    ensures Replay(readings[..i + 1]) == Next(Replay(readings[..i]), readings[i])
  {
    assert readings[..i + 1][..i] == readings[..i];
  }

  /** Once some reading is non-empty, `stable_count >= 1`, so the guard `stable_count >= 1`
      never blocks a grant. */
  lemma ReplayCountPositive(readings: seq<string>, k: nat)
    requires k < |readings| && readings[k] != ""
    ensures Replay(readings).stableCount >= 1
  {
    ReplayIsTrailingBlock(readings);
    NonEmptyProperties(readings);
  }

  lemma {:induction false} FirstGrantSpec(readings: seq<string>, registered: string)
    ensures match FirstGrant(readings, registered)
            case Some(i) => i < |readings| && Grants(readings[i], registered) &&
                            forall j :: 0 <= j < i ==> !Grants(readings[j], registered)
            case None => forall j :: 0 <= j < |readings| ==> !Grants(readings[j], registered)
    decreases |readings|
  {
    if readings != [] && !Grants(readings[0], registered) {
      FirstGrantSpec(readings[1..], registered);
      assert forall j :: 1 <= j < |readings| ==> readings[j] == readings[1..][j - 1];
    }
  }

  /** A granting reading with no granting reading before it is the first grant. */
  lemma FirstGrantAt(readings: seq<string>, registered: string, i: nat)
    requires i < |readings| && Grants(readings[i], registered)
    requires forall j :: 0 <= j < i ==> !Grants(readings[j], registered)
    ensures FirstGrant(readings, registered) == Some(i)
  {
    FirstGrantSpec(readings, registered);
  }

  /** With a registered plate that sanitises to "" no frame can grant access. */
  lemma EmptyRegisteredNeverGrants(readings: seq<string>)
    ensures FirstGrant(readings, "") == None
  {
    FirstGrantSpec(readings, "");
  }

  /** The readings "ABC12D", "ABC12D", "XYZ", "ABC12D" give the counts 1, 2, 1, 1. */
  lemma StreakExample()
    ensures Replay(["ABC12D"]) == Streak("ABC12D", 1)
    ensures Replay(["ABC12D", "ABC12D"]) == Streak("ABC12D", 2)
    ensures Replay(["ABC12D", "ABC12D", "XYZ"]) == Streak("XYZ", 1)
    ensures Replay(["ABC12D", "ABC12D", "XYZ", "ABC12D"]) == Streak("ABC12D", 1)
  {
    var r := ["ABC12D", "ABC12D", "XYZ", "ABC12D"];
    assert r[..3] == ["ABC12D", "ABC12D", "XYZ"];
    assert r[..3][..2] == ["ABC12D", "ABC12D"];
    assert r[..3][..2][..1] == ["ABC12D"];
    assert ["ABC12D"][..0] == [];
  }

  /** With registered plate "KA01AB1234" the loop stops at the first frame that reads it. */
  lemma GrantExample()
    ensures FirstGrant(["", "XYZ", "KA01AB1234", "KA01AB1234"], "KA01AB1234") == Some(2)
  {
    var r := ["", "XYZ", "KA01AB1234", "KA01AB1234"];
    assert r[1..] == ["XYZ", "KA01AB1234", "KA01AB1234"];
    assert r[1..][1..] == ["KA01AB1234", "KA01AB1234"];
  }

  /** The loop state of `anpr_system`. */
  class Tracker {
    var lastDetected: string
    var stableCount: int

    function State(): Streak
      reads this
    {
      Streak(lastDetected, stableCount)
    }

    ghost predicate Valid()
      reads this
    {
      WellFormed(State())
    }

    constructor ()
      ensures Valid() && State() == Initial
    {
      lastDetected := "";
      stableCount := 0;
    }

    /** One frame's reading: update the streak, then decide. */
    method Step(reading: string, registered: string) returns (d: Decision)
      requires Valid()
      modifies this
      ensures Valid()
      ensures State() == Next(old(State()), reading)
      ensures reading == "" ==> lastDetected == old(lastDetected) && stableCount == old(stableCount)
      ensures reading != "" && reading == old(lastDetected) ==>
                lastDetected == old(lastDetected) && stableCount == old(stableCount) + 1
      ensures reading != "" && reading != old(lastDetected) ==>
                lastDetected == reading && stableCount == 1
      ensures d == NoDetection <==> reading == ""
      ensures d == Granted <==> Grants(reading, registered)
    {
      if reading == "" {
        return NoDetection;
      }
      if reading == lastDetected {
        stableCount := stableCount + 1;
      } else {
        stableCount := 1;
        lastDetected := reading;
      }
      if stableCount >= 1 && reading == registered {
        d := Granted;
      } else {
        d := Denied;
      }
    }
  }

  /** The number of readings the loop consumes: up to and including the granting one. */
  function Consumed(grantAt: Option<nat>, n: nat): nat {
    match grantAt
    case Some(i) => i + 1
    case None => n
  }

  /** The frame loop over the readings of successive frames; the loop ends at the first grant
      or when the readings run out. */
  method Run(readings: seq<string>, registered: string) returns (grantAt: Option<nat>, last: Streak)
    ensures grantAt == FirstGrant(readings, registered)
    ensures Consumed(grantAt, |readings|) <= |readings|
    ensures last == Replay(readings[..Consumed(grantAt, |readings|)])
  {
    var tracker := new Tracker();
    var i := 0;
    while i < |readings|
      invariant 0 <= i <= |readings|
      invariant tracker.Valid()
      invariant tracker.State() == Replay(readings[..i])
      invariant forall j :: 0 <= j < i ==> !Grants(readings[j], registered)
    {
      var d := tracker.Step(readings[i], registered);
      ReplayStep(readings, i);
      if d == Granted {
        FirstGrantSpec(readings, registered);
        return Some(i), tracker.State();
      }
      i := i + 1;
    }
    FirstGrantSpec(readings, registered);
    assert readings[..|readings|] == readings;
    return None, tracker.State();
  }
}
