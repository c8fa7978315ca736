/** The simulator's local position: FlightAxis reports the aircraft in its
    own world frame, and the connector re-centres it on the first position it
    sees so that the flight starts at the origin. */
module Position {
  import opened Wrappers

  datatype Vec3 = Vec3(x: real, y: real, z: real)
  {
    predicate IsZero()
    {
      x == 0.0 && y == 0.0 && z == 0.0
    }
  }

  const Zero: Vec3 := Vec3(0.0, 0.0, 0.0)

  function Sub(a: Vec3, b: Vec3): (r: Vec3)
    ensures Add(r, b) == a
  {
    Vec3(a.x - b.x, a.y - b.y, a.z - b.z)
  }

  function Add(a: Vec3, b: Vec3): Vec3
  {
    Vec3(a.x + b.x, a.y + b.y, a.z + b.z)
  }

  /** The three fields of the reply that give the aircraft's position. */
  datatype PositionReport = PositionReport(posX: real, posY: real, altitudeAgl: real)

  /** Lines 251-253: north-east-down from FlightAxis's X, Y and height
      above ground. */
  function Ned(report: PositionReport): (r: Vec3)
    ensures r.z == -report.altitudeAgl
    ensures Vec3(r.y, r.x, -r.z) == Vec3(report.posX, report.posY, report.altitudeAgl)
  {
    Vec3(report.posY, report.posX, -report.altitudeAgl)
  }

  /** The stored offset and the position the step publishes. */
  datatype Fix = Fix(offset: Vec3, position: Vec3)

  // ---------------------------------------------------------- as written

  /** Lines 255-259 as written: a zero offset means "not captured yet", so
      the current position is taken as the offset and published as the
      origin; otherwise the offset is subtracted and kept. */
  function FixPositionAsWritten(offset: Vec3, raw: Vec3): (r: Fix)
    ensures offset.IsZero() ==> r.offset == raw && r.position.IsZero()
    ensures !offset.IsZero() ==> r.offset == offset && Add(r.position, offset) == raw
  {
    var o := if offset.IsZero() then raw else offset;
    Fix(o, Sub(raw, o))
  }

  /** The positions published over successive updates, as written. */
  function TrackAsWritten(offset: Vec3, raws: seq<Vec3>): (r: seq<Vec3>)
    ensures |r| == |raws|
    ensures !offset.IsZero() ==> forall k :: 0 <= k < |raws| ==> r[k] == Sub(raws[k], offset)
    decreases |raws|
  {
    if |raws| == 0 then []
    else
      var f := FixPositionAsWritten(offset, raws[0]);
      [f.position] + TrackAsWritten(f.offset, raws[1..])
  }

  /** The offset stored after successive updates, as written. */
  function OffsetAfterAsWritten(offset: Vec3, raws: seq<Vec3>): (r: Vec3)
    ensures !offset.IsZero() ==> r == offset
    ensures offset.IsZero() && |raws| > 0 && !raws[0].IsZero() ==> r == raws[0]
    decreases |raws|
  {
    if |raws| == 0 then offset
    else OffsetAfterAsWritten(FixPositionAsWritten(offset, raws[0]).offset, raws[1..])
  }

  /** When the first position reported is exactly the origin, the offset is
      still zero afterwards, so the second position is captured as the
      origin: the aircraft's first move away from the origin is lost. */
  lemma OriginAtZeroMisplaced(raws: seq<Vec3>)
    requires |raws| == 2 && raws[0].IsZero() && !raws[1].IsZero()
    ensures TrackAsWritten(Zero, raws)[1] == Zero
    ensures Track(None, raws)[1] == raws[1]
  {
    TrackAsWrittenHead(Zero, raws);
    TrackAsWrittenHead(raws[0], raws[1..]);
    SecondRelative(raws);
    SubZero(raws[1], raws[0]);
  }

  lemma TrackAsWrittenHead(offset: Vec3, raws: seq<Vec3>)
    requires |raws| > 0
    ensures TrackAsWritten(offset, raws)[0] == FixPositionAsWritten(offset, raws[0]).position
    ensures TrackAsWritten(offset, raws)[1..]
            == TrackAsWritten(FixPositionAsWritten(offset, raws[0]).offset, raws[1..])
  {
  }

  lemma SecondRelative(raws: seq<Vec3>)
    requires |raws| == 2
    ensures Track(None, raws)[1] == Sub(raws[1], raws[0])
  {
  }

  lemma SubZero(a: Vec3, b: Vec3)
    requires b.IsZero()
    ensures Sub(a, b) == a
  {
  }

  // ------------------------------------------------------------ corrected

  /** Lines 255-259 with "captured" kept apart from the offset's value: the
      first position is the origin, whatever its value. */
  function FixPosition(origin: Option<Vec3>, raw: Vec3): (r: (Option<Vec3>, Vec3))
    ensures r.0.Some?
    ensures origin.None? ==> r.0 == Some(raw) && r.1 == Zero
    ensures origin.Some? ==> r.0 == origin && Add(r.1, origin.value) == raw
  {
    var o := if origin.Some? then origin.value else raw;
    (Some(o), Sub(raw, o))
  }

  /** The positions published over successive updates. */
  function Track(origin: Option<Vec3>, raws: seq<Vec3>): (r: seq<Vec3>)
    ensures |r| == |raws|
    ensures origin.Some? ==> forall k :: 0 <= k < |raws| ==> r[k] == Sub(raws[k], origin.value)
    ensures origin.None? ==> forall k :: 0 <= k < |raws| ==> r[k] == Sub(raws[k], raws[0])
    decreases |raws|
  {
    if |raws| == 0 then []
    else
      var (o, p) := FixPosition(origin, raws[0]);
      [p] + Track(o, raws[1..])
  }

  /** Every published position is the displacement from the first one, and
      the first is the origin. */
  lemma TrackRelativeToFirst(raws: seq<Vec3>)
    requires |raws| > 0
    ensures Track(None, raws)[0] == Zero
    ensures forall k :: 0 <= k < |raws| ==> Add(Track(None, raws)[k], raws[0]) == raws[k]
  {
  }

  /** The two agree whenever the first position is not exactly the origin. */
  lemma {:induction false} AsWrittenAgrees(offset: Vec3, raws: seq<Vec3>)
    requires !offset.IsZero()
    ensures TrackAsWritten(offset, raws) == Track(Some(offset), raws)
    decreases |raws|
  {
    if |raws| > 0 {
      AsWrittenAgrees(offset, raws[1..]);
    }
  }

  lemma FirstSampleAgrees(raws: seq<Vec3>)
    requires |raws| > 0 && !raws[0].IsZero()
    ensures TrackAsWritten(Zero, raws) == Track(None, raws)
  {
    var f := FixPositionAsWritten(Zero, raws[0]);
    AsWrittenAgrees(f.offset, raws[1..]);
  }

  // ---------------------------------------------------------- one update

  /** Lines 251-259 as written: the reported position is turned into
      north-east-down and re-centred on the stored offset. Once an offset is
      held, the published north and east are FlightAxis's Y and X less the
      offset, and down is minus the height above ground less the offset. */
  function UpdateAsWritten(offset: Vec3, report: PositionReport): (r: Fix)
    ensures offset.IsZero() ==> r.offset == Ned(report) && r.position.IsZero()
    ensures !offset.IsZero() ==>
              && r.offset == offset
              && r.position == Vec3(report.posY - offset.x, report.posX - offset.y, -report.altitudeAgl - offset.z)
  {
    FixPositionAsWritten(offset, Ned(report))
  }

  /** Lines 251-259 with the corrected capture: the first report fixes the
      origin, and each report is published as its displacement from it. */
  function Update(origin: Option<Vec3>, report: PositionReport): (r: (Option<Vec3>, Vec3))
    ensures origin.None? ==> r.0 == Some(Ned(report)) && r.1 == Zero
    ensures origin.Some? ==> r.0 == origin && Add(r.1, origin.value) == Ned(report)
  {
    FixPosition(origin, Ned(report))
  }

  /** The two updates publish the same position whenever an offset other
      than the exact origin has been captured. */
  lemma UpdateAgrees(offset: Vec3, report: PositionReport)
    requires !offset.IsZero()
    ensures UpdateAsWritten(offset, report).position == Update(Some(offset), report).1
    ensures UpdateAsWritten(offset, report).offset == Update(Some(offset), report).0.value
  {
    AddCancels(UpdateAsWritten(offset, report).position, Update(Some(offset), report).1, offset);
  }

  /** Adding the same vector is injective. */
  lemma AddCancels(a: Vec3, b: Vec3, c: Vec3)
    requires Add(a, c) == Add(b, c)
    ensures a == b
  {
  }
}
