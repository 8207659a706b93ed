/**
  `parse_tcx_bytes`: flattens a parsed TCX (Training Center XML) document into
  three semicolon-separated tables — one row per Activity, one per Lap, one per
  Trackpoint — each starting with a fixed header row.

  The tables are specified declaratively here (`Convert`); `ParseTcxBytes` is the
  step-by-step conversion, three nested loops writing rows to three writers, and
  its postcondition is that it produces exactly the serialized `Convert`.
*/
module TcxFlattener {
  import opened Options
  import opened ElementTree
  import opened SemicolonCsv

  const TcxNs: string := "http://www.garmin.com/xmlschemas/TrainingCenterDatabase/v2"
  const ExtNs: string := "http://www.garmin.com/xmlschemas/ActivityExtension/v2"

  /** `tcx:local` */
  function Tcx(local: string): QName {
    QName(TcxNs, local)
  }

  /** `ext:local` */
  function Ext(local: string): QName {
    QName(ExtNs, local)
  }

  // The ElementPath expressions of the converter, prefixes resolved.

  const ActivityPath: seq<Step> := [Descendant(Tcx("Activity"))]
  const IdPath: seq<Step> := [Child(Tcx("Id"))]
  const CreatorNamePath: seq<Step> := [Child(Tcx("Creator")), Child(Tcx("Name"))]
  const ProductIdPath: seq<Step> := [Child(Tcx("Creator")), Child(Tcx("ProductID"))]
  const LapPath: seq<Step> := [Child(Tcx("Lap"))]

  const TotalTimePath: seq<Step> := [Child(Tcx("TotalTimeSeconds"))]
  const LapDistancePath: seq<Step> := [Child(Tcx("DistanceMeters"))]
  const CaloriesPath: seq<Step> := [Child(Tcx("Calories"))]
  const AvgHeartRatePath: seq<Step> := [Child(Tcx("AverageHeartRateBpm")), Child(Tcx("Value"))]
  const MaxHeartRatePath: seq<Step> := [Child(Tcx("MaximumHeartRateBpm")), Child(Tcx("Value"))]
  const MaxSpeedPath: seq<Step> := [Child(Tcx("MaximumSpeed"))]
  /** The cadence lookups look for `LX` in the core namespace, not the extension one. */
  const AvgCadencePath: seq<Step> :=
    [Descendant(Tcx("Extensions")), Child(Tcx("LX")), Child(Tcx("AvgRunCadence"))]
  const MaxCadencePath: seq<Step> :=
    [Descendant(Tcx("Extensions")), Child(Tcx("LX")), Child(Tcx("MaxRunCadence"))]
  const IntensityPath: seq<Step> := [Child(Tcx("Intensity"))]
  const TriggerMethodPath: seq<Step> := [Child(Tcx("TriggerMethod"))]
  const TrackpointPath: seq<Step> := [Descendant(Tcx("Trackpoint"))]

  const AltitudePath: seq<Step> := [Child(Tcx("AltitudeMeters"))]
  const TrackDistancePath: seq<Step> := [Child(Tcx("DistanceMeters"))]
  const RunCadencePath: seq<Step> :=
    [Descendant(Tcx("Extensions")), Child(Ext("TPX")), Child(Ext("RunCadence"))]
  const SpeedPath: seq<Step> :=
    [Descendant(Tcx("Extensions")), Child(Ext("TPX")), Child(Ext("Speed"))]
  const HeartRatePath: seq<Step> := [Child(Tcx("HeartRateBpm")), Child(Tcx("Value"))]
  const LatitudePath: seq<Step> := [Child(Tcx("Position")), Child(Tcx("LatitudeDegrees"))]
  const LongitudePath: seq<Step> := [Child(Tcx("Position")), Child(Tcx("LongitudeDegrees"))]
  const TimePath: seq<Step> := [Child(Tcx("Time"))]

  const ActivityHeader: Row := ["ActivityId", "ActivitySport", "CreatorName", "ProductID"]
  const LapHeader: Row := [
    "ActivityId", "LapNumber", "TotalTimeSeconds", "DistanceMeters", "Calories",
    "AverageHeartRateBpm", "MaximumHeartRateBpm", "MaximumSpeed",
    "AvgRunCadence", "MaxRunCadence", "Intensity", "StartTime", "TriggerMethod"]
  const TrackHeader: Row := [
    "ActivityId", "LapNumber", "TrackNumber", "AltitudeMeters", "DistanceMeters",
    "RunCadence", "Speed", "HeartRateBpm", "LatitudeDegrees", "LongitudeDegrees", "Time"]

  /** Why a conversion produces nothing: the input is not well-formed XML, or a
      lookup whose `.text` is read unguarded found no element. */
  datatype Failure = ParseError | MissingRequired

  /** The three tables as rows, header rows included. */
  datatype Tables = Tables(activities: seq<Row>, laps: seq<Row>, tracks: seq<Row>)

  /** The three buffers the conversion returns. */
  datatype Output = Output(activities: string, laps: string, tracks: string)

  // ---------------------------------------------------------------------------
  // Cells

  /** The cell an element's `.text` becomes: the writer renders None as "". */
  function TextOf(e: Element): string {
    e.text.GetOr("")
  }

  predicate Has(e: Element, path: seq<Step>) {
    Find(e, path).Some?
  }

  /** The text of `e.find(path)`, "" when nothing is found. This is the guarded
      `x.text if x is not None else ""` of the creator cells, and also the cell of
      an unguarded `e.find(path).text`: the rows are only built for inputs where
      those lookups all succeed (`LapComplete`, `ActivityComplete`). */
  function TextIfFound(e: Element, path: seq<Step>): string {
    match Find(e, path)
    case None => ""
    case Some(x) => TextOf(x)
  }

  /** `e.find(path).text if e.find(path) else ""`: the guard is the element's
      truth value, so a found element with no child elements also gives "". */
  function TextIfTruthy(e: Element, path: seq<Step>): string {
    match Find(e, path)
    case None => ""
    case Some(x) => if Truthy(x) then TextOf(x) else ""
  }

  // ---------------------------------------------------------------------------
  // What is looked up

  function Activities(root: Element): seq<Element> {
    FindAll(root, ActivityPath)
  }

  function Laps(activity: Element): seq<Element> {
    FindAll(activity, LapPath)
  }

  function Trackpoints(lap: Element): seq<Element> {
    FindAll(lap, TrackpointPath)
  }

  /** The lap has every element whose text the lap row reads unguarded. */
  predicate LapComplete(lap: Element) {
    && Has(lap, TotalTimePath)
    && Has(lap, LapDistancePath)
    && Has(lap, CaloriesPath)
    && Has(lap, IntensityPath)
    && Has(lap, TriggerMethodPath)
  }

  predicate LapsComplete(laps: seq<Element>) {
    forall lap :: lap in laps ==> LapComplete(lap)
  }

  predicate ActivityComplete(activity: Element) {
    Has(activity, IdPath) && LapsComplete(Laps(activity))
  }

  predicate AllComplete(acts: seq<Element>) {
    forall a :: a in acts ==> ActivityComplete(a)
  }

  // ---------------------------------------------------------------------------
  // Rows

  function ActivityId(activity: Element): string {
    TextIfFound(activity, IdPath)
  }

  function ActivityRow(activity: Element): Row {
    [ ActivityId(activity),
      Get(activity, "Sport", "Unknown"),
      TextIfFound(activity, CreatorNamePath),
      TextIfFound(activity, ProductIdPath) ]
  }

  /** What a lap row holds besides the activity id and the lap number, in column
      order. */
  datatype LapCells = LapCells(
    totalTime: string, distance: string, calories: string,
    avgHeartRate: string, maxHeartRate: string, maxSpeed: string,
    avgCadence: string, maxCadence: string,
    intensity: string, startTime: string, triggerMethod: string)

  /** What a trackpoint row holds besides the activity id, the lap number and the
      trackpoint number, in column order. */
  datatype TrackCells = TrackCells(
    altitude: string, distance: string, runCadence: string, speed: string,
    heartRate: string, latitude: string, longitude: string, time: string)

  /** The lookups the program makes on one lap. */
  function ReadLap(lap: Element): LapCells {
    LapCells(
      TextIfFound(lap, TotalTimePath),
      TextIfFound(lap, LapDistancePath),
      TextIfFound(lap, CaloriesPath),
      TextIfTruthy(lap, AvgHeartRatePath),
      TextIfTruthy(lap, MaxHeartRatePath),
      TextIfTruthy(lap, MaxSpeedPath),
      TextIfTruthy(lap, AvgCadencePath),
      TextIfTruthy(lap, MaxCadencePath),
      TextIfFound(lap, IntensityPath),
      Get(lap, "StartTime", ""),
      TextIfFound(lap, TriggerMethodPath))
  }

  /** The lookups the program makes on one trackpoint. */
  function ReadTrackpoint(tp: Element): TrackCells {
    TrackCells(
      TextIfTruthy(tp, AltitudePath),
      TextIfTruthy(tp, TrackDistancePath),
      TextIfTruthy(tp, RunCadencePath),
      TextIfTruthy(tp, SpeedPath),
      TextIfTruthy(tp, HeartRatePath),
      TextIfTruthy(tp, LatitudePath),
      TextIfTruthy(tp, LongitudePath),
      TextIfTruthy(tp, TimePath))
  }

  /** `f` applied to every element of `xs`, in order. */
  function Map<A, B>(f: A -> B, xs: seq<A>): (r: seq<B>)
    ensures |r| == |xs|
  {
    if xs == [] then [] else Map(f, xs[..|xs| - 1]) + [f(xs[|xs| - 1])]
  }

  lemma {:induction false} MapAt<A, B>(f: A -> B, xs: seq<A>, k: nat)
    requires k < |xs|
    ensures Map(f, xs)[k] == f(xs[k])
  {
    if k < |xs| - 1 {
      MapAt(f, xs[..|xs| - 1], k);
    }
  }

  function ReadLaps(laps: seq<Element>): seq<LapCells> {
    Map(ReadLap, laps)
  }

  function ReadTrackpoints(tps: seq<Element>): seq<TrackCells> {
    Map(ReadTrackpoint, tps)
  }

  function LapRow(actId: string, lapNo: nat, c: LapCells): Row {
    [ actId, NatToString(lapNo),
      c.totalTime, c.distance, c.calories,
      c.avgHeartRate, c.maxHeartRate, c.maxSpeed, c.avgCadence, c.maxCadence,
      c.intensity, c.startTime, c.triggerMethod ]
  }

  function TrackRow(actId: string, lapNo: nat, trackNo: nat, c: TrackCells): Row {
    [ actId, NatToString(lapNo), NatToString(trackNo),
      c.altitude, c.distance, c.runCadence, c.speed,
      c.heartRate, c.latitude, c.longitude, c.time ]
  }

  /** Rows of the first `m` trackpoints of lap number `lapNo`, numbered 1..m as
      `enumerate(..., start=1)` numbers them. */
  function TrackBlock(actId: string, lapNo: nat, cs: seq<TrackCells>, m: nat): seq<Row>
    requires m <= |cs|
  {
    if m == 0 then [] else TrackBlock(actId, lapNo, cs, m - 1) + [TrackRow(actId, lapNo, m, cs[m - 1])]
  }

  /** Rows of every trackpoint under `lap`, which is lap number `lapNo`. */
  function LapTracks(actId: string, lapNo: nat, lap: Element): seq<Row> {
    var tps := Trackpoints(lap);
    TrackBlock(actId, lapNo, ReadTrackpoints(tps), |tps|)
  }

  /** Rows of the first `m` laps, numbered 1..m. */
  function LapBlock(actId: string, cs: seq<LapCells>, m: nat): seq<Row>
    requires m <= |cs|
  {
    if m == 0 then [] else LapBlock(actId, cs, m - 1) + [LapRow(actId, m, cs[m - 1])]
  }

  /** Trackpoint rows of the first `m` laps, lap after lap. */
  function ActivityTracks(actId: string, laps: seq<Element>, m: nat): seq<Row>
    requires m <= |laps|
  {
    if m == 0 then [] else ActivityTracks(actId, laps, m - 1) + LapTracks(actId, m, laps[m - 1])
  }

  /** The Laps-table rows of one activity. */
  function LapsOf(activity: Element): seq<Row> {
    var laps := Laps(activity);
    LapBlock(ActivityId(activity), ReadLaps(laps), |laps|)
  }

  /** The Trackpoints-table rows of one activity. */
  function TracksOf(activity: Element): seq<Row> {
    ActivityTracks(ActivityId(activity), Laps(activity), |Laps(activity)|)
  }

  /** Data rows of the Activities table for `acts`, one per activity. */
  function ActivityRows(acts: seq<Element>): seq<Row> {
    if acts == [] then [] else ActivityRows(acts[..|acts| - 1]) + [ActivityRow(acts[|acts| - 1])]
  }

  /** Data rows of the Laps table for `acts`, activity after activity. */
  function LapRows(acts: seq<Element>): seq<Row> {
    if acts == [] then [] else LapRows(acts[..|acts| - 1]) + LapsOf(acts[|acts| - 1])
  }

  /** Data rows of the Trackpoints table for `acts`, activity after activity. */
  function TrackRows(acts: seq<Element>): seq<Row> {
    if acts == [] then [] else TrackRows(acts[..|acts| - 1]) + TracksOf(acts[|acts| - 1])
  }

  /** The conversion, as tables: nothing when the input is not XML or a required
      element is missing anywhere, otherwise the three tables in full. */
  function Convert(doc: ParseOutcome): Result<Tables, Failure> {
    match doc
    case SyntaxError => Failure(ParseError)
    case Parsed(root) =>
      var acts := Activities(root);
      if AllComplete(acts) then
        Success(Tables(
          [ActivityHeader] + ActivityRows(acts),
          [LapHeader] + LapRows(acts),
          [TrackHeader] + TrackRows(acts)))
      else Failure(MissingRequired)
  }

  function Serialize(r: Result<Tables, Failure>): Result<Output, Failure> {
    match r
    case Failure(e) => Failure(e)
    case Success(t) =>
      Success(Output(EncodeTable(t.activities), EncodeTable(t.laps), EncodeTable(t.tracks)))
  }

  /** One activity that lacks a required element makes the whole input fail. */
  lemma NotAllComplete(acts: seq<Element>, n: nat)
    requires n < |acts| && !ActivityComplete(acts[n])
    ensures !AllComplete(acts)
  {
    assert acts[n] in acts;
  }

  /** One more complete activity keeps the prefix complete. */
  lemma CompleteStep(acts: seq<Element>, n: nat)
    requires n < |acts| && AllComplete(acts[..n]) && ActivityComplete(acts[n])
    ensures AllComplete(acts[..n + 1])
  {
    assert acts[..n + 1] == acts[..n] + [acts[n]];
  }

  /** One more activity extends each table by that activity's rows. */
  lemma ActivityStep(acts: seq<Element>, n: nat)
    requires n < |acts|
    ensures ActivityRows(acts[..n + 1]) == ActivityRows(acts[..n]) + [ActivityRow(acts[n])]
    ensures LapRows(acts[..n + 1]) == LapRows(acts[..n]) + LapsOf(acts[n])
    ensures TrackRows(acts[..n + 1]) == TrackRows(acts[..n]) + TracksOf(acts[n])
  {
    assert acts[..n + 1][..n] == acts[..n];
  }

  /** The first `n` laps are complete. */
  predicate FirstLapsComplete(laps: seq<Element>, n: nat)
    requires n <= |laps|
  {
    LapsComplete(laps[..n])
  }

  /** Lap `i` extends the complete prefix, or makes the whole list incomplete. */
  lemma LapsCompleteStep(laps: seq<Element>, i: nat)
    requires i < |laps| && FirstLapsComplete(laps, i)
    ensures LapComplete(laps[i]) ==> FirstLapsComplete(laps, i + 1)
    ensures !LapComplete(laps[i]) ==> !FirstLapsComplete(laps, |laps|)
  {
    assert laps[..i + 1] == laps[..i] + [laps[i]];
    assert laps[i] in laps[..|laps|];
  }

  /** All laps complete, counted by position, is all laps complete. */
  lemma LapsCompleteAll(laps: seq<Element>)
    ensures FirstLapsComplete(laps, |laps|) <==> LapsComplete(laps)
  {
    assert laps[..|laps|] == laps;
  }

  /** Writing the row of lap number `i` after those of the first `i - 1` laps
      leaves the buffer holding the rows of the first `i`. */
  lemma LapsWritten(actId: string, cs: seq<LapCells>, i: nat, l0: string, lb: string)
    requires 1 <= i <= |cs|
    requires lb == l0 + EncodeTable(LapBlock(actId, cs, i - 1)) + EncodeRecord(LapRow(actId, i, cs[i - 1]))
    ensures lb == l0 + EncodeTable(LapBlock(actId, cs, i))
  {
    WrittenAppend(l0, LapBlock(actId, cs, i - 1), LapRow(actId, i, cs[i - 1]), lb);
  }

  /** Writing the trackpoint rows of lap number `i` after those of the first
      `i - 1` laps leaves the buffer holding those of the first `i`. */
  lemma LapTracksWritten(actId: string, laps: seq<Element>, i: nat, t0: string, tb: string)
    requires 1 <= i <= |laps|
    requires tb == t0 + EncodeTable(ActivityTracks(actId, laps, i - 1)) + EncodeTable(LapTracks(actId, i, laps[i - 1]))
    ensures tb == t0 + EncodeTable(ActivityTracks(actId, laps, i))
  {
    WrittenConcat(t0, ActivityTracks(actId, laps, i - 1), LapTracks(actId, i, laps[i - 1]), tb);
  }

  // ---------------------------------------------------------------------------
  // The conversion as the program runs it

  /** `parse_tcx_bytes`: writes the three header rows, then the rows of every
      Activity below the root (`WriteActivities`); a missing required element
      aborts it. */
  method ParseTcxBytes(doc: ParseOutcome) returns (r: Result<Output, Failure>)
    ensures r == Serialize(Convert(doc))
  {
    if doc.SyntaxError? {
      return Failure(ParseError);
    }
    var actWriter := NewTable(ActivityHeader);
    var lapWriter := NewTable(LapHeader);
    var trackWriter := NewTable(TrackHeader);

    var acts := FindAll(doc.root, ActivityPath);
    var ok := WriteActivities(actWriter, lapWriter, trackWriter, acts);
    if !ok {
      return Failure(MissingRequired);
    }
    EncodeTableConcat([ActivityHeader], ActivityRows(acts));
    EncodeTableConcat([LapHeader], LapRows(acts));
    EncodeTableConcat([TrackHeader], TrackRows(acts));
    r := Success(Output(actWriter.buffer, lapWriter.buffer, trackWriter.buffer));
  }

  /** A writer over a fresh buffer, with the header row written. */
  method NewTable(header: Row) returns (w: RowWriter)
    ensures fresh(w) && w.buffer == EncodeTable([header])
  {
    w := new RowWriter();
    w.WriteRow(header);
    assert [header][1..] == [];
  }

  /** The loop over activities, in document order. It stops at the first activity
      that lacks a required element, and says whether it got through. */
  method WriteActivities(actWriter: RowWriter, lapWriter: RowWriter, trackWriter: RowWriter,
                         acts: seq<Element>)
    returns (ok: bool)
    requires actWriter != lapWriter && actWriter != trackWriter && lapWriter != trackWriter
    modifies actWriter, lapWriter, trackWriter
    ensures ok <==> AllComplete(acts)
    ensures ok ==> actWriter.buffer == old(actWriter.buffer) + EncodeTable(ActivityRows(acts))
    ensures ok ==> lapWriter.buffer == old(lapWriter.buffer) + EncodeTable(LapRows(acts))
    ensures ok ==> trackWriter.buffer == old(trackWriter.buffer) + EncodeTable(TrackRows(acts))
  {
    ghost var a0, l0, t0 := actWriter.buffer, lapWriter.buffer, trackWriter.buffer;
    var n := 0;
    assert acts[..0] == [];
    while n < |acts|
      invariant 0 <= n <= |acts|
      invariant AllComplete(acts[..n])
      invariant actWriter.buffer == a0 + EncodeTable(ActivityRows(acts[..n]))
      invariant lapWriter.buffer == l0 + EncodeTable(LapRows(acts[..n]))
      invariant trackWriter.buffer == t0 + EncodeTable(TrackRows(acts[..n]))
    {
      ok := WriteActivity(actWriter, lapWriter, trackWriter, acts[n]);
      if !ok {
        NotAllComplete(acts, n);
        return;
      }
      CompleteStep(acts, n);
      ActivityStep(acts, n);
      WrittenAppend(a0, ActivityRows(acts[..n]), ActivityRow(acts[n]), actWriter.buffer);
      WrittenConcat(l0, LapRows(acts[..n]), LapsOf(acts[n]), lapWriter.buffer);
      WrittenConcat(t0, TrackRows(acts[..n]), TracksOf(acts[n]), trackWriter.buffer);
      n := n + 1;
    }
    assert acts[..n] == acts;
    ok := true;
  }

  /** The body of the loop over activities: the activity's row, then its laps
      (`WriteLaps`). It says whether the activity had every required element. */
  method WriteActivity(actWriter: RowWriter, lapWriter: RowWriter, trackWriter: RowWriter,
                       activity: Element)
    returns (ok: bool)
    requires actWriter != lapWriter && actWriter != trackWriter && lapWriter != trackWriter
    modifies actWriter, lapWriter, trackWriter
    ensures ok <==> ActivityComplete(activity)
    ensures ok ==> actWriter.buffer == old(actWriter.buffer) + EncodeRecord(ActivityRow(activity))
    ensures ok ==> lapWriter.buffer == old(lapWriter.buffer) + EncodeTable(LapsOf(activity))
    ensures ok ==> trackWriter.buffer == old(trackWriter.buffer) + EncodeTable(TracksOf(activity))
  {
    var id := Find(activity, IdPath);
    if id.None? {
      return false;
    }
    var actId := TextOf(id.value);
    var sport := Get(activity, "Sport", "Unknown");
    var creator := Find(activity, CreatorNamePath);
    var prod := Find(activity, ProductIdPath);
    actWriter.WriteRow([
      actId, sport,
      if creator.Some? then TextOf(creator.value) else "",
      if prod.Some? then TextOf(prod.value) else ""]);

    var laps := FindAll(activity, LapPath);
    ok := WriteLaps(lapWriter, trackWriter, actId, laps);
    LapsCompleteAll(laps);
  }

  /** The loop over the laps of one activity (`enumerate(..., start=1)`): for each
      lap its row, then the rows of its trackpoints. It stops at the first lap
      that lacks a required element, and says whether it got through. */
  method WriteLaps(lapWriter: RowWriter, trackWriter: RowWriter, actId: string, laps: seq<Element>)
    returns (ok: bool)
    requires lapWriter != trackWriter
    modifies lapWriter, trackWriter
    ensures ok <==> FirstLapsComplete(laps, |laps|)
    ensures ok ==> lapWriter.buffer == old(lapWriter.buffer) + EncodeTable(LapBlock(actId, ReadLaps(laps), |laps|))
    ensures ok ==>
      trackWriter.buffer == old(trackWriter.buffer) + EncodeTable(ActivityTracks(actId, laps, |laps|))
  {
    ghost var l0, t0 := lapWriter.buffer, trackWriter.buffer;
    var i := 0;
    while i < |laps|
      invariant 0 <= i <= |laps|
      invariant FirstLapsComplete(laps, i)
      invariant lapWriter.buffer == l0 + EncodeTable(LapBlock(actId, ReadLaps(laps), i))
      invariant trackWriter.buffer == t0 + EncodeTable(ActivityTracks(actId, laps, i))
    {
      ok := WriteLapAndTracks(lapWriter, trackWriter, actId, laps, i, l0, t0);
      if !ok {
        return;
      }
      i := i + 1;
    }
    ok := true;
  }

  /** The body of the loop over laps, for lap number `i + 1`: the lap's row, then
      the rows of its trackpoints. With the first `i` laps already in the
      buffers, the first `i + 1` are in them afterwards. */
  method WriteLapAndTracks(lapWriter: RowWriter, trackWriter: RowWriter, actId: string,
                           laps: seq<Element>, i: nat, ghost l0: string, ghost t0: string)
    returns (ok: bool)
    requires lapWriter != trackWriter && i < |laps|
    requires lapWriter.buffer == l0 + EncodeTable(LapBlock(actId, ReadLaps(laps), i))
    requires trackWriter.buffer == t0 + EncodeTable(ActivityTracks(actId, laps, i))
    requires FirstLapsComplete(laps, i)
    modifies lapWriter, trackWriter
    ensures ok <==> LapComplete(laps[i])
    ensures ok ==> FirstLapsComplete(laps, i + 1)
    ensures !ok ==> !FirstLapsComplete(laps, |laps|)
    ensures ok ==> lapWriter.buffer == l0 + EncodeTable(LapBlock(actId, ReadLaps(laps), i + 1))
    ensures ok ==> trackWriter.buffer == t0 + EncodeTable(ActivityTracks(actId, laps, i + 1))
  {
    ok := WriteLap(lapWriter, actId, i + 1, laps[i]);
    LapsCompleteStep(laps, i);
    if ok {
      WriteTrackpoints(trackWriter, actId, i + 1, laps[i]);
      MapAt(ReadLap, laps, i);
      LapsWritten(actId, ReadLaps(laps), i + 1, l0, lapWriter.buffer);
      LapTracksWritten(actId, laps, i + 1, t0, trackWriter.buffer);
    }
  }

  /** The body of the loop over laps up to `writerow`: the cells of lap number
      `lapNo`, in the order the program reads them. A required element that is
      missing stops it before anything is written. */
  method WriteLap(lapWriter: RowWriter, actId: string, lapNo: nat, lap: Element)
    returns (ok: bool)
    modifies lapWriter
    ensures ok <==> LapComplete(lap)
    ensures ok ==> lapWriter.buffer == old(lapWriter.buffer) + EncodeRecord(LapRow(actId, lapNo, ReadLap(lap)))
    ensures !ok ==> lapWriter.buffer == old(lapWriter.buffer)
  {
    var totalTime := Find(lap, TotalTimePath);
    if totalTime.None? {
      return false;
    }
    var distance := Find(lap, LapDistancePath);
    if distance.None? {
      return false;
    }
    var calories := Find(lap, CaloriesPath);
    if calories.None? {
      return false;
    }
    var avgHeartRate := TextIfTruthy(lap, AvgHeartRatePath);
    var maxHeartRate := TextIfTruthy(lap, MaxHeartRatePath);
    var maxSpeed := TextIfTruthy(lap, MaxSpeedPath);
    var avgCadence := TextIfTruthy(lap, AvgCadencePath);
    var maxCadence := TextIfTruthy(lap, MaxCadencePath);
    var intensity := Find(lap, IntensityPath);
    if intensity.None? {
      return false;
    }
    var startTime := Get(lap, "StartTime", "");
    var trigger := Find(lap, TriggerMethodPath);
    if trigger.None? {
      return false;
    }
    lapWriter.WriteRow([
      actId, NatToString(lapNo),
      TextOf(totalTime.value), TextOf(distance.value), TextOf(calories.value),
      avgHeartRate, maxHeartRate, maxSpeed, avgCadence, maxCadence,
      TextOf(intensity.value), startTime, TextOf(trigger.value)]);
    ok := true;
  }

  /** The loop over the trackpoints at any depth below lap number `lapNo`, one
      row each, numbered from 1. */
  method WriteTrackpoints(trackWriter: RowWriter, actId: string, lapNo: nat, lap: Element)
    modifies trackWriter
    ensures trackWriter.buffer == old(trackWriter.buffer) + EncodeTable(LapTracks(actId, lapNo, lap))
  {
    var tps := Trackpoints(lap);
    ghost var b0 := trackWriter.buffer;
    var j := 0;
    while j < |tps|
      invariant 0 <= j <= |tps|
      invariant trackWriter.buffer == b0 + EncodeTable(TrackBlock(actId, lapNo, ReadTrackpoints(tps), j))
    {
      WriteTrackpoint(trackWriter, actId, lapNo, tps, j, b0);
      j := j + 1;
    }
  }

  /** The body of the loop over trackpoints, for trackpoint `tps[j]`, numbered
      `j + 1`, of lap number `lapNo`: one more row, so that the rows of the first
      `j + 1` trackpoints follow `b0`. */
  method WriteTrackpoint(trackWriter: RowWriter, actId: string, lapNo: nat, tps: seq<Element>, j: nat,
                         ghost b0: string)
    requires j < |tps|
    requires trackWriter.buffer == b0 + EncodeTable(TrackBlock(actId, lapNo, ReadTrackpoints(tps), j))
    modifies trackWriter
    ensures trackWriter.buffer ==
      old(trackWriter.buffer) + EncodeRecord(TrackRow(actId, lapNo, j + 1, ReadTrackpoint(tps[j])))
    ensures trackWriter.buffer == b0 + EncodeTable(TrackBlock(actId, lapNo, ReadTrackpoints(tps), j + 1))
  {
    var tp := tps[j];
    trackWriter.WriteRow([
      actId, NatToString(lapNo), NatToString(j + 1),
      TextIfTruthy(tp, AltitudePath),
      TextIfTruthy(tp, TrackDistancePath),
      TextIfTruthy(tp, RunCadencePath),
      TextIfTruthy(tp, SpeedPath),
      TextIfTruthy(tp, HeartRatePath),
      TextIfTruthy(tp, LatitudePath),
      TextIfTruthy(tp, LongitudePath),
      TextIfTruthy(tp, TimePath)]);
    MapAt(ReadTrackpoint, tps, j);
    WrittenAppend(b0, TrackBlock(actId, lapNo, ReadTrackpoints(tps), j),
      TrackRow(actId, lapNo, j + 1, ReadTrackpoint(tps[j])), trackWriter.buffer);
  }
}
