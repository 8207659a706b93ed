/**
  What the three tables of the converter look like: their shape (one header row,
  rows as wide as their header), which row stands for which element and how rows
  are numbered, what the optional cells hold, when the conversion fails, and that
  the written text reads back as the tables.
*/
module TcxProperties {
  import opened Options
  import opened ElementTree
  import opened SemicolonCsv
  import opened TcxFlattener

  // ---------------------------------------------------------------------------
  // Numbered rows

  /** The first `m` trackpoint rows are the cells in order, numbered 1..m. */
  lemma {:induction false} TrackBlockRows(actId: string, lapNo: nat, cs: seq<TrackCells>, m: nat)
    requires m <= |cs|
    ensures |TrackBlock(actId, lapNo, cs, m)| == m
    ensures forall k :: 0 <= k < m ==> TrackBlock(actId, lapNo, cs, m)[k] == TrackRow(actId, lapNo, k + 1, cs[k])
  {
    if m > 0 {
      TrackBlockRows(actId, lapNo, cs, m - 1);
    }
  }

  /** The first `m` lap rows are the cells in order, numbered 1..m. */
  lemma {:induction false} LapBlockRows(actId: string, cs: seq<LapCells>, m: nat)
    requires m <= |cs|
    ensures |LapBlock(actId, cs, m)| == m
    ensures forall k :: 0 <= k < m ==> LapBlock(actId, cs, m)[k] == LapRow(actId, k + 1, cs[k])
  {
    if m > 0 {
      LapBlockRows(actId, cs, m - 1);
    }
  }

  // ---------------------------------------------------------------------------
  // Rows of one lap and of one activity

  /** A lap gets one trackpoint row per `Trackpoint` at any depth below it. */
  lemma LapTracksCount(actId: string, lapNo: nat, lap: Element)
    ensures |LapTracks(actId, lapNo, lap)| == |Trackpoints(lap)|
  {
    TrackBlockRows(actId, lapNo, ReadTrackpoints(Trackpoints(lap)), |Trackpoints(lap)|);
  }

  /** Trackpoint row k (from 0) of a lap is the k-th trackpoint below it in
      document order, under the activity Id and the lap number, numbered k + 1.
      Its cells `ReadTrackpoints(tps)[k]` are `ReadTrackpoint(tps[k])`, the
      lookups on that k-th trackpoint (`MapAt`). */
  lemma LapTracksRow(actId: string, lapNo: nat, lap: Element, k: nat)
    requires k < |Trackpoints(lap)|
    ensures |LapTracks(actId, lapNo, lap)| == |Trackpoints(lap)|
    ensures LapTracks(actId, lapNo, lap)[k] == TrackRow(actId, lapNo, k + 1, ReadTrackpoints(Trackpoints(lap))[k])
  {
    var tps := Trackpoints(lap);
    TrackBlockRows(actId, lapNo, ReadTrackpoints(tps), |tps|);
  }

  /** An activity gets one lap row per `Lap` child. */
  lemma LapsOfCount(activity: Element)
    ensures |LapsOf(activity)| == |Laps(activity)|
  {
    LapBlockRows(ActivityId(activity), ReadLaps(Laps(activity)), |Laps(activity)|);
  }

  /** Lap row k (from 0) of an activity is its k-th `Lap` child, under the
      activity Id, numbered k + 1. Its cells `ReadLaps(laps)[k]` are
      `ReadLap(laps[k])`, the lookups on that k-th lap (`MapAt`). */
  lemma LapsOfRow(activity: Element, k: nat)
    requires k < |Laps(activity)|
    ensures |LapsOf(activity)| == |Laps(activity)|
    ensures LapsOf(activity)[k] == LapRow(ActivityId(activity), k + 1, ReadLaps(Laps(activity))[k])
  {
    var laps := Laps(activity);
    LapBlockRows(ActivityId(activity), ReadLaps(laps), |laps|);
  }

  /** Lap rows carry the activity Id and are numbered from 1 in order, so no
      two lap rows of an activity share a lap number. */
  lemma LapBlockNumbers(actId: string, cs: seq<LapCells>, m: nat, j: nat, k: nat)
    requires j < k < m <= |cs|
    ensures |LapBlock(actId, cs, m)| == m
    ensures LapBlock(actId, cs, m)[j] == LapRow(actId, j + 1, cs[j])
    ensures LapBlock(actId, cs, m)[k] == LapRow(actId, k + 1, cs[k])
    ensures LapBlock(actId, cs, m)[j][1] != LapBlock(actId, cs, m)[k][1]
  {
    LapBlockRows(actId, cs, m);
    NatToStringInjective(j + 1, k + 1);
  }

  /** Trackpoint rows carry the activity Id and the lap number and are numbered
      from 1 in order, so no two trackpoint rows of a lap share a number. */
  lemma TrackBlockNumbers(actId: string, lapNo: nat, cs: seq<TrackCells>, m: nat, j: nat, k: nat)
    requires j < k < m <= |cs|
    ensures |TrackBlock(actId, lapNo, cs, m)| == m
    ensures TrackBlock(actId, lapNo, cs, m)[j] == TrackRow(actId, lapNo, j + 1, cs[j])
    ensures TrackBlock(actId, lapNo, cs, m)[k] == TrackRow(actId, lapNo, k + 1, cs[k])
    ensures TrackBlock(actId, lapNo, cs, m)[j][2] != TrackBlock(actId, lapNo, cs, m)[k][2]
  {
    TrackBlockRows(actId, lapNo, cs, m);
    NatToStringInjective(j + 1, k + 1);
  }

  /** A prefix of `a` stays a prefix when `b` is appended. */
  lemma PrefixExtends<T>(p: seq<T>, a: seq<T>, b: seq<T>)
    requires |p| <= |a| && a[..|p|] == p
    ensures |p| <= |a + b| && (a + b)[..|p|] == p
  {
    assert (a + b)[..|p|] == a[..|p|];
  }

  /** The trackpoint rows of the first `j` laps come, as they are, before those
      of any later lap. */
  lemma {:induction false} ActivityTracksPrefix(actId: string, laps: seq<Element>, j: nat, m: nat)
    requires j <= m <= |laps|
    ensures |ActivityTracks(actId, laps, j)| <= |ActivityTracks(actId, laps, m)|
    ensures ActivityTracks(actId, laps, m)[..|ActivityTracks(actId, laps, j)|] == ActivityTracks(actId, laps, j)
  {
    if j < m {
      ActivityTracksPrefix(actId, laps, j, m - 1);
      var p := ActivityTracks(actId, laps, m - 1);
      var n := |ActivityTracks(actId, laps, j)|;
      assert ActivityTracks(actId, laps, m) == p + LapTracks(actId, m, laps[m - 1]);
      assert (p + LapTracks(actId, m, laps[m - 1]))[..n] == p[..n];
    }
  }

  /** The Laps-table rows of the first `j` activities come, as they are, before
      those of any later activity. */
  lemma {:induction false} LapRowsPrefix(acts: seq<Element>, j: nat)
    requires j <= |acts|
    ensures |LapRows(acts[..j])| <= |LapRows(acts)|
    ensures LapRows(acts)[..|LapRows(acts[..j])|] == LapRows(acts[..j])
  {
    if j < |acts| {
      var front := acts[..|acts| - 1];
      assert acts[..j] == front[..j];
      LapRowsPrefix(front, j);
      PrefixExtends(LapRows(acts[..j]), LapRows(front), LapsOf(acts[|acts| - 1]));
    } else {
      assert acts[..j] == acts;
    }
  }

  /** The Trackpoints-table rows of the first `j` activities come, as they are,
      before those of any later activity. */
  lemma {:induction false} TrackRowsPrefix(acts: seq<Element>, j: nat)
    requires j <= |acts|
    ensures |TrackRows(acts[..j])| <= |TrackRows(acts)|
    ensures TrackRows(acts)[..|TrackRows(acts[..j])|] == TrackRows(acts[..j])
  {
    if j < |acts| {
      var front := acts[..|acts| - 1];
      assert acts[..j] == front[..j];
      TrackRowsPrefix(front, j);
      PrefixExtends(TrackRows(acts[..j]), TrackRows(front), TracksOf(acts[|acts| - 1]));
    } else {
      assert acts[..j] == acts;
    }
  }

  // ---------------------------------------------------------------------------
  // Table shape

  /** Every row of `rows` has `w` cells. */
  predicate RowsOfWidth(rows: seq<Row>, w: nat) {
    forall k :: 0 <= k < |rows| ==> |rows[k]| == w
  }

  lemma WidthConcat(a: seq<Row>, b: seq<Row>, w: nat)
    requires RowsOfWidth(a, w) && RowsOfWidth(b, w)
    ensures RowsOfWidth(a + b, w)
  {
  }

  /** An activity row has as many cells as the Activities header. */
  lemma {:induction false} ActivityRowsWidth(acts: seq<Element>)
    ensures |ActivityRows(acts)| == |acts|
    ensures RowsOfWidth(ActivityRows(acts), |ActivityHeader|)
  {
    if acts != [] {
      ActivityRowsWidth(acts[..|acts| - 1]);
    }
  }

  /** A lap row has as many cells as the Laps header. */
  lemma LapsOfWidth(activity: Element)
    ensures RowsOfWidth(LapsOf(activity), |LapHeader|)
  {
    var laps := Laps(activity);
    LapBlockRows(ActivityId(activity), ReadLaps(laps), |laps|);
  }

  lemma LapTracksWidth(actId: string, lapNo: nat, lap: Element)
    ensures RowsOfWidth(LapTracks(actId, lapNo, lap), |TrackHeader|)
  {
    var tps := Trackpoints(lap);
    TrackBlockRows(actId, lapNo, ReadTrackpoints(tps), |tps|);
  }

  lemma {:induction false} ActivityTracksWidth(actId: string, laps: seq<Element>, m: nat)
    requires m <= |laps|
    ensures RowsOfWidth(ActivityTracks(actId, laps, m), |TrackHeader|)
  {
    if m > 0 {
      ActivityTracksWidth(actId, laps, m - 1);
      LapTracksWidth(actId, m, laps[m - 1]);
      WidthConcat(ActivityTracks(actId, laps, m - 1), LapTracks(actId, m, laps[m - 1]), |TrackHeader|);
    }
  }

  lemma {:induction false} LapRowsWidth(acts: seq<Element>)
    ensures RowsOfWidth(LapRows(acts), |LapHeader|)
  {
    if acts != [] {
      LapRowsWidth(acts[..|acts| - 1]);
      LapsOfWidth(acts[|acts| - 1]);
      WidthConcat(LapRows(acts[..|acts| - 1]), LapsOf(acts[|acts| - 1]), |LapHeader|);
    }
  }

  /** A trackpoint row has as many cells as the Trackpoints header. */
  lemma {:induction false} TrackRowsWidth(acts: seq<Element>)
    ensures RowsOfWidth(TrackRows(acts), |TrackHeader|)
  {
    if acts != [] {
      var a := acts[|acts| - 1];
      TrackRowsWidth(acts[..|acts| - 1]);
      ActivityTracksWidth(ActivityId(a), Laps(a), |Laps(a)|);
      WidthConcat(TrackRows(acts[..|acts| - 1]), TracksOf(a), |TrackHeader|);
    }
  }

  // ---------------------------------------------------------------------------
  // Row counts

  /** Activity row k (from 0) stands for the k-th activity in document order. */
  lemma {:induction false} ActivityRowsAt(acts: seq<Element>, k: nat)
    requires k < |acts|
    ensures |ActivityRows(acts)| == |acts|
    ensures ActivityRows(acts)[k] == ActivityRow(acts[k])
  {
    ActivityRowsWidth(acts);
    if k < |acts| - 1 {
      ActivityRowsAt(acts[..|acts| - 1], k);
    }
  }

  /** The number of `Lap` children of all of `acts`. */
  function LapCount(acts: seq<Element>): nat {
    if acts == [] then 0 else LapCount(acts[..|acts| - 1]) + |Laps(acts[|acts| - 1])|
  }

  /** The number of trackpoints below the first `m` laps. */
  function TrackpointCount(laps: seq<Element>, m: nat): nat
    requires m <= |laps|
  {
    if m == 0 then 0 else TrackpointCount(laps, m - 1) + |Trackpoints(laps[m - 1])|
  }

  /** The number of trackpoints below the laps of all of `acts`. */
  function TrackCount(acts: seq<Element>): nat {
    if acts == [] then 0
    else TrackCount(acts[..|acts| - 1]) + TrackpointCount(Laps(acts[|acts| - 1]), |Laps(acts[|acts| - 1])|)
  }

  /** The Laps table has one data row per `Lap` child of every activity. */
  lemma {:induction false} LapRowsCount(acts: seq<Element>)
    ensures |LapRows(acts)| == LapCount(acts)
  {
    if acts != [] {
      LapRowsCount(acts[..|acts| - 1]);
      LapsOfCount(acts[|acts| - 1]);
    }
  }

  lemma {:induction false} ActivityTracksCount(actId: string, laps: seq<Element>, m: nat)
    requires m <= |laps|
    ensures |ActivityTracks(actId, laps, m)| == TrackpointCount(laps, m)
  {
    if m > 0 {
      ActivityTracksCount(actId, laps, m - 1);
      LapTracksCount(actId, m, laps[m - 1]);
    }
  }

  /** The Trackpoints table has one data row per trackpoint below every lap. */
  lemma {:induction false} TrackRowsCount(acts: seq<Element>)
    ensures |TrackRows(acts)| == TrackCount(acts)
  {
    if acts != [] {
      var a := acts[|acts| - 1];
      TrackRowsCount(acts[..|acts| - 1]);
      ActivityTracksCount(ActivityId(a), Laps(a), |Laps(a)|);
    }
  }

  // ---------------------------------------------------------------------------
  // What the lookups select

  /** The activities are the `Activity` elements at any depth strictly below the
      root, so a root that is itself an `Activity` gets no row. */
  lemma ActivitiesAre(root: Element, x: Element)
    ensures x in Activities(root) <==> x in Descendants(root) && x.tag == Tcx("Activity")
    ensures root !in Activities(root)
  {
    FindAllDescendant(root, Tcx("Activity"), x);
    FindAllDescendant(root, Tcx("Activity"), root);
    SelfNotDescendant(root);
  }

  /** The laps of an activity are its `Lap` children, and only those. */
  lemma LapsAre(activity: Element, x: Element)
    ensures x in Laps(activity) <==> x in activity.children && x.tag == Tcx("Lap")
  {
    FindAllChild(activity, Tcx("Lap"), x);
  }

  /** The trackpoints of a lap are the `Trackpoint` elements at any depth below it. */
  lemma TrackpointsAre(lap: Element, x: Element)
    ensures x in Trackpoints(lap) <==> x in Descendants(lap) && x.tag == Tcx("Trackpoint")
  {
    FindAllDescendant(lap, Tcx("Trackpoint"), x);
  }

  /** `e` has a child tagged `q`. */
  predicate HasChildTagged(e: Element, q: QName) {
    exists c :: c in e.children && c.tag == q
  }

  /** A one-step child lookup finds something exactly when such a child exists,
      and then it is the first one. */
  lemma {:induction false} FindChild(e: Element, q: QName)
    ensures Has(e, [Child(q)]) <==> HasChildTagged(e, q)
    ensures Find(e, [Child(q)]) ==
      (if Tagged(e.children, q) == [] then None else Some(Tagged(e.children, q)[0]))
    ensures Has(e, [Child(q)]) ==>
      Find(e, [Child(q)]).value in e.children && Find(e, [Child(q)]).value.tag == q
  {
    var all := FindAll(e, [Child(q)]);
    FindAllChild(e, q, e);
    if HasChildTagged(e, q) {
      var c :| c in e.children && c.tag == q;
      FindAllChild(e, q, c);
    }
    if all != [] {
      FindAllChild(e, q, all[0]);
    }
  }

  /** A lap has every element its row reads unguarded exactly when it has a
      `TotalTimeSeconds`, `DistanceMeters`, `Calories`, `Intensity` and
      `TriggerMethod` child. */
  lemma LapCompleteChildren(lap: Element)
    ensures LapComplete(lap) <==>
      && HasChildTagged(lap, Tcx("TotalTimeSeconds"))
      && HasChildTagged(lap, Tcx("DistanceMeters"))
      && HasChildTagged(lap, Tcx("Calories"))
      && HasChildTagged(lap, Tcx("Intensity"))
      && HasChildTagged(lap, Tcx("TriggerMethod"))
  {
    FindChild(lap, Tcx("TotalTimeSeconds"));
    FindChild(lap, Tcx("DistanceMeters"));
    FindChild(lap, Tcx("Calories"));
    FindChild(lap, Tcx("Intensity"));
    FindChild(lap, Tcx("TriggerMethod"));
  }

  /** An activity has what its rows read unguarded exactly when it has an `Id`
      child and each of its `Lap` children is complete. */
  lemma ActivityCompleteChildren(activity: Element)
    ensures ActivityComplete(activity) <==>
      && HasChildTagged(activity, Tcx("Id"))
      && forall lap :: lap in activity.children && lap.tag == Tcx("Lap") ==> LapComplete(lap)
  {
    FindChild(activity, Tcx("Id"));
    forall lap ensures lap in Laps(activity) <==> lap in activity.children && lap.tag == Tcx("Lap") {
      LapsAre(activity, lap);
    }
  }

  // ---------------------------------------------------------------------------
  // Cells

  /** Row k + 1 of the Activities table (after the header) is the row of the
      k-th activity, and its Sport cell is that activity's `Sport` attribute,
      "Unknown" without one. */
  lemma ActivityTableRow(root: Element, k: nat)
    requires AllComplete(Activities(root)) && k < |Activities(root)|
    ensures Convert(Parsed(root)).Success?
    ensures |Convert(Parsed(root)).value.activities| == |Activities(root)| + 1
    ensures Convert(Parsed(root)).value.activities[k + 1] == ActivityRow(Activities(root)[k])
    ensures Convert(Parsed(root)).value.activities[k + 1][1] ==
      (if "Sport" in Activities(root)[k].attrs then Activities(root)[k].attrs["Sport"] else "Unknown")
  {
    var acts := Activities(root);
    var table := [ActivityHeader] + ActivityRows(acts);
    ActivityRowsAt(acts, k);
    assert table[k + 1] == ActivityRow(acts[k]);
    assert Convert(Parsed(root)).value.activities == table;
  }

  /** The Id cell is the text of the first `Id` child. */
  lemma ActivityIdCell(activity: Element)
    ensures ActivityRow(activity)[0] ==
      (if Tagged(activity.children, Tcx("Id")) == [] then ""
       else TextOf(Tagged(activity.children, Tcx("Id"))[0]))
  {
    FindChild(activity, Tcx("Id"));
  }

  /** The creator cells (column 2 from `Creator/Name`, column 3 from
      `Creator/ProductID`) hold the text of the first such grandchild: the first
      child of the first `Creator` child that has one. They are "" when no
      `Creator` child has such a child. */
  lemma ActivityCreatorCell(activity: Element, col: nat)
    requires col == 2 || col == 3
    ensures var field := if col == 2 then "Name" else "ProductID";
      ActivityRow(activity)[col] ==
        match FirstWithChild(Tagged(activity.children, Tcx("Creator")), Tcx(field))
        case None => ""
        case Some(c) => TextOf(Tagged(c.children, Tcx(field))[0])
    ensures var field := if col == 2 then "Name" else "ProductID";
      (forall c, g :: c in activity.children && c.tag == Tcx("Creator") && g in c.children ==>
         g.tag != Tcx(field)) ==> ActivityRow(activity)[col] == ""
  {
    var field := if col == 2 then "Name" else "ProductID";
    FindChildOfChild(activity, Tcx("Creator"), Tcx(field));
  }

  /** The StartTime cell of lap row k (from 0) of an activity is the
      `StartTime` attribute of its k-th `Lap` child, "" without one. */
  lemma LapStartTimeCell(activity: Element, k: nat)
    requires k < |Laps(activity)|
    ensures |LapsOf(activity)| == |Laps(activity)|
    ensures LapsOf(activity)[k] == LapRow(ActivityId(activity), k + 1, ReadLaps(Laps(activity))[k])
    ensures LapsOf(activity)[k][11] ==
      (if "StartTime" in Laps(activity)[k].attrs then Laps(activity)[k].attrs["StartTime"] else "")
  {
    LapsOfRow(activity, k);
    MapAt(ReadLap, Laps(activity), k);
  }

  /** A cell whose path is one child step comes from the first child with that
      tag: its text for an unguarded lookup; for a guarded one, its text only if
      it has child elements of its own. */
  lemma ChildCells(e: Element, q: QName)
    ensures TextIfFound(e, [Child(q)]) ==
      (if Tagged(e.children, q) == [] then "" else TextOf(Tagged(e.children, q)[0]))
    ensures TextIfTruthy(e, [Child(q)]) ==
      (if Tagged(e.children, q) == [] || !Truthy(Tagged(e.children, q)[0]) then ""
       else TextOf(Tagged(e.children, q)[0]))
  {
    FindChild(e, q);
  }

  /** A guarded cell whose path is one child step is "" whenever every such
      child is a leaf: the guard is the element's truth value, which is false
      for an element without child elements, whatever its text. */
  lemma LeafChildCell(e: Element, q: QName)
    requires forall c :: c in e.children && c.tag == q ==> c.children == []
    ensures TextIfTruthy(e, [Child(q)]) == ""
  {
    FindChild(e, q);
  }

  /** A guarded cell with a text is the text of an element with children. */
  lemma TruthyCell(e: Element, path: seq<Step>)
    requires path != []
    ensures TextIfTruthy(e, path) != "" ==>
      Find(e, path).Some? && Truthy(Find(e, path).value) &&
      Find(e, path).value.tag == path[|path| - 1].tag && TextOf(Find(e, path).value) == TextIfTruthy(e, path)
  {
    FindTag(e, path);
  }

  /** The Time cell of a trackpoint whose `Time` children are leaves, as they are
      in a TCX file, is "". */
  lemma TrackTimeCell(tp: Element)
    requires forall c :: c in tp.children && c.tag == Tcx("Time") ==> c.children == []
    ensures ReadTrackpoint(tp).time == ""
  {
    LeafChildCell(tp, Tcx("Time"));
  }

  // ---------------------------------------------------------------------------
  // The conversion as a whole

  /** The conversion fails with `ParseError` on input that is not XML. On a
      parsed document it fails, always with `MissingRequired`, exactly when some
      `Activity` below the root has no `Id` child or has a `Lap` child that lacks
      one of the lap's required children. */
  lemma ConvertFails(doc: ParseOutcome)
    ensures doc.SyntaxError? ==> Convert(doc) == Failure(ParseError)
    ensures doc.Parsed? ==> (Convert(doc).Failure? ==> Convert(doc).error == MissingRequired)
    ensures doc.Parsed? ==>
      (Convert(doc).Failure? <==>
         exists a :: a in Descendants(doc.root) && a.tag == Tcx("Activity") &&
           (!HasChildTagged(a, Tcx("Id")) ||
            exists lap :: lap in a.children && lap.tag == Tcx("Lap") && !LapComplete(lap)))
  {
    if doc.Parsed? {
      var root := doc.root;
      var acts := Activities(root);
      if !AllComplete(acts) {
        var a :| a in acts && !ActivityComplete(a);
        ActivitiesAre(root, a);
        ActivityCompleteChildren(a);
      }
      forall a | a in Descendants(root) && a.tag == Tcx("Activity") &&
          (!HasChildTagged(a, Tcx("Id")) ||
           exists lap :: lap in a.children && lap.tag == Tcx("Lap") && !LapComplete(lap))
        ensures !AllComplete(acts)
      {
        ActivitiesAre(root, a);
        ActivityCompleteChildren(a);
      }
    }
  }

  /** When nothing required is missing, each table is its header row and then one
      row per activity, per lap and per trackpoint, every row as wide as its
      header. */
  lemma ConvertTables(root: Element)
    requires AllComplete(Activities(root))
    ensures Convert(Parsed(root)).Success?
    ensures var t := Convert(Parsed(root)).value;
      && t.activities[0] == ActivityHeader && |t.activities| == 1 + |Activities(root)|
      && t.laps[0] == LapHeader && |t.laps| == 1 + LapCount(Activities(root))
      && t.tracks[0] == TrackHeader && |t.tracks| == 1 + TrackCount(Activities(root))
      && RowsOfWidth(t.activities, |ActivityHeader|)
      && RowsOfWidth(t.laps, |LapHeader|)
      && RowsOfWidth(t.tracks, |TrackHeader|)
  {
    var acts := Activities(root);
    ActivityRowsWidth(acts);
    LapRowsWidth(acts);
    TrackRowsWidth(acts);
    LapRowsCount(acts);
    TrackRowsCount(acts);
    WidthConcat([ActivityHeader], ActivityRows(acts), |ActivityHeader|);
    WidthConcat([LapHeader], LapRows(acts), |LapHeader|);
    WidthConcat([TrackHeader], TrackRows(acts), |TrackHeader|);
  }

  /** A document without activities gives the three header rows alone. */
  lemma ConvertNoActivities(root: Element)
    requires Activities(root) == []
    ensures Convert(Parsed(root)) == Success(Tables([ActivityHeader], [LapHeader], [TrackHeader]))
  {
    var acts := Activities(root);
    assert ActivityRows(acts) == [] && LapRows(acts) == [] && TrackRows(acts) == [];
    assert [ActivityHeader] + [] == [ActivityHeader];
    assert [LapHeader] + [] == [LapHeader];
    assert [TrackHeader] + [] == [TrackHeader];
  }

  /** Serializing keeps the outcome, and each written table reads back as the
      rows that were written. */
  lemma SerializeRoundTrip(r: Result<Tables, Failure>)
    ensures Serialize(r).Success? <==> r.Success?
    ensures r.Failure? ==> Serialize(r).error == r.error
    ensures r.Success? ==>
      && DecodeTable(Serialize(r).value.activities) == Some(r.value.activities)
      && DecodeTable(Serialize(r).value.laps) == Some(r.value.laps)
      && DecodeTable(Serialize(r).value.tracks) == Some(r.value.tracks)
  {
    if r.Success? {
      TableRoundTrip(r.value.activities);
      TableRoundTrip(r.value.laps);
      TableRoundTrip(r.value.tracks);
    }
  }
}
