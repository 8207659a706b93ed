# tcx_to_csv: a Dafny model of `parse_tcx_bytes`

`parse_tcx_bytes` turns a TCX (Garmin Training Center XML) document into three
semicolon-separated tables:

- **Activities**: one row per `Activity` element anywhere below the root.
- **Laps**: one row per `Lap` child of an activity, numbered from 1 within the activity.
- **Trackpoints**: one row per `Trackpoint` at any depth below a lap, numbered from 1 within the lap.

Each table starts with a fixed header row. The function walks the tree with three
nested loops (activities, then laps, then trackpoints). It writes each row through a
`csv.writer` with `;` as the delimiter into an in-memory buffer.

The model has five modules:

- `Options` (`options.dfy`): `Option` and `Result`.
- `ElementTree` (`element_tree.dfy`): the part of `xml.etree.ElementTree` the
  converter uses.
  - An already-parsed element tree with qualified tags, attributes, text and children.
  - `Element.__bool__`: an element is true when it has child elements.
  - The ElementPath lookups `findall`/`find` for child steps and `.//` descendant steps.
  - `.//` walks the elements below the start element in document (pre-)order, and not
    the start element itself.
- `SemicolonCsv` (`semicolon_csv.dfy`): `csv.writer(buf, delimiter=';')`.
  - The excel dialect with minimal quoting, doubled quote characters and CRLF record ends.
  - These are the quoting rules 4 to 7 of section 2 of RFC 4180, with `;` in place of `,`.
  - `str()` of the lap and trackpoint numbers.
  - A `RowWriter` class whose `buffer` field is the text the `StringIO` holds.
  - A decoder for the same format, with the round trip between the two.
- `TcxFlattener` (`tcx_flattener.dfy`): the conversion itself, in two forms.
  - `Convert` is the declarative description: the three tables as rows, or a failure.
  - `ParseTcxBytes` is the step-by-step program: three writers, three nested loops, a
    method per loop and per loop body.
  - Each method's postcondition ties the new buffer contents to `Convert`. The
    top-level one is `r == Serialize(Convert(doc))`.
- `TcxProperties` (`tcx_properties.dfy`): what the tables look like.
  - Header rows, row widths, row counts and row order.
  - Lap and trackpoint numbering, and which element each row stands for.
  - Cell contents and defaults.
  - Exactly when the conversion fails.
  - That the written text reads back as the tables.

The model follows the code as written.

- **Guarded optional cells test truthiness.** They read `x.text if x else ""`, and an
  element is true only when it has child elements. A leaf element such as `Time`,
  `AltitudeMeters`, `MaximumSpeed` or `HeartRateBpm/Value` therefore gives `""` even
  when it is present and has text (`LeafChildCell`, `TrackTimeCell`). In an ordinary
  TCX file these are all leaves, so the Time, altitude, distance, maximum-speed,
  heart-rate and position columns come out empty.
- **Missing required elements make the conversion fail.** `.text` is read unguarded on
  the lookups of `Id` and of the lap's `TotalTimeSeconds`, `DistanceMeters`,
  `Calories`, `Intensity` and `TriggerMethod`. When one of them finds nothing, the
  program raises and returns no tables at all. The model reports this as the failure
  `MissingRequired`, beside `ParseError` for input that is not XML.
- **The cadence lookups use the core namespace.** They look for `LX` in the core TCX
  namespace, not the extension one.

## Model

| member | source | states |
|---|---|---|
| TcxFlattener.ParseTcxBytes | streamlit_app.py:6-80 | the three buffers are exactly the serialized tables of `Convert`; no output at all on a parse error or a missing required element |
| TcxFlattener.Convert | streamlit_app.py:6-73 | the tables the conversion produces, or its failure; no contract of its own: `ParseTcxBytes` is proved to produce it, and `ConvertTables`, `ConvertFails`, `ConvertNoActivities` and `ActivityTableRow` state what it is |
| TcxFlattener.ActivityRow | streamlit_app.py:36-44 | the four cells of an activity's row; `ActivityIdCell`, `ActivityTableRow` and `ActivityCreatorCell` state them |
| TcxFlattener.ReadLap | streamlit_app.py:49-59 | the lookups made on one lap, in column order; `ChildCells`, `LeafChildCell`, `TruthyCell` and `LapStartTimeCell` state them |
| TcxFlattener.ReadTrackpoint | streamlit_app.py:65-72 | the lookups made on one trackpoint, in column order; `ChildCells`, `LeafChildCell`, `TruthyCell` and `TrackTimeCell` state them |
| TcxFlattener.TextIfFound | streamlit_app.py:42-43 | the text of the first match, "" when there is none; `ChildCells` states it for one-step paths, `ActivityCreatorCell` for `Creator/...` |
| TcxFlattener.TextIfTruthy | streamlit_app.py:52-56 | the text of the first match only when it has child elements, else ""; `ChildCells`, `LeafChildCell` and `TruthyCell` state it |
| ElementTree.Find | streamlit_app.py:36-39 | the first match of `findall`, or none; `FindTag`, `FindChildOfChild` and `FindChild` state it |
| ElementTree.FindAll | streamlit_app.py:35 | every match of a path, in document order; `FindAllChild` and `FindAllDescendant` state it |
| ElementTree.Descendants | streamlit_app.py:62 | the elements below, in document order; `DescendantsMembers`, `DescendantsSmaller` and `SelfNotDescendant` state it |
| ElementTree.Truthy | streamlit_app.py:52 | an element's truth value, "has child elements"; `LeafChildCell` and `TruthyCell` state its effect on the cells |
| ElementTree.Get | streamlit_app.py:37 | an attribute, or a default; `ActivityTableRow` and `LapStartTimeCell` state the cells it gives |
| SemicolonCsv.EncodeTable | streamlit_app.py:40 | the text of a buffer after writing rows one by one; `TableRoundTrip` and `EncodeTableConcat` state it |
| SemicolonCsv.JoinFields | streamlit_app.py:18-20 | the encoded fields joined by `;`; `JoinRoundTrip` states that it reads back |
| SemicolonCsv.Escape | streamlit_app.py:18-20 | every quote character doubled; `QuotedRoundTrip` states that the reader undoes it |
| SemicolonCsv.JoinRoundTrip | streamlit_app.py:18-20 | the joined fields of a non-empty row, followed by CRLF, read back as the row, leaving what follows unread |
| SemicolonCsv.QuotedRoundTrip | streamlit_app.py:18-20 | inside quotes, a field with its quote characters doubled, then the closing quote, reads back as the field, leaving what follows unread |
| TcxFlattener.NewTable | streamlit_app.py:14-32 | a fresh writer whose buffer holds exactly the header row |
| TcxFlattener.WriteActivities | streamlit_app.py:35-73 | succeeds iff every activity has its required elements; then each buffer has gained the rows of all activities, in document order |
| TcxFlattener.WriteActivity | streamlit_app.py:35-46 | succeeds iff the activity has an `Id` child and complete laps; then it appends the activity row, the activity's lap rows and its trackpoint rows |
| TcxFlattener.WriteLaps | streamlit_app.py:46-73 | succeeds iff every lap is complete; then the lap buffer gains the numbered lap rows and the track buffer the trackpoint rows lap after lap |
| TcxFlattener.WriteLapAndTracks | streamlit_app.py:46-73 | one lap: it extends the rows of the first i laps to the first i + 1, or reports that the lap list is incomplete |
| TcxFlattener.WriteLap | streamlit_app.py:47-60 | succeeds iff the lap has the five required children; then it appends exactly the row of the lap's cells under the activity Id and lap number; otherwise it writes nothing |
| TcxFlattener.WriteTrackpoints | streamlit_app.py:62-73 | appends one row per trackpoint below the lap, numbered from 1 |
| TcxFlattener.WriteTrackpoint | streamlit_app.py:63-73 | appends the row of trackpoint j + 1, so the buffer holds the rows of the first j + 1 trackpoints |
| SemicolonCsv.RowWriter.constructor | streamlit_app.py:14-20 | a writer starts with an empty buffer |
| SemicolonCsv.RowWriter.WriteRow | streamlit_app.py:40 | `writerow` appends exactly the encoded record to the buffer |
| SemicolonCsv.EncodeField | streamlit_app.py:18-20 | a field is left as it is iff it needs no quotes (no `;`, `"`, CR or LF); otherwise it is wrapped in quotes |
| SemicolonCsv.EncodeRecord | streamlit_app.py:18-20 | every record ends in CRLF |
| SemicolonCsv.FieldRoundTrip | streamlit_app.py:18-20 | an encoded field followed by a delimiter or CRLF reads back as the field |
| SemicolonCsv.RecordRoundTrip | streamlit_app.py:40 | an encoded record reads back as the same fields, whatever follows it |
| SemicolonCsv.TableRoundTrip | streamlit_app.py:18-20 | a buffer of written records reads back as exactly those rows |
| SemicolonCsv.EncodeTableConcat | streamlit_app.py:40 | writing two lists of rows one after the other is writing their concatenation |
| SemicolonCsv.NatToString | streamlit_app.py:48 | `str(n)` of a number is a non-empty string of decimal digits |
| SemicolonCsv.NatToStringValue | streamlit_app.py:48 | the digits of `str(n)` denote n, with no leading zero |
| SemicolonCsv.NatToStringInjective | streamlit_app.py:64 | different numbers are written differently |
| ElementTree.FindAllChild | streamlit_app.py:46 | a child step selects the children with that tag, in child order, and nothing else |
| ElementTree.FindAllDescendant | streamlit_app.py:35 | a `.//` step selects the elements below with that tag, in document order, and nothing else |
| ElementTree.DescendantsMembers | streamlit_app.py:62 | the elements below `e` are its children and the elements below them, at any depth |
| ElementTree.DescendantsSmaller | streamlit_app.py:35 | every element below `e` roots a smaller subtree than `e` |
| ElementTree.SelfNotDescendant | streamlit_app.py:35 | a `.//` search never returns the element it starts from |
| ElementTree.FindTag | streamlit_app.py:38-39 | what `find` returns carries the last tag of the path |
| ElementTree.FindChildOfChild | streamlit_app.py:38-39 | `find("a/b")` misses iff no `a` child has a `b` child; a hit is the first `b` child of the first `a` child that has one |
| ElementTree.ApplyAllChildFirst | streamlit_app.py:38-39 | a child step from a list of elements selects nothing iff none has such a child; its first pick is the first such child of the first element that has one |
| ElementTree.FirstWithChild | streamlit_app.py:38-39 | the element it picks is in the list and has a child with the tag; it picks none iff no element of the list has one |
| TcxProperties.ActivitiesAre | streamlit_app.py:35 | the activities are exactly the `Activity` elements below the root; the root itself never is one |
| TcxProperties.LapsAre | streamlit_app.py:46 | the laps of an activity are exactly its `Lap` children |
| TcxProperties.TrackpointsAre | streamlit_app.py:62 | the trackpoints of a lap are exactly the `Trackpoint` elements at any depth below it |
| TcxProperties.ActivityRowsAt | streamlit_app.py:35-44 | one activity row per activity; row k is the row of the k-th activity in document order |
| TcxProperties.ActivityRowsWidth | streamlit_app.py:23-44 | one activity row per activity, each as wide as the Activities header |
| TcxProperties.LapsOfCount | streamlit_app.py:46-47 | an activity gets exactly one lap row per `Lap` child |
| TcxProperties.LapsOfRow | streamlit_app.py:46-60 | lap row k of an activity holds the activity Id, the number k + 1 and the cells of its k-th `Lap` child |
| TcxProperties.LapBlockRows | streamlit_app.py:46-48 | the first m lap rows are the laps' cells in order, numbered 1..m |
| TcxProperties.LapBlockNumbers | streamlit_app.py:46-48 | lap rows carry the activity Id and numbers from 1 in order; no two share a number |
| TcxProperties.LapTracksCount | streamlit_app.py:62-63 | a lap gets exactly one trackpoint row per `Trackpoint` below it |
| TcxProperties.LapTracksRow | streamlit_app.py:62-73 | trackpoint row k of a lap holds the activity Id, the lap number, the number k + 1 and the cells of the k-th trackpoint below the lap |
| TcxProperties.TrackBlockRows | streamlit_app.py:62-64 | the first m trackpoint rows are the trackpoints' cells in order, numbered 1..m |
| TcxProperties.TrackBlockNumbers | streamlit_app.py:62-64 | trackpoint rows carry the activity Id and lap number and numbers from 1 in order; no two share a number |
| TcxProperties.ActivityTracksPrefix | streamlit_app.py:46-73 | the trackpoint rows of earlier laps all come before those of later laps |
| TcxProperties.LapRowsPrefix | streamlit_app.py:35-60 | the lap rows of earlier activities all come before those of later activities |
| TcxProperties.TrackRowsPrefix | streamlit_app.py:35-73 | the trackpoint rows of earlier activities all come before those of later activities |
| TcxProperties.LapsOfWidth | streamlit_app.py:24-60 | every lap row is as wide as the Laps header |
| TcxProperties.LapTracksWidth | streamlit_app.py:29-73 | every trackpoint row of a lap is as wide as the Trackpoints header |
| TcxProperties.ActivityTracksWidth | streamlit_app.py:29-73 | every trackpoint row of an activity is as wide as the Trackpoints header |
| TcxProperties.LapRowsWidth | streamlit_app.py:24-60 | every row of the Laps table body is as wide as its header |
| TcxProperties.TrackRowsWidth | streamlit_app.py:29-73 | every row of the Trackpoints table body is as wide as its header |
| TcxProperties.LapRowsCount | streamlit_app.py:35-47 | the Laps table has one row per `Lap` child of every activity |
| TcxProperties.ActivityTracksCount | streamlit_app.py:46-63 | an activity has one trackpoint row per trackpoint below each of its laps |
| TcxProperties.TrackRowsCount | streamlit_app.py:35-63 | the Trackpoints table has one row per trackpoint below every lap of every activity |
| TcxProperties.FindChild | streamlit_app.py:36-51 | a one-step child lookup hits iff such a child exists, and returns the first one |
| TcxProperties.LapCompleteChildren | streamlit_app.py:49-59 | a lap has what its row reads unguarded iff it has `TotalTimeSeconds`, `DistanceMeters`, `Calories`, `Intensity` and `TriggerMethod` children |
| TcxProperties.ActivityCompleteChildren | streamlit_app.py:36-46 | an activity has what its rows read unguarded iff it has an `Id` child and all its `Lap` children are complete |
| TcxProperties.ActivityTableRow | streamlit_app.py:35-44 | on success, row k + 1 of the Activities table is the k-th activity's row, and its Sport cell is that activity's `Sport` attribute, "Unknown" without one |
| TcxProperties.ActivityIdCell | streamlit_app.py:36 | the Id cell is the text of the first `Id` child |
| TcxProperties.ActivityCreatorCell | streamlit_app.py:38-43 | a creator cell is the text of the first `Name` (`ProductID`) child of the first `Creator` child that has one, and "" when no `Creator` child has one |
| TcxProperties.LapStartTimeCell | streamlit_app.py:46-58 | the StartTime cell of lap row k of an activity is the `StartTime` attribute of its k-th `Lap` child, "" without one |
| TcxProperties.ChildCells | streamlit_app.py:49-72 | a one-step cell is the text of the first such child; a guarded one only when that child has child elements, else "" |
| TcxProperties.LeafChildCell | streamlit_app.py:54-72 | a guarded one-step cell is "" when every such child is a leaf, whatever its text |
| TcxProperties.TruthyCell | streamlit_app.py:52-72 | a non-empty guarded cell is the text of a found element with the path's last tag and with child elements |
| TcxProperties.TrackTimeCell | streamlit_app.py:72 | a trackpoint whose `Time` children are leaves gets "" in the Time cell |
| TcxProperties.ConvertFails | streamlit_app.py:7-59 | input that is not XML fails with `ParseError`; a parsed document fails, always with `MissingRequired`, iff some `Activity` below the root has no `Id` child or has a `Lap` child that is not complete |
| TcxProperties.ConvertTables | streamlit_app.py:23-73 | on success each table is its header, then one row per activity, per lap or per trackpoint, every row as wide as its header |
| TcxProperties.ConvertNoActivities | streamlit_app.py:23-35 | a document with no activities gives the three header rows alone |
| TcxProperties.SerializeRoundTrip | streamlit_app.py:18-20 | serializing keeps success or the failure, and each written buffer reads back as its table |

## Left out

- `main()` and the Streamlit page (streamlit_app.py:83-112): upload, messages and download buttons.
- The XML byte parser `ET.fromstring` (streamlit_app.py:7). The input is an already-parsed tree, or `SyntaxError` for input that is not well-formed XML. Encoding detection, entities, and the resolution of `tcx:`/`ext:` prefixes are library internals. The model's paths use the resolved qualified names.
- The `io.StringIO` objects and the final UTF-8 encoding (streamlit_app.py:14-16, 76-80). Each output is the buffer's text; the byte encoding is not modelled.
- The exception itself. A missing required element raises `AttributeError` partway through, and the partial buffers are lost with it. The model returns `Failure(MissingRequired)` with no output, and does not say which element was missing.
- Python's deprecation warning on the truth value of an `Element`. Only its result, "has child elements", is modelled.
- Required lap cells are read with the `find`-or-"" function `TextIfFound`. The rows are only defined when those lookups all succeed, so the "" branch is never used for them.
- A `None` text is written as an empty field, the way `csv.writer` renders `None`. The model does not otherwise tell a `None` text from an empty one.
- Attribute order, comments, processing instructions and the tail text of elements play no part in the lookups and are not modelled.
