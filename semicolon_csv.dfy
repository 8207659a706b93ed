/**
  Python's `csv.writer(buf, delimiter=';')`: the excel dialect with a semicolon
  separator, minimal quoting, doubled quote characters and CRLF record ends (the
  quoting rules of section 2 of RFC 4180, rules 4 to 7, with ';' for ','). Beside
  the writer stands a reader for the same format, and the round trip between them.
*/
module SemicolonCsv {
  import opened Options

  type Row = seq<string>

  const Delimiter: char := ';'
  const Quote: char := '"'
  const Terminator: string := "\r\n"

  /** QUOTE_MINIMAL: a field is quoted when it holds the delimiter, the quote
      character, or a character of a line break. */
  predicate NeedsQuotes(f: string) {
    Delimiter in f || Quote in f || '\r' in f || '\n' in f
  }

  /** Every quote character doubled (`doublequote=True`). */
  function Escape(f: string): string {
    if f == [] then []
    else (if f[0] == Quote then [Quote, Quote] else [f[0]]) + Escape(f[1..])
  }

  /** One field as the writer emits it: left as it is, or wrapped in quotes with
      its own quotes doubled. */
  function EncodeField(f: string): (r: string)
    ensures r == f <==> !NeedsQuotes(f)
    ensures NeedsQuotes(f) ==> |r| >= |f| + 2 && r[0] == Quote && r[|r| - 1] == Quote
    ensures |r| == 0 <==> f == []
    ensures |r| > 0 ==> r[0] != Delimiter && r[0] != '\r'
  {
    if NeedsQuotes(f) then EscapeLength(f); [Quote] + Escape(f) + [Quote] else f
  }

  lemma {:induction false} EscapeLength(f: string)
    ensures |Escape(f)| >= |f|
  {
    if f != [] {
      EscapeLength(f[1..]);
    }
  }

  /** The fields of a record, encoded and separated by the delimiter. */
  function JoinFields(row: Row): string {
    if row == [] then []
    else if |row| == 1 then EncodeField(row[0])
    else EncodeField(row[0]) + [Delimiter] + JoinFields(row[1..])
  }

  /** `writer.writerow(row)`: the fields, then CRLF. A record that is one empty
      field is written as `""`, so that it is not read back as a blank line. */
  function EncodeRecord(row: Row): (r: string)
    ensures |r| >= 2 && r[|r| - 2..] == Terminator
  {
    (if row == [""] then [Quote, Quote] else JoinFields(row)) + Terminator
  }

  /** The text of a buffer after `rows` were written to it one after another. */
  function EncodeTable(rows: seq<Row>): string {
    if rows == [] then [] else EncodeRecord(rows[0]) + EncodeTable(rows[1..])
  }

  /** How the writer renders a non-negative integer field: `str(n)`. */
  function NatToString(n: nat): (s: string)
    ensures |s| > 0 && IsDigits(s)
  {
    if n < 10 then [DigitChar(n)] else NatToString(n / 10) + [DigitChar(n % 10)]
  }

  function DigitChar(d: nat): (c: char)
    requires d < 10
    ensures '0' <= c <= '9' && (c as int) - ('0' as int) == d
  {
    (('0' as int) + d) as char
  }

  /** A `csv.writer` over an `io.StringIO`: `buffer` is what the StringIO holds. */
  class RowWriter {
    var buffer: string

    constructor ()
      ensures buffer == []
    {
      buffer := [];
    }

    /** `writer.writerow(row)`: appends the record of `row` to the buffer. */
    method WriteRow(row: Row)
      modifies this
      ensures buffer == old(buffer) + EncodeRecord(row)
    {
      buffer := buffer + EncodeRecord(row);
    }
  }

  // ---------------------------------------------------------------------------
  // A reader for the same dialect

  /** Reads an unquoted field: everything up to a delimiter, a CR or the end. */
  function ParseUnquoted(s: string): (res: (string, string))
    ensures res.0 + res.1 == s
  {
    if s == [] || s[0] == Delimiter || s[0] == '\r' then ([], s)
    else
      var (f, rest) := ParseUnquoted(s[1..]);
      ([s[0]] + f, rest)
  }

  /** Reads the inside of a quoted field, after its opening quote: a doubled quote
      stands for one quote, a single quote closes the field. None when the input
      ends before the closing quote. */
  function ParseQuoted(s: string): (res: Option<(string, string)>)
    ensures res.Some? ==> |res.value.1| < |s|
  {
    if s == [] then None
    else if s[0] == Quote then
      if |s| > 1 && s[1] == Quote then
        match ParseQuoted(s[2..])
        case None => None
        case Some((f, rest)) => Some(([Quote] + f, rest))
      else Some(([], s[1..]))
    else
      match ParseQuoted(s[1..])
      case None => None
      case Some((f, rest)) => Some(([s[0]] + f, rest))
  }

  function ParseField(s: string): (res: Option<(string, string)>)
    ensures res.Some? ==> |res.value.1| <= |s|
  {
    if s != [] && s[0] == Quote then ParseQuoted(s[1..])
    else Some(ParseUnquoted(s))
  }

  /** Reads fields separated by the delimiter up to and including the CRLF that
      ends the record. */
  function ParseFields(s: string): (res: Option<(Row, string)>)
    ensures res.Some? ==> |res.value.1| < |s|
    decreases |s|
  {
    match ParseField(s)
    case None => None
    case Some((f, rest)) =>
      if rest != [] && rest[0] == Delimiter then
        match ParseFields(rest[1..])
        case None => None
        case Some((fs, rest')) => Some(([f] + fs, rest'))
      else if |rest| >= 2 && rest[..2] == Terminator then Some(([f], rest[2..]))
      else None
  }

  /** Reads one record; a blank line is the record with no fields. */
  function DecodeRecord(s: string): (res: Option<(Row, string)>)
    ensures res.Some? ==> |res.value.1| < |s|
  {
    if |s| >= 2 && s[..2] == Terminator then Some(([], s[2..])) else ParseFields(s)
  }

  /** Reads records until the text runs out. */
  function DecodeTable(s: string): Option<seq<Row>>
    decreases |s|
  {
    if s == [] then Some([])
    else
      match DecodeRecord(s)
      case None => None
      case Some((row, rest)) =>
        match DecodeTable(rest)
        case None => None
        case Some(rows) => Some([row] + rows)
  }

  // ---------------------------------------------------------------------------
  // Round trip

  /** What may follow a field in written text: a delimiter or a CRLF. */
  predicate FieldEnd(tail: string) {
    (tail != [] && tail[0] == Delimiter) || (|tail| >= 2 && tail[..2] == Terminator)
  }

  lemma {:induction false} UnquotedRoundTrip(f: string, tail: string)
    requires !NeedsQuotes(f) && FieldEnd(tail)
    ensures ParseUnquoted(f + tail) == (f, tail)
  {
    if f == [] {
      assert f + tail == tail;
    } else {
      assert f[0] in f;
      assert (f + tail)[0] == f[0];
      assert (f + tail)[1..] == f[1..] + tail;
      assert !NeedsQuotes(f[1..]) by {
        assert forall c :: c in f[1..] ==> c in f;
      }
      UnquotedRoundTrip(f[1..], tail);
      assert [f[0]] + f[1..] == f;
    }
  }

  lemma {:induction false} QuotedRoundTrip(f: string, tail: string)
    requires tail == [] || tail[0] != Quote
    ensures ParseQuoted(Escape(f) + [Quote] + tail) == Some((f, tail))
  {
    var s := Escape(f) + [Quote] + tail;
    if f == [] {
      assert s == [Quote] + tail;
      assert s[1..] == tail;
    } else {
      QuotedRoundTrip(f[1..], tail);
      var s' := Escape(f[1..]) + [Quote] + tail;
      assert Escape(f) == (if f[0] == Quote then [Quote, Quote] else [f[0]]) + Escape(f[1..]);
      if f[0] == Quote {
        assert s == [Quote, Quote] + s';
        assert s[2..] == s';
      } else {
        assert s == [f[0]] + s';
        assert s[1..] == s';
      }
      assert [f[0]] + f[1..] == f;
    }
  }

  /** A written field, followed by what the writer puts after it, reads back as
      the same field. */
  lemma FieldRoundTrip(f: string, tail: string)
    requires FieldEnd(tail)
    ensures ParseField(EncodeField(f) + tail) == Some((f, tail))
  {
    if NeedsQuotes(f) {
      QuotedFieldRoundTrip(f, tail);
    } else {
      PlainFieldRoundTrip(f, tail);
    }
  }

  lemma QuotedFieldRoundTrip(f: string, tail: string)
    requires NeedsQuotes(f) && FieldEnd(tail)
    ensures ParseField(EncodeField(f) + tail) == Some((f, tail))
  {
    assert tail[0] != Quote;
    QuotedRoundTrip(f, tail);
    var inner := Escape(f) + [Quote] + tail;
    assert EncodeField(f) + tail == [Quote] + inner;
    assert ([Quote] + inner)[1..] == inner;
  }

  lemma PlainFieldRoundTrip(f: string, tail: string)
    requires !NeedsQuotes(f) && FieldEnd(tail)
    ensures ParseField(EncodeField(f) + tail) == Some((f, tail))
  {
    var s := EncodeField(f) + tail;
    assert s == f + tail;
    UnquotedRoundTrip(f, tail);
    if f != [] {
      assert f[0] in f;
    }
    assert s[0] != Quote;
  }

  lemma LastFieldRoundTrip(f: string, rest: string)
    ensures ParseFields(EncodeField(f) + Terminator + rest) == Some(([f], rest))
  {
    var tail := Terminator + rest;
    assert tail[..2] == Terminator && tail[2..] == rest;
    assert EncodeField(f) + Terminator + rest == EncodeField(f) + tail;
    FieldRoundTrip(f, tail);
  }

  lemma NextFieldRoundTrip(f: string, more: string, fs: Row, rest: string)
    requires ParseFields(more) == Some((fs, rest))
    ensures ParseFields(EncodeField(f) + [Delimiter] + more) == Some(([f] + fs, rest))
  {
    var tail := [Delimiter] + more;
    assert tail[1..] == more;
    assert EncodeField(f) + [Delimiter] + more == EncodeField(f) + tail;
    FieldRoundTrip(f, tail);
  }

  lemma {:induction false} JoinRoundTrip(row: Row, rest: string)
    requires row != []
    ensures ParseFields(JoinFields(row) + Terminator + rest) == Some((row, rest))
    decreases |row|
  {
    if |row| == 1 {
      LastFieldRoundTrip(row[0], rest);
      assert [row[0]] == row;
    } else {
      var more := JoinFields(row[1..]) + Terminator + rest;
      assert JoinFields(row) + Terminator + rest == EncodeField(row[0]) + [Delimiter] + more by {
        assert JoinFields(row) == EncodeField(row[0]) + [Delimiter] + JoinFields(row[1..]);
      }
      JoinRoundTrip(row[1..], rest);
      NextFieldRoundTrip(row[0], more, row[1..], rest);
      assert [row[0]] + row[1..] == row;
    }
  }

  /** Reading back one written record gives its fields and leaves what follows. */
  lemma RecordRoundTrip(row: Row, rest: string)
    ensures DecodeRecord(EncodeRecord(row) + rest) == Some((row, rest))
  {
    if row == [] {
      EmptyRecordRoundTrip(rest);
    } else if row == [""] {
      BlankFieldRoundTrip(rest);
    } else {
      FieldsRecordRoundTrip(row, rest);
    }
  }

  lemma EmptyRecordRoundTrip(rest: string)
    ensures DecodeRecord(EncodeRecord([]) + rest) == Some(([], rest))
  {
    var s := EncodeRecord([]) + rest;
    assert s == Terminator + rest;
    assert s[..2] == Terminator && s[2..] == rest;
  }

  lemma BlankFieldRoundTrip(rest: string)
    ensures DecodeRecord(EncodeRecord([""]) + rest) == Some(([""], rest))
  {
    var s := EncodeRecord([""]) + rest;
    var tail := Terminator + rest;
    assert tail[..2] == Terminator && tail[2..] == rest;
    assert s == [Quote] + ([Quote] + tail);
    assert s[1..] == [] + [Quote] + tail;
    QuotedRoundTrip([], tail);
    assert ParseField(s) == Some(([], tail));
    assert ParseFields(s) == Some(([""], rest));
  }

  lemma FieldsRecordRoundTrip(row: Row, rest: string)
    requires row != [] && row != [""]
    ensures DecodeRecord(EncodeRecord(row) + rest) == Some((row, rest))
  {
    var j := JoinFields(row);
    JoinStart(row);
    var s := j + Terminator + rest;
    assert EncodeRecord(row) + rest == s;
    assert s[0] == j[0];
    JoinRoundTrip(row, rest);
  }

  /** A record of fields never starts like a blank line. */
  lemma JoinStart(row: Row)
    requires row != [] && row != [""]
    ensures JoinFields(row) != [] && JoinFields(row)[0] != '\r'
  {
    if |row| == 1 {
      assert row == [row[0]];
      assert row[0] != [];
    } else {
      var e := EncodeField(row[0]);
      assert JoinFields(row) == e + [Delimiter] + JoinFields(row[1..]);
      if e == [] {
        assert JoinFields(row)[0] == Delimiter;
      } else {
        assert JoinFields(row)[0] == e[0];
      }
    }
  }

  /** Reading a written buffer gives back exactly the rows written to it. */
  lemma {:induction false} TableRoundTrip(rows: seq<Row>)
    ensures DecodeTable(EncodeTable(rows)) == Some(rows)
  {
    if rows != [] {
      RecordRoundTrip(rows[0], EncodeTable(rows[1..]));
      TableRoundTrip(rows[1..]);
      assert [rows[0]] + rows[1..] == rows;
    }
  }

  /** Writing one more row appends its record to the buffer. */
  lemma {:induction false} EncodeTableAppend(rows: seq<Row>, row: Row)
    ensures EncodeTable(rows + [row]) == EncodeTable(rows) + EncodeRecord(row)
  {
    if rows != [] {
      assert (rows + [row])[1..] == rows[1..] + [row];
      EncodeTableAppend(rows[1..], row);
    }
  }

  /** A buffer that holds `b0`, then the rows `xs`, then the row `r`, holds `b0`
      and then the rows `xs + [r]`. */
  lemma WrittenAppend(b0: string, xs: seq<Row>, r: Row, b: string)
    requires b == b0 + EncodeTable(xs) + EncodeRecord(r)
    ensures b == b0 + EncodeTable(xs + [r])
  {
    EncodeTableAppend(xs, r);
  }

  /** A buffer that holds `b0`, then the rows `xs`, then the rows `ys`, holds `b0`
      and then the rows `xs + ys`. */
  lemma WrittenConcat(b0: string, xs: seq<Row>, ys: seq<Row>, b: string)
    requires b == b0 + EncodeTable(xs) + EncodeTable(ys)
    ensures b == b0 + EncodeTable(xs + ys)
  {
    EncodeTableConcat(xs, ys);
  }

  /** Writing two runs of rows one after the other gives the two texts one after
      the other. */
  lemma {:induction false} EncodeTableConcat(xs: seq<Row>, ys: seq<Row>)
    ensures EncodeTable(xs + ys) == EncodeTable(xs) + EncodeTable(ys)
  {
    if xs == [] {
      assert xs + ys == ys;
    } else {
      assert (xs + ys)[0] == xs[0];
      assert (xs + ys)[1..] == xs[1..] + ys;
      EncodeTableConcat(xs[1..], ys);
    }
  }

  // ---------------------------------------------------------------------------
  // The integer rendering is decimal

  predicate IsDigits(s: string) {
    forall i :: 0 <= i < |s| ==> '0' <= s[i] <= '9'
  }

  /** The number a string of decimal digits denotes. */
  function DigitsValue(s: string): nat
    requires IsDigits(s)
  {
    if s == [] then 0
    else DigitsValue(s[..|s| - 1]) * 10 + ((s[|s| - 1] as int) - ('0' as int))
  }

  /** `str(n)` spells `n` in decimal with no leading zero. */
  lemma {:induction false} NatToStringValue(n: nat)
    ensures DigitsValue(NatToString(n)) == n
    ensures n > 0 ==> NatToString(n)[0] != '0'
  {
    var s := NatToString(n);
    if n >= 10 {
      NatToStringValue(n / 10);
      assert s[..|s| - 1] == NatToString(n / 10);
    }
  }

  /** Different numbers are written differently, so row numbers written as text
      stay distinct. */
  lemma NatToStringInjective(m: nat, n: nat)
    ensures NatToString(m) == NatToString(n) ==> m == n
  {
    NatToStringValue(m);
    NatToStringValue(n);
  }
}
