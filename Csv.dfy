/** The CSV text the export button produces: every field wrapped in double
    quotes with inner quotes doubled, fields joined by ",", rows joined by
    "\r\n" with no trailing separator. A decoder for that format is the
    partner that shows nothing is lost. */
module Csv {
  import opened Options
  import opened Text

  /** `c.replace(/"/g, '""')`: every double quote doubled. */
  function Escape(f: string): (r: string)
    ensures '"' !in f ==> r == f
    ensures |r| >= |f|
  {
    if f == [] then []
    else (if f[0] == '"' then "\"\"" else [f[0]]) + Escape(f[1..])
  }

  /** One field as written: `"` + escaped text + `"`. */
  function Quote(f: string): string
  {
    "\"" + Escape(f) + "\""
  }

  /** One row: its quoted fields joined by ",". */
  function Line(fields: seq<string>): string
  {
    Join(seq(|fields|, i requires 0 <= i < |fields| => Quote(fields[i])), ",")
  }

  /** The whole table: its lines joined by "\r\n". */
  function Encode(table: seq<seq<string>>): string
  {
    Join(seq(|table|, i requires 0 <= i < |table| => Line(table[i])), "\r\n")
  }

  /** Reads the inside of a quoted field up to its closing quote, turning
      each `""` back into `"`; gives the text and what follows the quote. */
  function ReadBody(s: string): (r: Option<(string, string)>)
    ensures r.Some? ==> |r.value.1| < |s|
  {
    if s == [] then None
    else if s[0] == '"' then
      if |s| >= 2 && s[1] == '"' then
        match ReadBody(s[2..])
        case None => None
        case Some((f, rest)) => Some(("\"" + f, rest))
      else Some(("", s[1..]))
    else
      match ReadBody(s[1..])
      case None => None
      case Some((f, rest)) => Some(([s[0]] + f, rest))
  }

  /** Reads one row of comma-separated quoted fields; stops before
      whatever follows the last field. */
  function ReadFields(s: string): (r: Option<(seq<string>, string)>)
    ensures r.Some? ==> |r.value.1| < |s|
    decreases |s|
  {
    if s == [] || s[0] != '"' then None
    else
      match ReadBody(s[1..])
      case None => None
      case Some((f, rest)) =>
        if rest != [] && rest[0] == ',' then
          match ReadFields(rest[1..])
          case None => None
          case Some((fs, tail)) => Some(([f] + fs, tail))
        else Some(([f], rest))
  }

  /** Reads rows separated by "\r\n" up to the end of the text. */
  function Decode(s: string): Option<seq<seq<string>>>
    decreases |s|
  {
    match ReadFields(s)
    case None => None
    case Some((row, rest)) =>
      if rest == [] then Some([row])
      else if |rest| >= 2 && rest[0] == '\r' && rest[1] == '\n' then
        match Decode(rest[2..])
        case None => None
        case Some(rows) => Some([row] + rows)
      else None
  }

  /** Reading an escaped field body followed by its closing quote gives the
      field back, provided the quote is not followed by another quote. */
  lemma {:induction false} ReadEscaped(f: string, rest: string)
    requires rest == [] || rest[0] != '"'
    ensures ReadBody(Escape(f) + ("\"" + rest)) == Some((f, rest))
  {
    if f == [] {
      assert Escape(f) + ("\"" + rest) == "\"" + rest;
      DropPrefix("\"", rest);
    } else {
      ReadEscaped(f[1..], rest);
      ReadEscapedStep(f, "\"" + rest, rest);
    }
  }

  /** One step of `ReadEscaped`: the first character of the field, escaped,
      is read back in front of the rest of the field. */
  lemma ReadEscapedStep(f: string, q: string, rest: string)
    requires f != []
    requires ReadBody(Escape(f[1..]) + q) == Some((f[1..], rest))
    ensures ReadBody(Escape(f) + q) == Some((f, rest))
  {
    var e := Escape(f[1..]);
    var head := if f[0] == '"' then "\"\"" else [f[0]];
    assert Escape(f) == head + e;
    Assoc(head, e, q);
    DropPrefix(head, e + q);
    assert [f[0]] + f[1..] == f;
  }

  /** Concatenation is associative. This and `DropPrefix` are proof hints:
      Dafny knows both facts, but stating them by name at the point of use
      keeps the round-trip proofs cheap. */
  lemma Assoc(a: string, b: string, c: string)
    ensures (a + b) + c == a + (b + c)
  {
  }

  /** Dropping a prefix of a concatenation leaves the other part. */
  lemma DropPrefix(a: string, b: string)
    ensures (a + b)[|a|..] == b
  {
  }

  /** A quoted field reads back as its text, whatever follows it unless
      that starts with a quote. */
  lemma ReadQuoted(f: string, after: string)
    requires after == [] || after[0] != '"'
    ensures (Quote(f) + after)[0] == '"'
    ensures ReadBody((Quote(f) + after)[1..]) == Some((f, after))
  {
    assert (Quote(f) + after)[1..] == Escape(f) + ("\"" + after);
    ReadEscaped(f, after);
  }

  /** A line splits into its first quoted field, a comma and the rest. */
  lemma LineCons(fields: seq<string>)
    requires |fields| >= 2
    ensures Line(fields) == Quote(fields[0]) + "," + Line(fields[1..])
  {
    var quoted := seq(|fields|, i requires 0 <= i < |fields| => Quote(fields[i]));
    var tail := fields[1..];
    assert quoted[1..] == seq(|tail|, i requires 0 <= i < |tail| => Quote(tail[i]));
  }

  /** A field followed by a comma and further fields reads as one row. */
  lemma ReadFieldsCons(s: string, f: string, after: string, fs: seq<string>, tail: string)
    requires s != [] && s[0] == '"' && ReadBody(s[1..]) == Some((f, after))
    requires after != [] && after[0] == ','
    requires ReadFields(after[1..]) == Some((fs, tail))
    ensures ReadFields(s) == Some(([f] + fs, tail))
  {
  }

  /** A line of one field reads back as that field. */
  lemma ReadLineSingle(fields: seq<string>, rest: string)
    requires |fields| == 1
    requires rest == [] || rest[0] == '\r'
    ensures ReadFields(Line(fields) + rest) == Some((fields, rest))
  {
    assert Line(fields) == Quote(fields[0]);
    ReadQuoted(fields[0], rest);
    assert [fields[0]] == fields;
  }

  /** A line of at least one field reads back as its fields when it is
      followed by the end of the text or a line break. */
  lemma {:induction false} ReadLine(fields: seq<string>, rest: string)
    requires |fields| >= 1
    requires rest == [] || rest[0] == '\r'
    ensures ReadFields(Line(fields) + rest) == Some((fields, rest))
  {
    if |fields| == 1 {
      ReadLineSingle(fields, rest);
    } else {
      var tail := fields[1..];
      var q, l := Quote(fields[0]), Line(tail);
      var after := "," + (l + rest);
      LineCons(fields);
      Assoc(q + ",", l, rest);
      Assoc(q, ",", l + rest);
      ReadQuoted(fields[0], after);
      DropPrefix(",", l + rest);
      ReadLine(tail, rest);
      ReadFieldsCons(q + after, fields[0], after, tail, rest);
      assert [fields[0]] + tail == fields;
    }
  }

  /** Decoding the encoding of a table whose rows all have at least one
      field gives the table back. */
  lemma {:induction false} DecodeEncode(table: seq<seq<string>>)
    requires |table| >= 1
    requires forall k :: 0 <= k < |table| ==> |table[k]| >= 1
    ensures Decode(Encode(table)) == Some(table)
  {
    var lines := seq(|table|, i requires 0 <= i < |table| => Line(table[i]));
    if |table| == 1 {
      assert Encode(table) == Line(table[0]) + [];
      ReadLine(table[0], []);
      assert [table[0]] == table;
    } else {
      var tail := table[1..];
      assert lines[1..] == seq(|tail|, i requires 0 <= i < |tail| => Line(tail[i]));
      var after := "\r\n" + Encode(tail);
      assert Encode(table) == (Line(table[0]) + "\r\n") + Encode(tail);
      Assoc(Line(table[0]), "\r\n", Encode(tail));
      ReadLine(table[0], after);
      DropPrefix("\r\n", Encode(tail));
      DecodeEncode(tail);
      assert [table[0]] + tail == table;
    }
  }
}
