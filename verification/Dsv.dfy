/** Delimiter-separated text (d3_dsv): the printer, the tokenizer with its pending end of line, and the row parser. */
module Dsv {
  import opened Wrappers

  const QUOTE: char := '\"'
  const CR: char := '\r'
  const LF: char := '\n'

  type Row = seq<string>

  // ---------------------------------------------------------------- printing

  /** The characters that make the printer quote a field; a carriage return is not among them. */
  predicate Quotable(c: char, d: char) {
    c == QUOTE || c == d || c == LF
  }

  predicate NeedsQuotes(field: string, d: char) {
    exists i :: 0 <= i < |field| && Quotable(field[i], d)
  }

  /** Doubles every quote. */
  function Escape(s: string): string {
    if s == [] then [] else (if s[0] == QUOTE then [QUOTE, QUOTE] else [s[0]]) + Escape(s[1..])
  }

  function FormatValue(field: string, d: char): string {
    if NeedsQuotes(field, d) then [QUOTE] + Escape(field) + [QUOTE] else field
  }

  function FormatRow(row: Row, d: char): string {
    if row == [] then [] else if |row| == 1 then FormatValue(row[0], d)
    else FormatValue(row[0], d) + [d] + FormatRow(row[1..], d)
  }

  function Format(rows: seq<Row>, d: char): string {
    if rows == [] then [] else if |rows| == 1 then FormatRow(rows[0], d)
    else FormatRow(rows[0], d) + [LF] + Format(rows[1..], d)
  }

  // ---------------------------------------------------------------- the tokenizer as a function of its state

  datatype Token = Field(text: string) | EOL | EOF

  /** lastIndex of the regular expression, and whether an end of line is still to be reported. */
  datatype State = State(lastIndex: nat, eol: bool)

  /** text.charCodeAt(i), which is not a number past the end. */
  function CodeAt(text: string, i: nat): Option<char> {
    if i < |text| then Some(text[i]) else None
  }

  function Substring(text: string, a: nat, b: nat): string
    requires a <= b
  {
    if a >= |text| then [] else if b >= |text| then text[a..] else text[a..b]
  }

  /** Undoubles the quotes from left to right. */
  function Unescape(s: string): string {
    if s == [] then []
    else if |s| >= 2 && s[0] == QUOTE && s[1] == QUOTE then [QUOTE] + Unescape(s[2..])
    else [s[0]] + Unescape(s[1..])
  }

  /** Where the scan for the closing quote stops, when its counter is about to leave i. */
  function CloseQuote(text: string, i: nat): (r: nat)
    ensures i < r <= |text| + 1 || r == i + 1
    decreases |text| - i
  {
    if i >= |text| then i + 1
    else if CodeAt(text, i + 1) != Some(QUOTE) then CloseQuote(text, i + 1)
    else if CodeAt(text, i + 2) != Some(QUOTE) then i + 1
    else CloseQuote(text, i + 2)
  }

  predicate IsBreak(c: char, d: char) {
    c == d || c == CR || c == LF
  }

  /** The first match of the separator pattern from j on, or the end of the text. */
  function FindBreak(text: string, d: char, j: nat): (m: nat)
    requires j <= |text|
    ensures j <= m <= |text|
    decreases |text| - j
  {
    if j == |text| || IsBreak(text[j], d) then j else FindBreak(text, d, j + 1)
  }

  function QuotedToken(text: string, j: nat): (r: (Token, State))
    ensures r.0.Field? && r.1.lastIndex > j
  {
    var i := CloseQuote(text, j);
    var c := CodeAt(text, i + 1);
    (Field(Unescape(Substring(text, j + 1, i))),
     State(i + 2 + (if c == Some(CR) && CodeAt(text, i + 2) == Some(LF) then 1 else 0), c == Some(CR) || c == Some(LF)))
  }

  function PlainToken(text: string, d: char, j: nat): (r: (Token, State))
    requires j < |text|
    ensures r.0.Field? && r.1.lastIndex > j
  {
    var m := FindBreak(text, d, j);
    if m == |text| then (Field(text[j..]), State(|text|, false))
    else (Field(text[j..m]),
          State(m + (if text[m] == CR && CodeAt(text, m + 1) == Some(LF) then 2 else 1), text[m] != d))
  }

  function NextToken(text: string, d: char, s: State): (r: (Token, State))
    ensures r.0.EOF? <==> s.lastIndex >= |text|
    ensures r.0.EOF? ==> r.1 == s
    ensures r.0.EOL? <==> s.lastIndex < |text| && s.eol
    ensures r.0.EOL? ==> r.1 == s.(eol := false)
    ensures r.0.Field? ==> r.1.lastIndex > s.lastIndex
  {
    if s.lastIndex >= |text| then (EOF, s)
    else if s.eol then (EOL, s.(eol := false))
    else if text[s.lastIndex] == QUOTE then QuotedToken(text, s.lastIndex)
    else PlainToken(text, d, s.lastIndex)
  }

  // ---------------------------------------------------------------- rows

  /** What is still to be read; it shrinks with every token but EOF. */
  function Left(text: string, s: State): nat {
    if s.lastIndex >= |text| then 0 else 2 * (|text| - s.lastIndex) + (if s.eol then 1 else 0)
  }

  /** The fields up to the next EOL or EOF, and the state after it. */
  function ReadRow(text: string, d: char, s: State): (r: (Row, State))
    ensures r.0 != [] ==> Left(text, r.1) < Left(text, s)
    ensures Left(text, r.1) <= Left(text, s)
    ensures s.lastIndex < |text| && !s.eol ==> r.0 != []
    decreases Left(text, s)
  {
    var (t, s1) := NextToken(text, d, s);
    if t.Field? then
      var (row, s2) := ReadRow(text, d, s1);
      ([t.text] + row, s2)
    else
      ([], s1)
  }

  function ParseFrom(text: string, d: char, s: State): (rows: seq<Row>)
    decreases Left(text, s)
  {
    if s.lastIndex >= |text| then []
    else
      var (row, s1) := ReadRow(text, d, s);
      [row] + ParseFrom(text, d, s1)
  }

  function ParseRows(text: string, d: char): seq<Row> {
    ParseFrom(text, d, State(0, false))
  }

  // ---------------------------------------------------------------- the parser object

  /** The loop that looks for the closing quote of the field that opens at j. */
  method ScanQuoted(text: string, j: nat) returns (i: nat)
    requires j < |text|
    ensures i == CloseQuote(text, j)
  {
    i := j;
    while true
      invariant j <= i <= |text| && CloseQuote(text, i) == CloseQuote(text, j)
      decreases |text| - i
    {
      var more := i < |text|;
      i := i + 1;
      if !more { break; }
      if CodeAt(text, i) == Some(QUOTE) {
        if CodeAt(text, i + 1) != Some(QUOTE) { break; }
        i := i + 1;
      }
    }
  }

  /** The closure of parseRows: reParse.lastIndex and the pending eol flag, updated by every call of token(). */
  class Parser {
    const text: string
    const delimiter: char
    var lastIndex: nat
    var eol: bool

    constructor (text: string, delimiter: char)
      ensures this.text == text && this.delimiter == delimiter && Current() == State(0, false)
    {
      this.text, this.delimiter := text, delimiter;
      lastIndex, eol := 0, false;
    }

    function Current(): State
      reads this
    {
      State(lastIndex, eol)
    }

    method Token() returns (t: Token)
      modifies this
      ensures (t, Current()) == NextToken(text, delimiter, old(Current()))
    {
      hide Unescape, FindBreak, CloseQuote, Substring;
      if lastIndex >= |text| {
        return EOF;
      }
      if eol {
        eol := false;
        return EOL;
      }
      var j := lastIndex;
      if CodeAt(text, j) == Some(QUOTE) {
        var i := ScanQuoted(text, j);
        lastIndex := i + 2;
        var c := CodeAt(text, i + 1);
        if c == Some(CR) {
          eol := true;
          if CodeAt(text, i + 2) == Some(LF) { lastIndex := lastIndex + 1; }
        } else if c == Some(LF) {
          eol := true;
        }
        return Field(Unescape(Substring(text, j + 1, i)));
      }
      var m := FindBreak(text, delimiter, j);
      if m < |text| {
        lastIndex := m + if text[m] == CR && CodeAt(text, m + 1) == Some(LF) then 2 else 1;
        eol := text[m] != delimiter;
        return Field(text[j..m]);
      }
      lastIndex := |text|;
      return Field(text[j..]);
    }

    method Rows() returns (rows: seq<Row>)
      modifies this
      ensures rows == ParseFrom(text, delimiter, old(Current()))
    {
      hide NextToken, ReadRow, ParseFrom;
      rows := [];
      ghost var start := Current();
      var t := Token();
      ghost var before := start;
      while t != EOF
        invariant (t, Current()) == NextToken(text, delimiter, before)
        invariant ParseFrom(text, delimiter, start) == rows + ParseFrom(text, delimiter, before)
        decreases Left(text, before)
      {
        UnfoldRows(text, delimiter, before);
        var a: Row := [];
        ghost var inner := before;
        while t != EOL && t != EOF
          invariant (t, Current()) == NextToken(text, delimiter, inner)
          invariant ReadRow(text, delimiter, before).0 == a + ReadRow(text, delimiter, inner).0
          invariant ReadRow(text, delimiter, before).1 == ReadRow(text, delimiter, inner).1
          decreases Left(text, inner)
        {
          UnfoldRow(text, delimiter, inner);
          a := a + [t.text];
          inner := Current();
          t := Token();
        }
        UnfoldRow(text, delimiter, inner);
        assert ReadRow(text, delimiter, before).0 == a;
        assert rows + ([a] + ParseFrom(text, delimiter, Current())) == rows + [a] + ParseFrom(text, delimiter, Current());
        rows := rows + [a];
        before := Current();
        t := Token();
      }
      UnfoldRows(text, delimiter, before);
    }
  }

  lemma UnfoldRow(text: string, d: char, s: State)
    ensures var (t, s1) := NextToken(text, d, s);
      && (t.Field? ==> ReadRow(text, d, s).0 == [t.text] + ReadRow(text, d, s1).0)
      && (t.Field? ==> ReadRow(text, d, s).1 == ReadRow(text, d, s1).1)
      && (t.Field? ==> Left(text, s1) < Left(text, s))
      && (!t.Field? ==> ReadRow(text, d, s) == ([], s1))
  {
  }

  lemma UnfoldRows(text: string, d: char, s: State)
    ensures NextToken(text, d, s).0.EOF? ==> ParseFrom(text, d, s) == []
    ensures !NextToken(text, d, s).0.EOF? ==>
      var (row, s1) := ReadRow(text, d, s);
      ParseFrom(text, d, s) == [row] + ParseFrom(text, d, s1) && Left(text, s1) < Left(text, s)
  {
  }

  method Parse(text: string, delimiter: char) returns (rows: seq<Row>)
    ensures rows == ParseRows(text, delimiter)
  {
    var parser := new Parser(text, delimiter);
    rows := parser.Rows();
  }

  // ---------------------------------------------------------------- printing and parsing one field

  lemma {:induction false} UnescapeEscape(s: string)
    ensures Unescape(Escape(s)) == s
  {
    if s == [] {
    } else {
      UnescapeEscape(s[1..]);
      if s[0] == QUOTE {
        assert Escape(s)[2..] == Escape(s[1..]);
      } else {
        assert Escape(s)[1..] == Escape(s[1..]);
      }
    }
  }

  lemma {:induction false} CloseQuoteFindsIt(text: string, i: nat, s: string, rest: string)
    requires i < |text| && text[i + 1..] == Escape(s) + [QUOTE] + rest
    requires rest == [] || rest[0] != QUOTE
    ensures CloseQuote(text, i) == i + 1 + |Escape(s)|
    decreases |s|
  {
    var tail := text[i + 1..];
    assert forall k :: 0 <= k < |tail| ==> text[i + 1 + k] == tail[k];
    if s == [] {
      assert tail == [QUOTE] + rest;
    } else if s[0] == QUOTE {
      assert tail == [QUOTE, QUOTE] + (Escape(s[1..]) + [QUOTE] + rest);
      assert text[i + 3..] == tail[2..];
      CloseQuoteFindsIt(text, i + 2, s[1..], rest);
    } else {
      assert tail == [s[0]] + (Escape(s[1..]) + [QUOTE] + rest);
      assert text[i + 2..] == tail[1..];
      CloseQuoteFindsIt(text, i + 1, s[1..], rest);
    }
  }

  lemma {:induction false} FindBreakFindsIt(text: string, d: char, j: nat, m: nat)
    requires j <= m <= |text| && (forall k :: j <= k < m ==> !IsBreak(text[k], d))
    requires m == |text| || IsBreak(text[m], d)
    ensures FindBreak(text, d, j) == m
    decreases m - j
  {
    if j == m {
    } else {
      FindBreakFindsIt(text, d, j + 1, m);
    }
  }

  /** A one-character delimiter that is no quote, no line break and has no meaning of its own inside [...] of a pattern. */
  predicate Plain(d: char) {
    d != QUOTE && d != CR && d != LF && d != '^' && d != ']' && d != '\\' && d != '-'
  }

  /** The end of the text or a line break. */
  predicate Ending(rest: string) {
    rest == [] || rest[0] == CR || rest[0] == LF
  }

  /** What may follow a written field. */
  predicate Tail(rest: string, d: char) {
    Ending(rest) || rest[0] == d
  }

  /** How long the separator at the front is: a carriage return and a line feed are one. */
  function Skip(rest: string): nat
    requires rest != []
  {
    if rest[0] == CR && |rest| > 1 && rest[1] == LF then 2 else 1
  }

  /** A carriage return survives printing only next to a quote, a delimiter or a line feed. */
  predicate Survives(field: string, d: char) {
    QUOTE in field || d in field || LF in field || CR !in field
  }

  /** A field is printed between quotes if and only if it has a quote, a delimiter or a line feed. */
  lemma QuotedIff(field: string, d: char)
    ensures NeedsQuotes(field, d) <==> QUOTE in field || d in field || LF in field
    ensures FormatValue(field, d) ==
            if QUOTE in field || d in field || LF in field then [QUOTE] + Escape(field) + [QUOTE] else field
  {
    if c :| c in field && (c == QUOTE || c == d || c == LF) {
      var i :| 0 <= i < |field| && field[i] == c;
      assert Quotable(field[i], d);
    }
  }

  /** The state after a field with text rest behind it. */
  ghost predicate After(text: string, d: char, rest: string, s: State) {
    if rest == [] then s.lastIndex >= |text|
    else |rest| <= |text| && s == State(|text| - |rest| + Skip(rest), rest[0] != d)
  }

  lemma Advance(text: string, j: nat, w: string, c: char, tail: string)
    requires j <= |text| && text[j..] == w + [c] + tail
    ensures |text| - |[c] + tail| + 1 == j + |w| + 1 && text[j + |w| + 1..] == tail
  {
    assert text[j + |w| + 1..] == text[j..][|w| + 1..];
  }

  lemma QuotedShape(text: string, j: nat, e: string, rest: string)
    requires j <= |text| && text[j..] == [QUOTE] + e + [QUOTE] + rest
    ensures j + 1 + |e| < |text| && text[j] == QUOTE
    ensures text[j + 1..] == e + [QUOTE] + rest
    ensures text[j + 1..j + 1 + |e|] == e
    ensures j + 2 + |e| + |rest| == |text| && (rest != [] ==> text[j + 2 + |e|] == rest[0])
    ensures |rest| > 1 ==> text[j + 3 + |e|] == rest[1]
  {
    var tail := text[j..];
    assert forall k :: 0 <= k < |tail| ==> text[j + k] == tail[k];
    assert tail == [QUOTE] + (e + [QUOTE] + rest);
  }

  lemma QuotedFieldIsRead(text: string, d: char, j: nat, field: string, rest: string)
    requires Plain(d) && j < |text| && text[j..] == [QUOTE] + Escape(field) + [QUOTE] + rest && Tail(rest, d)
    ensures var (t, s) := NextToken(text, d, State(j, false)); t == Field(field) && After(text, d, rest, s)
  {
    hide Escape, Unescape, CloseQuote, FindBreak;
    QuotedShape(text, j, Escape(field), rest);
    CloseQuoteFindsIt(text, j, field, rest);
    UnescapeEscape(field);
  }

  lemma UnquotedFieldIsRead(text: string, d: char, j: nat, field: string, rest: string)
    requires Plain(d) && j < |text| && text[j..] == field + rest && Tail(rest, d)
    requires !NeedsQuotes(field, d) && CR !in field
    ensures var (t, s) := NextToken(text, d, State(j, false)); t == Field(field) && After(text, d, rest, s)
  {
    var m := j + |field|;
    PlainShape(text, j, field, rest);
    hide Quotable, FindBreak, IsBreak;
    NoBreaks(text, d, j, field);
    FindBreakFindsIt(text, d, j, m);
    if rest != [] {
      TailBreaks(rest, d);
    }
    if field != [] {
      StartsUnquoted(field, d);
    }
  }

  lemma PlainShape(text: string, j: nat, field: string, rest: string)
    requires j <= |text| && text[j..] == field + rest
    ensures |text| == j + |field| + |rest| && text[j..j + |field|] == field
    ensures field != [] ==> text[j] == field[0]
    ensures rest != [] ==> text[j + |field|] == rest[0]
    ensures |rest| > 1 ==> text[j + |field| + 1] == rest[1]
  {
    var tail := text[j..];
    assert forall k :: 0 <= k < |tail| ==> text[j + k] == tail[k];
  }

  lemma NoBreaks(text: string, d: char, j: nat, field: string)
    requires j + |field| <= |text| && text[j..j + |field|] == field && !NeedsQuotes(field, d) && CR !in field
    ensures forall k :: j <= k < j + |field| ==> !IsBreak(text[k], d)
  {
    forall k | j <= k < j + |field| ensures !IsBreak(text[k], d) {
      assert text[k] == field[k - j];
      assert !Quotable(field[k - j], d);
    }
  }

  lemma TailBreaks(rest: string, d: char)
    requires Tail(rest, d) && rest != []
    ensures IsBreak(rest[0], d) && (d != QUOTE ==> rest[0] != QUOTE)
  {}

  lemma StartsUnquoted(field: string, d: char)
    requires !NeedsQuotes(field, d) && field != []
    ensures field[0] != QUOTE
  {
    assert !Quotable(field[0], d);
  }

  lemma PrintedFieldIsRead(text: string, d: char, j: nat, field: string, rest: string)
    requires Plain(d) && j < |text| && text[j..] == FormatValue(field, d) + rest && Tail(rest, d)
    requires Survives(field, d)
    ensures var (t, s) := NextToken(text, d, State(j, false)); t == Field(field) && After(text, d, rest, s)
  {
    QuotedIff(field, d);
    if NeedsQuotes(field, d) {
      QuotedFieldIsRead(text, d, j, field, rest);
    } else {
      UnquotedFieldIsRead(text, d, j, field, rest);
    }
  }

  /** A bare carriage return in an unquoted field cuts it short. */
  lemma BareReturnCutsField(text: string, d: char, j: nat, field: string, rest: string)
    requires Plain(d) && j < |text| && text[j..] == FormatValue(field, d) + rest && !Survives(field, d)
    ensures var (t, s) := NextToken(text, d, State(j, false));
            t.Field? && |t.text| < |field|
  {
    QuotedIff(field, d);
    var tail := text[j..];
    assert forall k :: 0 <= k < |tail| ==> text[j + k] == tail[k];
    var c :| 0 <= c < |field| && field[c] == CR;
    assert text[j + c] == tail[c] == CR;
    assert text[j] == tail[0] == field[0];
    assert !Quotable(field[0], d);
    BreakNotAfter(text, d, j, j + c);
  }

  lemma {:induction false} BreakNotAfter(text: string, d: char, j: nat, k: nat)
    requires j <= k < |text| && IsBreak(text[k], d)
    ensures FindBreak(text, d, j) <= k
    decreases k - j
  {
    if j == k || IsBreak(text[j], d) {
    } else {
      BreakNotAfter(text, d, j + 1, k);
    }
  }

  // ---------------------------------------------------------------- printing and parsing rows

  predicate RowSurvives(row: Row, d: char) {
    forall i :: 0 <= i < |row| ==> Survives(row[i], d)
  }

  predicate LastFieldEmpty(row: Row) {
    row != [] && row[|row| - 1] == []
  }

  lemma FormatRowSplits(row: Row, d: char, tail: string)
    requires |row| > 1
    ensures var w, more := FormatValue(row[0], d), FormatRow(row[1..], d) + tail;
      FormatRow(row, d) + tail == w + [d] + more == w + ([d] + more)
  {
    hide FormatValue;
  }

  lemma RowSurvivesSplits(row: Row, d: char)
    requires row != []
    ensures RowSurvives(row, d) <==> Survives(row[0], d) && RowSurvives(row[1..], d)
  {
    hide Survives;
    var more := row[1..];
    assert forall i :: 0 <= i < |more| ==> more[i] == row[i + 1];
    if Survives(row[0], d) && RowSurvives(more, d) {
      forall i | 0 <= i < |row| ensures Survives(row[i], d) {
        if i > 0 { assert row[i] == more[i - 1]; }
      }
    }
  }

  /** From j on the tokenizer delivers the row, but for a last empty field at the end of the text, and stops behind it. */
  ghost predicate RowIsRead(text: string, d: char, j: nat, row: Row, tail: string) {
    var (r, s) := ReadRow(text, d, State(j, false));
    && r == (if tail == [] && LastFieldEmpty(row) then row[..|row| - 1] else row)
    && (if tail == [] || |tail| == Skip(tail) then s.lastIndex >= |text|
        else |tail| <= |text| && s == State(|text| - |tail| + Skip(tail), false))
  }

  lemma LastPrintedField(text: string, d: char, j: nat, row: Row, tail: string)
    requires Plain(d) && |row| == 1 && Survives(row[0], d)
    requires j < |text| && text[j..] == FormatValue(row[0], d) + tail && Ending(tail)
    ensures RowIsRead(text, d, j, row, tail)
  {
    PrintedFieldIsRead(text, d, j, row[0], tail);
    assert tail == [] ==> row[0] != [];
    hide QuotedToken, PlainToken, Survives, FormatValue;
    var (t, s) := NextToken(text, d, State(j, false));
    UnfoldRow(text, d, State(j, false));
    UnfoldRow(text, d, s);
  }

  lemma FirstPrintedField(text: string, d: char, j: nat, k: nat, row: Row, tail: string)
    requires |row| > 1 && NextToken(text, d, State(j, false)) == (Field(row[0]), State(k, false))
    requires if k < |text| then RowIsRead(text, d, k, row[1..], tail) else tail == [] && row[1..] == [[]]
    ensures RowIsRead(text, d, j, row, tail)
  {
    hide NextToken;
    UnfoldRow(text, d, State(j, false));
    assert row == [row[0]] + row[1..];
    assert LastFieldEmpty(row[1..]) <==> LastFieldEmpty(row);
    assert row[..|row| - 1] == [row[0]] + row[1..][..|row| - 2];
    if k >= |text| {
      AtEnd(text, d, State(k, false));
    }
  }

  lemma AtEnd(text: string, d: char, s: State)
    requires s.lastIndex >= |text|
    ensures ReadRow(text, d, s) == ([], s)
  {
  }

  /** A printed row of surviving fields is read back, up to a last empty field at the end of the text. */
  lemma {:induction false} PrintedRowIsRead(text: string, d: char, j: nat, row: Row, tail: string)
    requires Plain(d) && row != [] && RowSurvives(row, d)
    requires j < |text| && text[j..] == FormatRow(row, d) + tail && Ending(tail)
    ensures RowIsRead(text, d, j, row, tail)
    decreases |row|
  {
    hide Survives, FormatValue, NextToken, RowIsRead, RowSurvives;
    RowSurvivesSplits(row, d);
    if |row| == 1 {
      LastPrintedField(text, d, j, row, tail);
    } else {
      hide FormatRow;
      FormatRowSplits(row, d, tail);
      var w, more := FormatValue(row[0], d), FormatRow(row[1..], d) + tail;
      PrintedFieldIsRead(text, d, j, row[0], [d] + more);
      Advance(text, j, w, d, more);
      if more != [] {
        PrintedRowIsRead(text, d, j + |w| + 1, row[1..], tail);
      } else {
        EmptyRowText(row[1..], d);
      }
      FirstPrintedField(text, d, j, j + |w| + 1, row, tail);
    }
  }

  lemma EmptyRowText(row: Row, d: char)
    ensures FormatRow(row, d) == [] <==> row == [] || row == [[]]
  {
  }

  /** A field that does not survive spoils its row. */
  lemma {:induction false} SpoiledRow(text: string, d: char, j: nat, row: Row, tail: string)
    requires Plain(d) && row != [] && !RowSurvives(row, d)
    requires j < |text| && text[j..] == FormatRow(row, d) + tail && Ending(tail)
    ensures ReadRow(text, d, State(j, false)).0 != row
    decreases |row|
  {
    hide Survives, FormatValue, NextToken, ReadRow, RowSurvives;
    RowSurvivesSplits(row, d);
    UnfoldRow(text, d, State(j, false));
    if |row| == 1 {
      EmptyRowSurvives(row[1..], d);
      BareReturnCutsField(text, d, j, row[0], tail);
    } else {
      hide FormatRow;
      FormatRowSplits(row, d, tail);
      var w, more := FormatValue(row[0], d), FormatRow(row[1..], d) + tail;
      if !Survives(row[0], d) {
        BareReturnCutsField(text, d, j, row[0], [d] + more);
      } else {
        PrintedFieldIsRead(text, d, j, row[0], [d] + more);
        Advance(text, j, w, d, more);
        if more == [] {
          EmptyRowText(row[1..], d);
          EmptyRowSurvives(row[1..], d);
        } else {
          SpoiledRow(text, d, j + |w| + 1, row[1..], tail);
        }
      }
    }
  }

  lemma EmptyRowSurvives(row: Row, d: char)
    requires row == [] || row == [[]]
    ensures RowSurvives(row, d)
  {
  }

  /** The rows that survive printing and parsing. */
  predicate Printable(rows: seq<Row>, d: char) {
    && (forall i :: 0 <= i < |rows| ==> rows[i] != [] && RowSurvives(rows[i], d))
    && (rows != [] ==> !LastFieldEmpty(rows[|rows| - 1]))
  }

  // ---------------------------------------------------------------- tables with any line breaks

  datatype Break = LineFeed | Return | ReturnLineFeed

  function Mark(b: Break): (m: string)
    ensures m != [] && Ending(m) && |m| == Skip(m)
  {
    match b
    case LineFeed => [LF]
    case Return => [CR]
    case ReturnLineFeed => [CR, LF]
  }

  /** The table as the printer writes it, but for the line breaks between its rows. */
  function FormatWith(rows: seq<Row>, d: char, b: Break): string {
    if rows == [] then [] else if |rows| == 1 then FormatRow(rows[0], d)
    else FormatRow(rows[0], d) + Mark(b) + FormatWith(rows[1..], d, b)
  }

  lemma {:induction false} FormatIsWithLineFeeds(rows: seq<Row>, d: char)
    ensures Format(rows, d) == FormatWith(rows, d, LineFeed)
  {
    hide FormatRow;
    if rows == [] {
    } else if |rows| == 1 {
    } else {
      FormatIsWithLineFeeds(rows[1..], d);
    }
  }

  lemma RowStartsPlainly(row: Row, d: char)
    requires d != LF
    ensures FormatRow(row, d) != [] ==> FormatRow(row, d)[0] != LF
  {
    if row != [] {
      var field := row[0];
      assert field != [] && field[0] == LF ==> Quotable(field[0], d) && NeedsQuotes(field, d);
    }
  }

  /** A carriage return that ends a row is not followed by a line feed, unless it is written with one. */
  lemma WholeBreak(rows: seq<Row>, d: char, b: Break)
    requires d != LF
    ensures Skip(Mark(b) + FormatWith(rows, d, b)) == |Mark(b)|
  {
    if rows != [] {
      RowStartsPlainly(rows[0], d);
    }
    hide FormatRow;
  }

  lemma AdvanceBreak(text: string, j: nat, w: string, m: string, more: string)
    requires j <= |text| && text[j..] == w + m + more
    ensures j + |w| + |m| <= |text| && text[j + |w| + |m|..] == more && |text| - |m + more| + |m| == j + |w| + |m|
  {
    assert text[j + |w| + |m|..] == text[j..][|w| + |m|..];
  }

  lemma {:induction false} PrintedRowsAreRead(text: string, d: char, b: Break, j: nat, rows: seq<Row>)
    requires Plain(d) && rows != [] && j <= |text| && text[j..] == FormatWith(rows, d, b)
    ensures ParseFrom(text, d, State(j, false)) == rows <==> Printable(rows, d)
    decreases |rows|
  {
    hide Survives, FormatValue, ParseFrom, FormatRow, Mark, RowIsRead, RowSurvives, Skip, FormatWith, Printable;
    var row := rows[0];
    var more := if |rows| == 1 then [] else FormatWith(rows[1..], d, b);
    var tail := if |rows| == 1 then [] else Mark(b) + more;
    FormatSplits(rows, d, b);
    assert text[j..] == FormatRow(row, d) + tail;
    if j == |text| || row == [] || !RowSurvives(row, d) {
      FirstRowLost(text, d, j, rows, tail);
    } else {
      PrintedRowIsRead(text, d, j, row, tail);
      FirstRowPrintable(rows, d);
      if |rows| == 1 {
        LastRowParsed(text, d, j, row);
      } else {
        WholeBreak(rows[1..], d, b);
        AdvanceBreak(text, j, FormatRow(row, d), Mark(b), more);
        FirstRowParsed(text, d, j, row, tail);
        if more == [] {
          NothingAfter(rows[1..], d, b);
        } else {
          PrintedRowsAreRead(text, d, b, j + |FormatRow(row, d)| + |Mark(b)|, rows[1..]);
        }
      }
    }
  }

  /** Without a first row that is read back, the rows are not. */
  lemma FirstRowLost(text: string, d: char, j: nat, rows: seq<Row>, tail: string)
    requires Plain(d) && rows != [] && j <= |text| && text[j..] == FormatRow(rows[0], d) + tail && Ending(tail)
    requires |rows| > 1 ==> tail != []
    requires j == |text| || rows[0] == [] || !RowSurvives(rows[0], d)
    ensures ParseFrom(text, d, State(j, false)) != rows && !Printable(rows, d)
  {
    hide RowSurvives, FormatRow, ReadRow, Skip;
    if j == |text| {
      EmptyRowText(rows[0], d);
    } else if rows[0] != [] {
      SpoiledRow(text, d, j, rows[0], tail);
    }
  }

  lemma LastRowParsed(text: string, d: char, j: nat, row: Row)
    requires j < |text| && RowIsRead(text, d, j, row, [])
    ensures ParseFrom(text, d, State(j, false)) == [if LastFieldEmpty(row) then row[..|row| - 1] else row]
  {
    hide ReadRow;
  }

  lemma FirstRowParsed(text: string, d: char, j: nat, row: Row, tail: string)
    requires j < |text| && tail != [] && RowIsRead(text, d, j, row, tail)
    ensures ParseFrom(text, d, State(j, false)) ==
            [row] + if |tail| == Skip(tail) then [] else ParseFrom(text, d, State(|text| - |tail| + Skip(tail), false))
    ensures |tail| != Skip(tail) ==> |tail| <= |text|
  {
    hide ReadRow, Skip;
  }

  lemma FormatSplits(rows: seq<Row>, d: char, b: Break)
    requires rows != []
    ensures |rows| == 1 ==> FormatWith(rows, d, b) == FormatRow(rows[0], d)
    ensures |rows| > 1 ==>
      var w, more := FormatRow(rows[0], d), FormatWith(rows[1..], d, b);
      FormatWith(rows, d, b) == w + Mark(b) + more == w + (Mark(b) + more)
  {
    hide FormatRow, Mark;
  }

  lemma FirstRowPrintable(rows: seq<Row>, d: char)
    requires rows != [] && rows[0] != [] && RowSurvives(rows[0], d)
    ensures rows == [rows[0]] + rows[1..]
    ensures Printable(rows, d) <==> if |rows| == 1 then !LastFieldEmpty(rows[0]) else Printable(rows[1..], d)
  {
    hide RowSurvives, LastFieldEmpty;
    var more := rows[1..];
    assert forall i :: 0 <= i < |more| ==> more[i] == rows[i + 1];
    if |rows| > 1 && Printable(more, d) {
      forall i | 0 <= i < |rows| ensures rows[i] != [] && RowSurvives(rows[i], d) {
        if i > 0 { assert rows[i] == more[i - 1]; }
      }
    }
  }

  lemma NothingAfter(rows: seq<Row>, d: char, b: Break)
    requires rows != [] && FormatWith(rows, d, b) == []
    ensures !Printable(rows, d)
  {
    EmptyText(rows, d, b);
    hide FormatWith;
  }

  lemma EmptyText(rows: seq<Row>, d: char, b: Break)
    requires FormatWith(rows, d, b) == []
    ensures rows == [] || rows == [[]] || rows == [[[]]]
  {
    hide Mark;
    if rows != [] {
      EmptyRowText(rows[0], d);
    }
  }

  /**
   * parseRows undoes what is written with line feeds, carriage returns or both between the rows, exactly for the lists of
   * nonempty rows whose very last field is nonempty and whose carriage returns sit in fields that are quoted anyway.
   */
  lemma AnyBreaks(rows: seq<Row>, d: char, b: Break)
    requires Plain(d)
    ensures ParseRows(FormatWith(rows, d, b), d) == rows <==> Printable(rows, d)
  {
    var text := FormatWith(rows, d, b);
    if rows != [] {
      assert text[0..] == text;
      PrintedRowsAreRead(text, d, b, 0, rows);
    }
  }

  /** The same of what format prints. */
  lemma RoundTrip(rows: seq<Row>, d: char)
    requires Plain(d)
    ensures ParseRows(Format(rows, d), d) == rows <==> Printable(rows, d)
  {
    FormatIsWithLineFeeds(rows, d);
    AnyBreaks(rows, d, LineFeed);
  }

  /** A table with a carriage return and a line feed between its rows, as other programs write it. */
  lemma OrdinaryFile()
    ensures ParseRows("a\r\nb", ',') == [["a"], ["b"]]
  {
    hide ParseRows;
    var rows := [["a"], ["b"]];
    assert forall i :: 0 <= i < |rows| ==> RowSurvives(rows[i], ',');
    assert Printable(rows, ',') && FormatRow(["a"], ',') == "a" && FormatRow(["b"], ',') == "b";
    assert FormatWith(rows[1..], ',', ReturnLineFeed) == "b";
    assert FormatWith(rows, ',', ReturnLineFeed) == "a\r\nb";
    AnyBreaks(rows, ',', ReturnLineFeed);
  }

  // ---------------------------------------------------------------- tokens of any text

  lemma EscapedStep(c: char, e: string)
    requires c != QUOTE && e == Escape(Unescape(e))
    ensures [c] + e == Escape(Unescape([c] + e))
  {
    assert ([c] + e)[1..] == e;
    assert Unescape([c] + e) == [c] + Unescape(e) && ([c] + Unescape(e))[1..] == Unescape(e);
  }

  lemma EscapedPair(e: string)
    requires e == Escape(Unescape(e))
    ensures [QUOTE, QUOTE] + e == Escape(Unescape([QUOTE, QUOTE] + e))
  {
    assert ([QUOTE, QUOTE] + e)[2..] == e;
    assert Unescape([QUOTE, QUOTE] + e) == [QUOTE] + Unescape(e) && ([QUOTE] + Unescape(e))[1..] == Unescape(e);
  }

  /** From i on there is escaped text up to r: to a quote that stands alone, or to the end. */
  ghost predicate ClosedAt(text: string, i: nat, r: nat) {
    && i < r
    && var e := Substring(text, i + 1, r);
    && e == Escape(Unescape(e))
    && (if r < |text| then text[r] == QUOTE && CodeAt(text, r + 1) != Some(QUOTE) else i < |text| ==> e == text[i + 1..])
  }

  /** The scan passes over doubled quotes and whatever is no quote, and stops at the first quote that stands alone. */
  lemma {:induction false} CloseQuoteIs(text: string, i: nat)
    requires i <= |text|
    ensures ClosedAt(text, i, CloseQuote(text, i))
    decreases |text| - i
  {
    hide ClosedAt, Substring;
    if i == |text| || (CodeAt(text, i + 1) == Some(QUOTE) && CodeAt(text, i + 2) != Some(QUOTE)) {
      ClosedAtOnce(text, i);
    } else if CodeAt(text, i + 1) != Some(QUOTE) {
      CloseQuoteIs(text, i + 1);
      ClosedBehind(text, i, CloseQuote(text, i + 1));
    } else {
      CloseQuoteIs(text, i + 2);
      ClosedBehindPair(text, i, CloseQuote(text, i + 2));
    }
  }

  lemma ClosedAtOnce(text: string, i: nat)
    requires i == |text| || (CodeAt(text, i + 1) == Some(QUOTE) && CodeAt(text, i + 2) != Some(QUOTE))
    ensures ClosedAt(text, i, i + 1)
  {
    NothingEscaped();
  }

  lemma ClosedBehind(text: string, i: nat, r: nat)
    requires i < |text| && CodeAt(text, i + 1) != Some(QUOTE) && ClosedAt(text, i + 1, r)
    ensures ClosedAt(text, i, r)
  {
    hide Escape, Unescape;
    if i + 1 < |text| {
      EscapedStep(text[i + 1], Substring(text, i + 2, r));
      assert Substring(text, i + 1, r) == [text[i + 1]] + Substring(text, i + 2, r);
    } else {
      NothingEscaped();
    }
  }

  lemma ClosedBehindPair(text: string, i: nat, r: nat)
    requires CodeAt(text, i + 1) == CodeAt(text, i + 2) == Some(QUOTE) && ClosedAt(text, i + 2, r)
    ensures ClosedAt(text, i, r)
  {
    hide Escape, Unescape;
    EscapedPair(Substring(text, i + 3, r));
    assert Substring(text, i + 1, r) == [QUOTE, QUOTE] + Substring(text, i + 3, r);
  }

  lemma NothingEscaped()
    ensures [] == Escape(Unescape([]))
  {}

  lemma {:induction false} FindBreakIs(text: string, d: char, j: nat)
    requires j <= |text|
    ensures var m := FindBreak(text, d, j);
      && (forall k :: j <= k < m ==> text[k] != d && text[k] != CR && text[k] != LF)
      && (m < |text| ==> text[m] == d || text[m] == CR || text[m] == LF)
    decreases |text| - j
  {
    if j == |text| || IsBreak(text[j], d) {
    } else {
      FindBreakIs(text, d, j + 1);
    }
  }

  /** The state behind a field that is followed by rest: a separator is skipped, and a line break is to be reported. */
  ghost predicate Behind(text: string, d: char, rest: string, s: State) {
    if rest == [] then s.lastIndex >= |text|
    else
      && |rest| <= |text| && s.lastIndex == |text| - |rest| + Skip(rest)
      && (s.eol <==> rest[0] == CR || rest[0] == LF)
  }

  /**
   * A field of any text. Without a quote in front it goes to the next delimiter or line break, or to the end. With a quote
   * in front it is what has been escaped up to the quote that stands alone, or to the end; one character behind that is
   * skipped, whatever it is, or both of a carriage return and a line feed.
   */
  lemma TokenOfText(text: string, d: char, j: nat) returns (rest: string)
    requires j < |text| && d != CR && d != LF && d != QUOTE
    ensures var (t, s) := NextToken(text, d, State(j, false));
      && t.Field? && Behind(text, d, rest, s)
      && if text[j] == QUOTE then
           if text[j..] == [QUOTE] + Escape(t.text) then rest == []
           else text[j..] == [QUOTE] + Escape(t.text) + [QUOTE] + rest && (rest != [] ==> rest[0] != QUOTE)
         else
           && text[j..] == t.text + rest && (rest != [] ==> rest[0] == d || rest[0] == CR || rest[0] == LF)
           && forall k :: 0 <= k < |t.text| ==> t.text[k] != d && t.text[k] != CR && t.text[k] != LF
  {
    hide Escape, Unescape, CloseQuote, FindBreak;
    if text[j] == QUOTE {
      var i := CloseQuote(text, j);
      CloseQuoteIs(text, j);
      rest := if i < |text| then text[i + 1..] else [];
      if i < |text| {
        assert text[j..] == [QUOTE] + text[j + 1..i] + [QUOTE] + rest;
      } else {
        assert text[j..] == [QUOTE] + text[j + 1..];
      }
    } else {
      var m := FindBreak(text, d, j);
      FindBreakIs(text, d, j);
      rest := text[m..];
      assert text[j..] == text[j..m] + rest;
    }
  }

  /** The parser never yields an empty row, so none can survive printing. */
  lemma {:induction false} ParsedRowsNonempty(text: string, d: char, s: State)
    requires s.lastIndex >= |text| || !s.eol
    ensures forall row :: row in ParseFrom(text, d, s) ==> row != []
    decreases Left(text, s)
  {
    if s.lastIndex >= |text| {
    } else {
      RowEndsCleanly(text, d, s);
      ParsedRowsNonempty(text, d, ReadRow(text, d, s).1);
    }
  }

  lemma {:induction false} RowEndsCleanly(text: string, d: char, s: State)
    ensures var s1 := ReadRow(text, d, s).1; s1.lastIndex >= |text| || !s1.eol
    decreases Left(text, s)
  {
    hide QuotedToken, PlainToken;
    UnfoldRow(text, d, s);
    if !NextToken(text, d, s).0.Field? {
    } else {
      RowEndsCleanly(text, d, NextToken(text, d, s).1);
    }
  }

  /** Two tables that do not survive: one ends in an empty field, the other has a carriage return in a plain field. */
  lemma TablesLost()
    ensures ParseRows(Format([["a", ""]], ','), ',') != [["a", ""]]
    ensures ParseRows(Format([["a\rb"]], ','), ',') != [["a\rb"]]
  {
    hide ParseRows, Format;
    RoundTrip([["a", ""]], ',');
    RoundTrip([["a\rb"]], ',');
    var row := ["a\rb"];
    assert row[0][1] == CR && !NeedsQuotes(row[0], ',');
    assert !RowSurvives(row, ',') by {
      assert !Survives(row[0], ',');
    }
    assert [row][0] == row;
    assert LastFieldEmpty([["a", ""]][0]);
  }
}
