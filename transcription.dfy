/**
 * `process_transcription`: the rows of a transcription file, already split
 * into fields, become one SQL `INSERT` statement per usable row. The first row
 * is a header and is dropped; a row is usable when it has at least three
 * fields and its start, end and text fields are all non-empty.
 */
module Transcription {
  import opened Wrappers
  import opened SqlText

  /** One record of the file: its fields, in order. */
  type Row = seq<string>

  /** The source has no first row to skip: `next(reader)` raises StopIteration. */
  datatype TransformError = MissingHeader

  /**
   * The part of the statement template up to the content identifier: the
   * first line ends in a space, and the second is indented by 23 spaces.
   */
  const StatementHead: string := "INSERT INTO transcriptions (content_id, text, start_time, end_time) \n                       VALUES ('"

  /** The segment text as it goes into its literal: quotes doubled, then stripped. */
  function CleanText(text: string): (r: string)
    ensures Trimmed(r)
    ensures |r| <= |text| + Occurrences(text, Quote)
  {
    Strip(EscapeQuotes(text))
  }

  /** The statement template filled in; no field is escaped or converted here. */
  function InsertStatement(contentId: string, text: string, start: string, end: string): string {
    StatementHead + contentId + "', '" + text + "', " + start + ", " + end + ");"
  }

  /** Fields 0, 1 and 2 exist and none of them is the empty string. */
  predicate IsComplete(row: Row) {
    |row| >= 3 && row[0] != [] && row[1] != [] && row[2] != []
  }

  /** The statement one data row yields, or None when the row is skipped. */
  function RowStatement(row: Row, contentId: string): (r: Option<string>)
    ensures r.Some? <==> IsComplete(row)
  {
    if IsComplete(row) then Some(InsertStatement(contentId, CleanText(row[2]), row[0], row[1]))
    else None
  }

  /** The statements of the data rows, in row order. */
  function Statements(rows: seq<Row>, contentId: string): (out: seq<string>)
    ensures |out| <= |rows|
    decreases |rows|
  {
    if rows == [] then []
    else Statements(rows[..|rows| - 1], contentId) + OptionToSeq(RowStatement(rows[|rows| - 1], contentId))
  }

  /** The whole transform: the header is dropped, the other rows are converted. */
  function Transform(rows: seq<Row>, contentId: string): (r: Result<seq<string>, TransformError>)
    ensures r.Failure? <==> rows == []
    ensures r.Success? ==> |r.value| < |rows|
  {
    if rows == [] then Failure(MissingHeader) else Success(Statements(rows[1..], contentId))
  }

  // ---------------------------------------------------------------------------
  // Which rows produce a statement, and in what order
  // ---------------------------------------------------------------------------

  /** A source with no rows fails; a header alone, whatever it holds, gives no statements. */
  lemma HeaderOnly(header: Row, contentId: string)
    ensures Transform([], contentId) == Failure(MissingHeader)
    ensures Transform([header], contentId) == Success([])
  {
    assert [header][1..] == [];
  }

  /** The first row never contributes: swapping it for any other row changes nothing. */
  lemma HeaderIgnored(h1: Row, h2: Row, data: seq<Row>, contentId: string)
    ensures Transform([h1] + data, contentId) == Transform([h2] + data, contentId)
    ensures Transform([h1] + data, contentId) == Success(Statements(data, contentId))
  {
    assert ([h1] + data)[1..] == data;
    assert ([h2] + data)[1..] == data;
  }

  /**
   * Whether a row is skipped, and the statement it yields, depend on its first
   * three fields only; a row with fewer than three fields is skipped.
   */
  lemma RowStatementFirstThree(r1: Row, r2: Row, contentId: string)
    ensures |r1| < 3 ==> RowStatement(r1, contentId) == None
    ensures |r1| >= 3 && |r2| >= 3 && r1[..3] == r2[..3] ==> RowStatement(r1, contentId) == RowStatement(r2, contentId)
  {
    if |r1| >= 3 && |r2| >= 3 && r1[..3] == r2[..3] {
      assert r1[0] == r1[..3][0] && r1[1] == r1[..3][1] && r1[2] == r1[..3][2];
      assert r2[0] == r2[..3][0] && r2[1] == r2[..3][1] && r2[2] == r2[..3][2];
    }
  }

  /**
   * The emptiness test looks at the raw text, before stripping: a text made of
   * whitespace only is kept, and its literal is empty.
   */
  lemma WhitespaceTextKept(start: string, end: string, text: string, extra: seq<string>, contentId: string)
    requires start != [] && end != [] && text != [] && AllSpace(text)
    ensures RowStatement([start, end, text] + extra, contentId) == Some(InsertStatement(contentId, "", start, end))
  {
    OccurrencesAllSpace(text);
    EscapeWithoutQuotes(text);
    assert text == text + [] + [];
    StripUnique(text, [], []);
    assert ([start, end, text] + extra)[2] == text;
  }

  /** Statements of two stretches of rows, one after the other. */
  lemma {:induction false} StatementsAppend(a: seq<Row>, b: seq<Row>, contentId: string)
    ensures Statements(a + b, contentId) == Statements(a, contentId) + Statements(b, contentId)
    decreases |b|
  {
    if b == [] {
      assert a + b == a;
    } else {
      var n := |b| - 1;
      assert (a + b)[..|a + b| - 1] == a + b[..n];
      assert (a + b)[|a + b| - 1] == b[n];
      StatementsAppend(a, b[..n], contentId);
    }
  }

  /** The statements around one row: those before it, its own (if any), those after it. */
  lemma StatementsAround(before: seq<Row>, row: Row, after: seq<Row>, contentId: string)
    ensures Statements(before + [row] + after, contentId)
      == Statements(before, contentId) + OptionToSeq(RowStatement(row, contentId)) + Statements(after, contentId)
  {
    assert [row][..0] == [];
    assert Statements([row], contentId) == OptionToSeq(RowStatement(row, contentId));
    StatementsAppend(before + [row], after, contentId);
    StatementsAppend(before, [row], contentId);
  }

  /** A skipped row leaves no trace in the output. */
  lemma SkippedRowVanishes(before: seq<Row>, row: Row, after: seq<Row>, contentId: string)
    requires !IsComplete(row)
    ensures Statements(before + [row] + after, contentId) == Statements(before + after, contentId)
  {
    StatementsAround(before, row, after, contentId);
    StatementsAppend(before, after, contentId);
    assert OptionToSeq(RowStatement(row, contentId)) == [];
    assert Statements(before, contentId) + [] == Statements(before, contentId);
  }

  /**
   * A usable row adds exactly one statement, its own, in its place: one more
   * than the same rows without it.
   */
  lemma KeptRowAddsOne(before: seq<Row>, row: Row, after: seq<Row>, contentId: string)
    requires IsComplete(row)
    ensures RowStatement(row, contentId).Some?
    ensures Statements(before + [row] + after, contentId)
      == Statements(before, contentId) + [RowStatement(row, contentId).value] + Statements(after, contentId)
    ensures |Statements(before + [row] + after, contentId)| == |Statements(before + after, contentId)| + 1
  {
    StatementsAround(before, row, after, contentId);
    StatementsAppend(before, after, contentId);
    assert OptionToSeq(RowStatement(row, contentId)) == [RowStatement(row, contentId).value];
  }

  /** Positions of the usable rows, in increasing order. */
  function KeptRows(rows: seq<Row>): (idx: seq<nat>)
    ensures forall k :: 0 <= k < |idx| ==> idx[k] < |rows| && IsComplete(rows[idx[k]])
    ensures forall k, l :: 0 <= k < l < |idx| ==> idx[k] < idx[l]
    ensures forall i :: 0 <= i < |rows| && IsComplete(rows[i]) ==> i in idx
    decreases |rows|
  {
    if rows == [] then []
    else
      var n := |rows| - 1;
      var front := KeptRows(rows[..n]);
      front + (if IsComplete(rows[n]) then [n] else [])
  }

  /**
   * Each output statement belongs to exactly one usable row, the k-th
   * statement to the k-th usable row, so the output follows row order and has
   * one statement per usable row and no other.
   */
  lemma {:induction false} StatementsFollowKeptRows(rows: seq<Row>, contentId: string)
    ensures |Statements(rows, contentId)| == |KeptRows(rows)|
    ensures forall k :: 0 <= k < |KeptRows(rows)| ==>
      RowStatement(rows[KeptRows(rows)[k]], contentId) == Some(Statements(rows, contentId)[k])
    decreases |rows|
  {
    if rows != [] {
      var n := |rows| - 1;
      StatementsFollowKeptRows(rows[..n], contentId);
      var front, out := KeptRows(rows[..n]), Statements(rows[..n], contentId);
      var one := OptionToSeq(RowStatement(rows[n], contentId));
      assert Statements(rows, contentId) == out + one;
      forall k | 0 <= k < |front|
        ensures RowStatement(rows[KeptRows(rows)[k]], contentId) == Some(Statements(rows, contentId)[k])
      {
        assert KeptRows(rows)[k] == front[k];
        assert rows[front[k]] == rows[..n][front[k]];
        assert Statements(rows, contentId)[k] == out[k];
      }
      if IsComplete(rows[n]) {
        assert KeptRows(rows) == front + [n];
        assert one == [RowStatement(rows[n], contentId).value];
        assert Statements(rows, contentId)[|front|] == RowStatement(rows[n], contentId).value;
      } else {
        assert KeptRows(rows) == front;
        assert Statements(rows, contentId) == out;
      }
    }
  }

  // ---------------------------------------------------------------------------
  // What a statement says
  // ---------------------------------------------------------------------------

  /**
   * The escaping law: a text with n quotes gives a cleaned text with 2n, every
   * one of them in an adjacent pair, and cleaning is the same as stripping the
   * raw text and then doubling its quotes.
   */
  lemma CleanTextLaws(text: string)
    ensures CleanText(text) == EscapeQuotes(Strip(text))
    ensures Occurrences(CleanText(text), Quote) == 2 * Occurrences(text, Quote)
    ensures QuotesPaired(CleanText(text))
  {
    EscapeStripCommute(text);
    StripKeepsQuotes(text);
    EscapedQuotesPaired(Strip(text));
  }

  /**
   * Where the pieces of a filled template sit, for any head; stated for a
   * head in general so that the proof never looks inside the constant one.
   */
  lemma TemplateSlices(head: string, contentId: string, text: string, start: string, end: string)
    ensures var stmt := head + contentId + "', '" + text + "', " + start + ", " + end + ");";
      var at := |head| + |contentId|;
      |stmt| > at + 4
      && stmt[..|head|] == head
      && stmt[|head|..at] == contentId
      && stmt[at..at + 4] == "', '"
      && stmt[|head|..] == contentId + [Quote] + (", '" + text + "', " + start + ", " + end + ");")
      && stmt[at + 4..] == text + [Quote] + (", " + start + ", " + end + ");")
  {
  }

  /**
   * A statement starts with the fixed template and the content identifier
   * verbatim; read as SQL, its text literal holds exactly the stripped raw
   * text, and it closes where the template says, followed by the start and end
   * fields verbatim and unquoted.
   */
  lemma StatementFields(contentId: string, text: string, start: string, end: string)
    ensures var stmt := InsertStatement(contentId, CleanText(text), start, end);
      var at := |StatementHead| + |contentId|;
      |stmt| > at + 4
      && stmt[..|StatementHead|] == StatementHead
      && stmt[|StatementHead|..at] == contentId
      && stmt[at..at + 4] == "', '"
      && ReadLiteral(stmt[at + 4..]) == Some((Strip(text), ", " + start + ", " + end + ");"))
  {
    CleanTextLaws(text);
    LiteralRoundTrip(Strip(text), ", " + start + ", " + end + ");");
    TemplateSlices(StatementHead, contentId, CleanText(text), start, end);
  }

  /**
   * The content identifier is inserted as it is: when it holds no quote its
   * literal reads back as the identifier itself.
   */
  lemma ContentIdVerbatim(contentId: string, text: string, start: string, end: string)
    requires Occurrences(contentId, Quote) == 0
    ensures var stmt := InsertStatement(contentId, text, start, end);
      ReadLiteral(stmt[|StatementHead|..]) == Some((contentId, ", '" + text + "', " + start + ", " + end + ");"))
  {
    EscapeWithoutQuotes(contentId);
    LiteralRoundTrip(contentId, ", '" + text + "', " + start + ", " + end + ");");
    TemplateSlices(StatementHead, contentId, text, start, end);
  }

  /**
   * Nothing escapes the content identifier. When its first quote is followed
   * by a character other than a quote, its literal ends at that quote, and
   * the rest of the identifier is read as SQL text after the literal. (A
   * doubled quote reads as one quote instead, and a quote at the very end
   * pairs with the template's own closing quote; neither case is covered here.)
   */
  lemma ContentIdQuoteEndsLiteral(pre: string, post: string, text: string, start: string, end: string)
    requires Occurrences(pre, Quote) == 0
    requires post != [] && post[0] != Quote
    ensures var stmt := InsertStatement(pre + [Quote] + post, text, start, end);
      ReadLiteral(stmt[|StatementHead|..]) == Some((pre, post + [Quote] + (", '" + text + "', " + start + ", " + end + ");")))
  {
    var tail := ", '" + text + "', " + start + ", " + end + ");";
    var rest := post + [Quote] + tail;
    ConcatAssoc(pre + [Quote], post, [Quote], tail);
    assert rest[0] == post[0];
    EscapeWithoutQuotes(pre);
    LiteralRoundTrip(pre, rest);
    TemplateSlices(StatementHead, pre + [Quote] + post, text, start, end);
  }

  /** One more row of the loop: the statements so far, then that row's own. */
  lemma StatementsStep(rows: seq<Row>, i: nat, contentId: string)
    requires 1 <= i < |rows|
    ensures Statements(rows[1..i + 1], contentId) == Statements(rows[1..i], contentId) + OptionToSeq(RowStatement(rows[i], contentId))
  {
    assert rows[1..i + 1][..i - 1] == rows[1..i];
  }

  /**
   * The loop of `process_transcription`: skip the header, then append the
   * statement of every usable row to a growing list.
   */
  method ProcessTranscription(rows: seq<Row>, contentId: string) returns (r: Result<seq<string>, TransformError>)
    ensures r == Transform(rows, contentId)
  {
    if |rows| == 0 {
      return Failure(MissingHeader);
    }
    var sqlStatements: seq<string> := [];
    for i := 1 to |rows|
      invariant sqlStatements == Statements(rows[1..i], contentId)
    {
      var row := rows[i];
      StatementsStep(rows, i, contentId);
      if |row| >= 3 {
        var start, end, text := row[0], row[1], row[2];
        if start == [] || end == [] || text == [] {
          assert RowStatement(row, contentId) == None;
          continue;
        }
        text := Strip(EscapeQuotes(text));
        var sql := InsertStatement(contentId, text, start, end);
        assert RowStatement(row, contentId) == Some(sql);
        sqlStatements := sqlStatements + [sql];
      } else {
        assert RowStatement(row, contentId) == None;
      }
    }
    assert rows[1..|rows|] == rows[1..];
    return Success(sqlStatements);
  }
}
