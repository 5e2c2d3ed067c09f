/** `analyze_feedback` of `app.py`: the digest of the most recent reviews
    that goes into the analysis prompt, and the section-header parser that
    cuts the model's answer into a summary and an action text.

    The model call (`client.text_generation`) is a function parameter:
    every statement below holds whatever the model answers. */
module Admin {
  import opened PyStr

  /** One row of the feedback table, as far as the digest reads it. */
  datatype Row = Row(rating: int, review: string)

  /** The `(summary, actions)` pair `analyze_feedback` returns. */
  datatype Report = Report(summary: string, actions: string)

  /** `df.tail(20)`: only the last twenty rows enter the prompt. */
  const DigestWindow: nat := 20

  const NoDataSummary: string := "No data to analyze."
  const NoDataActions: string := "No actions needed."
  const SummaryMarker: string := "SUMMARY:"
  const ActionsMarker: string := "ACTIONS:"
  const ActionsFallback: string := "Could not parse actions."

  /** `df.tail(n)`: the last `n` rows, or all of them when there are
      fewer, in their original order. */
  function LastRows(rows: seq<Row>, n: nat): (r: seq<Row>)
    ensures |r| == if |rows| < n then |rows| else n
    ensures forall i :: 0 <= i < |r| ==> r[i] == rows[|rows| - |r| + i]
  {
    if |rows| <= n then rows else rows[|rows| - n..]
  }

  /** One digest line: `f"- {rating} stars: {review}"`. It opens with the
      bullet, holds ` stars: ` right after the rating's decimal text, and
      ends with the review. */
  function DigestLine(row: Row): (line: string)
    ensures |line| >= 2 && line[..2] == "- "
    ensures IsOccurrence(line, IntToString(row.rating) + " stars: ", 2)
    ensures |row.review| <= |line| && line[|line| - |row.review|..] == row.review
    ensures |line| == 2 + |IntToString(row.rating)| + 8 + |row.review|
  {
    var t := IntToString(row.rating);
    var line := "- " + t + " stars: " + row.review;
    assert line == "- " + (t + " stars: ") + row.review;
    line
  }

  /** The list comprehension over the rows: one line per row, in order. */
  function DigestLines(rows: seq<Row>): (lines: seq<string>)
    ensures |lines| == |rows|
    ensures forall i :: 0 <= i < |rows| ==> lines[i] == DigestLine(rows[i])
  {
    if rows == [] then [] else [DigestLine(rows[0])] + DigestLines(rows[1..])
  }

  /** `recent_reviews`: the lines of the last twenty rows joined by line
      breaks. It is empty exactly when there are no rows, and otherwise
      opens with the line of the first recent row. */
  function Digest(rows: seq<Row>): (d: string)
    ensures d == [] <==> rows == []
    ensures rows != [] ==> |d| >= 2 && d[..2] == "- "
  {
    var lines := DigestLines(LastRows(rows, DigestWindow));
    var d := Join(lines, "\n");
    assert lines != [] ==> d[..|lines[0]|] == lines[0] && |lines[0]| >= 2;
    assert lines != [] ==> d[..2] == lines[0][..2];
    d
  }

  /** The digest has one line per row for at most the last twenty rows,
      in their original order. */
  lemma DigestLayout(rows: seq<Row>)
    ensures |DigestLines(LastRows(rows, DigestWindow))| == (if |rows| < 20 then |rows| else 20)
    ensures var lines := DigestLines(LastRows(rows, DigestWindow));
            forall i :: 0 <= i < |lines| ==> lines[i] == DigestLine(rows[|rows| - |lines| + i])
  {
    var recent := LastRows(rows, DigestWindow);
    var lines := DigestLines(recent);
    forall i | 0 <= i < |lines| ensures lines[i] == DigestLine(rows[|rows| - |lines| + i]) {
      assert recent[i] == rows[|rows| - |recent| + i];
      assert lines[i] == DigestLine(recent[i]);
    }
  }

  /** When no review holds a line break, splitting the digest at line
      breaks gives back exactly one line per recent row. */
  lemma DigestSplitsIntoLines(rows: seq<Row>)
    requires rows != []
    requires forall i :: 0 <= i < |rows| ==> '\n' !in rows[i].review
    ensures Split(Digest(rows), "\n") == DigestLines(LastRows(rows, DigestWindow))
  {
    var recent := LastRows(rows, DigestWindow);
    var lines := DigestLines(recent);
    forall i | 0 <= i < |lines| ensures '\n' !in lines[i] {
      DigestLineUnbroken(recent[i]);
    }
    SplitJoin(lines, '\n');
  }

  /** A digest line holds a line break only if its review does. */
  lemma DigestLineUnbroken(row: Row)
    requires '\n' !in row.review
    ensures '\n' !in DigestLine(row)
  {
    var line := DigestLine(row);
    var t := IntToString(row.rating);
    forall k | 0 <= k < |line| ensures line[k] != '\n' {
      if 2 <= k < 2 + |t| {
        assert line[k] == t[k - 2];
        assert IsDigit(t[k - 2]) || t[k - 2] == '-';
      } else if 2 + |t| + 8 <= k {
        assert line[k] == row.review[k - 2 - |t| - 8];
      }
    }
  }

  /** The analysis prompt, with the indentation of its f-string. */
  function AnalysisPrompt(digest: string): string
  {
    "\n    Analyze the following customer reviews:\n    " + digest
    + "\n\n    Output Format:\n"
    + "    1. SUMMARY: (A brief summary of the main sentiment and issues)\n"
    + "    2. ACTIONS: (3 bullet points of recommended next actions for the admin)\n    "
  }

  /** Lines 89-91: `parts = analysis.split("ACTIONS:")`; the summary is the
      first part with every `SUMMARY:` removed, trimmed; the actions are
      the second part trimmed, or the fallback message. Every input gives
      a report, there is no error path, and the action text never holds
      the marker, since no piece of a split does. */
  function ParseSections(analysis: string): (r: Report)
    ensures !Contains(r.actions, ActionsMarker)
  {
    var parts := Split(analysis, ActionsMarker);
    var summary := Strip(Replace(parts[0], SummaryMarker, ""));
    var actions := if |parts| > 1 then Strip(parts[1]) else ActionsFallback;
    FallbackLacksMarker();
    assert |parts| > 1 ==> !Contains(Strip(parts[1]), ActionsMarker) by {
      if |parts| > 1 {
        StripKeepsAbsence(parts[1], ActionsMarker);
      }
    }
    Report(summary, actions)
  }

  /** Without `ACTIONS:` the whole answer, with every `SUMMARY:` removed
      and trimmed, is the summary, and the actions are the fallback. */
  lemma ParseSectionsWithoutMarker(analysis: string)
    requires !Contains(analysis, ActionsMarker)
    ensures ParseSections(analysis) == Report(Strip(Replace(analysis, SummaryMarker, "")), ActionsFallback)
  {
    SplitFirstPieces(analysis, ActionsMarker);
  }

  /** With `ACTIONS:` present, the summary comes only from the text before
      its first occurrence, and the actions are the trimmed text after it
      up to the next occurrence or the end; text after a second marker is
      dropped. */
  lemma ParseSectionsWithMarker(analysis: string)
    requires Contains(analysis, ActionsMarker)
    ensures var i := Find(analysis, ActionsMarker);
            && ParseSections(analysis).summary == Strip(Replace(analysis[..i], SummaryMarker, ""))
            && ParseSections(analysis).actions
               == Strip(UpToFirst(analysis[i + |ActionsMarker|..], ActionsMarker))
  {
    SplitFirstPieces(analysis, ActionsMarker);
  }

  lemma FallbackLacksMarker()
    ensures !Contains(ActionsFallback, ActionsMarker)
  {
    assert ActionsMarker[0] == 'A';
    MissingChar(ActionsFallback, ActionsMarker, 'A');
  }

  /** An answer with exactly one `ACTIONS:` splits there: the summary
      from the text before it, the actions from the text after it. */
  lemma ParseSectionsOneMarker(before: string, after: string)
    requires !Contains(before, ActionsMarker) && !Contains(after, ActionsMarker)
    ensures ParseSections(before + ActionsMarker + after)
         == Report(Strip(Replace(before, SummaryMarker, "")), Strip(after))
  {
    var a := before + ActionsMarker + after;
    assert ActionsMarker[1..] == "CTIONS:";
    FindAfter(before, ActionsMarker, after);
    assert Contains(a, ActionsMarker);
    ParseSectionsWithMarker(a);
    assert a[..|before|] == before;
    assert a[|before| + |ActionsMarker|..] == after;
  }

  /** An unnumbered answer `SUMMARY: <summary> ACTIONS: <actions>` gives
      back exactly the two texts, provided neither holds a colon (both
      markers end in one) and neither starts or ends with white space. */
  lemma ParseSectionsLabelled(answer: string, summary: string, actions: string)
    requires answer == SummaryMarker + (" " + summary + " ") + ActionsMarker + (" " + actions)
    requires ':' !in summary && ':' !in actions
    requires summary != [] ==> !IsSpace(summary[0]) && !IsSpace(summary[|summary| - 1])
    requires actions != [] ==> !IsSpace(actions[0]) && !IsSpace(actions[|actions| - 1])
    ensures ParseSections(answer) == Report(summary, actions)
  {
    var rest := " " + summary + " ";
    var after := " " + actions;
    assert ':' !in rest;
    LabelLacksActions(rest);
    assert ActionsMarker[7] == ':';
    MissingChar(after, ActionsMarker, ':');
    SummaryAfterMarker(rest);
    assert AllSpace(" ");
    StripExact(" ", summary, " ");
    StripLeadingBlank(actions);
    ParseSectionsPieces(SummaryMarker + rest, after, summary, actions);
  }

  /** The one-marker case, with the two trimmed texts named. */
  lemma ParseSectionsPieces(before: string, after: string, summary: string, actions: string)
    requires !Contains(before, ActionsMarker) && !Contains(after, ActionsMarker)
    requires Strip(Replace(before, SummaryMarker, "")) == summary && Strip(after) == actions
    ensures ParseSections(before + ActionsMarker + after) == Report(summary, actions)
  {
    ParseSectionsOneMarker(before, after);
  }

  lemma StripLeadingBlank(m: string)
    requires m != [] ==> !IsSpace(m[0]) && !IsSpace(m[|m| - 1])
    ensures Strip(" " + m) == m
  {
    assert AllSpace(" ") && AllSpace("");
    assert " " + m + "" == " " + m;
    StripExact(" ", m, "");
  }

  /** `SUMMARY:` followed by a text without a colon holds no `ACTIONS:`. */
  lemma LabelLacksActions(rest: string)
    requires ':' !in rest
    ensures !Contains(SummaryMarker + rest, ActionsMarker)
  {
    var before := SummaryMarker + rest;
    forall j ensures !IsOccurrence(before, ActionsMarker, j) {
      if 0 <= j && j + |ActionsMarker| <= |before| {
        var w := before[j..j + |ActionsMarker|];
        assert w[0] == before[j] && w[7] == before[j + 7];
        if j > 0 {
          assert before[j + 7] == rest[j - 1];
        }
      }
    }
  }

  /** Removing a leading `SUMMARY:` from a text that holds no other one
      leaves the rest as it is. */
  lemma SummaryAfterMarker(rest: string)
    requires ':' !in rest
    ensures Replace(SummaryMarker + rest, SummaryMarker, "") == rest
  {
    var x := SummaryMarker + rest;
    assert x == [] + SummaryMarker + rest;
    assert SummaryMarker[1..] == "UMMARY:";
    assert !IsOccurrence([], SummaryMarker, 0);
    FindAfter([], SummaryMarker, rest);
    assert SummaryMarker[7] == ':';
    MissingChar(rest, SummaryMarker, ':');
    assert x[|SummaryMarker|..] == rest;
  }

  /** The prompt asks for numbered lines, `1. SUMMARY: ...` and
      `2. ACTIONS: ...`. For an answer in exactly that layout the parser
      keeps the numbering: the summary starts with `1.` and ends with the
      `2.` of the next line. */
  lemma ParseSectionsNumbered(answer: string, summary: string, actions: string)
    requires answer == "1. " + SummaryMarker + (" " + summary + "\n2. ") + ActionsMarker + (" " + actions)
    requires ':' !in summary && ':' !in actions
    requires summary != [] ==> !IsSpace(summary[0]) && !IsSpace(summary[|summary| - 1])
    requires actions != [] ==> !IsSpace(actions[0]) && !IsSpace(actions[|actions| - 1])
    ensures ParseSections(answer) == Report("1.  " + summary + "\n2.", actions)
  {
    var pre, rest := "1. ", " " + summary + "\n2. ";
    var after := " " + actions;
    assert ':' !in rest && ':' !in pre;
    NumberedLacksActions(pre, rest);
    assert ActionsMarker[7] == ':';
    MissingChar(after, ActionsMarker, ':');
    NumberedSummaryAfterMarker(pre, rest);
    NumberedStrip(summary);
    StripLeadingBlank(actions);
    ParseSectionsPieces(pre + SummaryMarker + rest, after, "1.  " + summary + "\n2.", actions);
  }

  /** A colon-free text, `SUMMARY:`, and a colon-free text hold no
      `ACTIONS:`: the only colon is the one of `SUMMARY:`. */
  lemma NumberedLacksActions(pre: string, rest: string)
    requires ':' !in pre && ':' !in rest
    ensures !Contains(pre + SummaryMarker + rest, ActionsMarker)
  {
    var before := pre + SummaryMarker + rest;
    forall j ensures !IsOccurrence(before, ActionsMarker, j) {
      if 0 <= j && j + |ActionsMarker| <= |before| {
        var w := before[j..j + |ActionsMarker|];
        assert w[0] == before[j] && w[7] == before[j + 7];
        if j + 7 < |pre| {
          assert before[j + 7] == pre[j + 7];
        } else if j + 7 < |pre| + 7 {
          assert before[j + 7] == SummaryMarker[j + 7 - |pre|];
          assert SummaryMarker[..7] == "SUMMARY";
        } else if j + 7 == |pre| + 7 {
          assert before[j] == SummaryMarker[0];
        } else {
          assert before[j + 7] == rest[j + 7 - |pre| - 8];
        }
      }
    }
  }

  /** Removing `SUMMARY:` from a colon-free text, the marker and a
      colon-free text leaves the two texts. */
  lemma NumberedSummaryAfterMarker(pre: string, rest: string)
    requires ':' !in pre && ':' !in rest
    ensures Replace(pre + SummaryMarker + rest, SummaryMarker, "") == pre + rest
  {
    var x := pre + SummaryMarker + rest;
    assert SummaryMarker[1..] == "UMMARY:";
    assert SummaryMarker[7] == ':';
    MissingChar(pre, SummaryMarker, ':');
    FindAfter(pre, SummaryMarker, rest);
    MissingChar(rest, SummaryMarker, ':');
    assert x[..|pre|] == pre;
    assert x[|pre| + |SummaryMarker|..] == rest;
  }

  lemma NumberedStrip(summary: string)
    requires summary != [] ==> !IsSpace(summary[0]) && !IsSpace(summary[|summary| - 1])
    ensures Strip("1. " + (" " + summary + "\n2. ")) == "1.  " + summary + "\n2."
  {
    var m := "1.  " + summary + "\n2.";
    assert AllSpace("") && AllSpace(" ");
    assert m[0] == '1' && m[|m| - 1] == '.';
    assert "1. " + (" " + summary + "\n2. ") == "" + m + " ";
    StripExact("", m, " ");
  }

  /** The answer `SUMMARY: great day ACTIONS: - do X\n- do Y`. */
  lemma ParseSectionsExample()
    ensures ParseSections("SUMMARY: great day ACTIONS: - do X\n- do Y")
         == Report("great day", "- do X\n- do Y")
  {
    var answer := "SUMMARY: great day ACTIONS: - do X\n- do Y";
    assert answer == SummaryMarker + (" " + "great day" + " ") + ActionsMarker + (" " + "- do X\n- do Y");
    ParseSectionsLabelled(answer, "great day", "- do X\n- do Y");
  }

  /** `analyze_feedback(df)`: with no rows, the fixed pair and no model
      call; otherwise the section parse of the model's answer to the
      prompt built from the digest. */
  function AnalyzeFeedback(rows: seq<Row>, generate: string -> string): (r: Report)
    ensures rows == [] ==> r == Report(NoDataSummary, NoDataActions)
    ensures rows != [] ==> r == ParseSections(generate(AnalysisPrompt(Digest(rows))))
    ensures rows != [] ==> !Contains(r.actions, ActionsMarker)
  {
    if rows == [] then Report(NoDataSummary, NoDataActions)
    else ParseSections(generate(AnalysisPrompt(Digest(rows))))
  }

  /** With rows present, the report depends on the model's answer alone:
      two models that answer the prompt alike give the same report. */
  lemma AnalyzeFeedbackDependsOnAnswer(rows: seq<Row>, g1: string -> string, g2: string -> string)
    requires rows != []
    requires g1(AnalysisPrompt(Digest(rows))) == g2(AnalysisPrompt(Digest(rows)))
    ensures AnalyzeFeedback(rows, g1) == AnalyzeFeedback(rows, g2)
  {
  }
}
