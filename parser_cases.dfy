/**
  The commits the parsers' own examples describe, worked out on the model. Each case fixes
  a body and its trailer text (saved commits) or a raw message and its trailers (unsaved
  commits) and states every derived field. The helpers each compute one split, one search
  or one cut; the `...Fields` lemmas put the steps together the way the parsers do.
*/
module ParserCases {
  import opened Optional
  import opened RubyText
  import opened Segmentation
  import SavedEntry
  import UnsavedEntry

  // ---------------------------------------------------------------------------------------
  // Searching for the trailer block

  /**
    A trailer block that starts with "One:" is first found right after a leading "One.\n\n"
    paragraph: the paragraph differs from it in its fourth character and holds no other 'O'.
  */
  lemma BlockAfterParagraph(block: string, rest: string)
    requires |block| >= 4 && block[..4] == "One:"
    ensures Find("One.\n\n" + block + rest, block) == Some(6)
  {
    var body := "One.\n\n" + block + rest;
    assert body[..6] == "One.\n\n" && body[6..6 + |block|] == block;
    assert body[0] == 'O' && body[3] == '.' && block[0] == 'O' && block[3] == ':';
    assert body[1] == 'n' && body[2] == 'e' && body[4] == '\n' && body[5] == '\n';
    forall j: nat | j < 6 ensures !OccursAt(body, block, j) {
      if j == 0 { OccursAtMismatch(body, block, 0, 3); }
      else { OccursAtMismatch(body, block, j, 0); }
    }
    FindAt(body, block, 6);
  }

  /** The same search when the paragraph follows an empty first body line. */
  lemma BlockAfterLeadingParagraph(block: string, rest: string)
    requires |block| >= 4 && block[..4] == "One:"
    ensures Find("\nOne.\n\n" + block + rest, block) == Some(7)
  {
    var body := "\nOne.\n\n" + block + rest;
    assert body[..7] == "\nOne.\n\n" && body[7..7 + |block|] == block;
    assert body[1] == 'O' && body[4] == '.' && block[0] == 'O' && block[3] == ':';
    assert body[0] == '\n' && body[2] == 'n' && body[3] == 'e' && body[5] == '\n';
    assert body[6] == '\n';
    forall j: nat | j < 7 ensures !OccursAt(body, block, j) {
      if j == 1 { OccursAtMismatch(body, block, 1, 3); }
      else { OccursAtMismatch(body, block, j, 0); }
    }
    FindAt(body, block, 7);
  }

  /** The trailer blocks of the examples, as `join("\n")` builds them. */
  lemma TrailerBlocks()
    ensures Join(["One: 1"], "\n") == "One: 1"
    ensures Join(["One: 1", "Two: 2"], "\n") == "One: 1\nTwo: 2"
  {
    assert Join(["Two: 2"], "\n") == "Two: 2";
  }

  /** Either trailer block starts with the key "One:". */
  lemma TrailerBlockStart(trailers: seq<string>)
    requires trailers == ["One: 1"] || trailers == ["One: 1", "Two: 2"]
    ensures var block := Join(trailers, "\n"); |block| >= 4 && block[..4] == "One:"
  {
    TrailerBlocks();
    var block := Join(trailers, "\n");
    assert block[0] == 'O' && block[1] == 'n' && block[2] == 'e' && block[3] == ':';
  }

  /** Trailer text of one or two lines splits into those lines. */
  lemma TrailerLines(text: string)
    ensures text == "One: 1\n" ==> Split(text, "\n") == ["One: 1"]
    ensures text == "One: 1\nTwo: 2\n" ==> Split(text, "\n") == ["One: 1", "Two: 2"]
  {
    TrailerBlocks();
    if text == "One: 1\n" {
      assert text == Join(["One: 1"], "\n") + "\n";
      SplitJoinLines(["One: 1"]);
    }
    if text == "One: 1\nTwo: 2\n" {
      assert text == Join(["One: 1", "Two: 2"], "\n") + "\n";
      SplitJoinLines(["One: 1", "Two: 2"]);
    }
  }

  // ---------------------------------------------------------------------------------------
  // Saved commits

  /** The fields of a saved parse, from the steps that produce them. */
  lemma SavedFields(a: SavedEntry.Attributes, trailers: seq<string>, index: Option<nat>,
                    stripped: string, bodyLines: seq<string>, paragraphs: seq<string>)
    requires SavedEntry.SplitTrailers(a.trailers) == trailers
    requires TrailersIndex(a.body, trailers) == index
    requires SavedEntry.BodyWithoutTrailers(a.body, trailers) == stripped
    requires BodyLines(stripped) == bodyLines
    requires RejectComments(ChompAll(Split(stripped, "\n\n"))) == paragraphs
    ensures SavedEntry.Parse(a).trailers == Some(trailers)
    ensures SavedEntry.Parse(a).trailersIndex == index
    ensures SavedEntry.Parse(a).bodyLines == Some(bodyLines)
    ensures SavedEntry.Parse(a).bodyParagraphs == Some(paragraphs)
  {
  }

  /** "One.\n\n", the saved body once the trailers are cut: one line, one paragraph. */
  lemma OneParagraph(text: string)
    requires text == "One.\n\n"
    ensures BodyLines(text) == ["One."]
    ensures RejectComments(ChompAll(Split(text, "\n\n"))) == ["One."]
  {
    OneParagraphLines(text);
    OneParagraphPieces(text);
    assert ChompAll(["One."]) == ["One."];
  }

  /** "One.\n\n" has the one line "One.". */
  lemma OneParagraphLines(text: string)
    requires text == "One.\n\n"
    ensures BodyLines(text) == ["One."]
  {
    assert text == "One." + "\n\n";
    OneChars();
    LineThenBlank("One.", text);
  }

  /** A line that is no comment, then a blank line, is one body line. */
  lemma LineThenBlank(x: string, text: string)
    requires text == x + "\n\n" && x != "" && '\n' !in x && !IsComment(x)
    ensures BodyLines(text) == [x]
  {
    var xs := [x, ""];
    assert xs[1..] == [""];
    assert text == Join(xs, "\n") + "\n";
    SplitJoinLines(xs);
    assert xs[..1] == [x];
    KeepNonComments([x]);
  }

  /** "One.\n\n" is the one paragraph "One." and an empty field after it. */
  lemma OneParagraphPieces(text: string)
    requires text == "One.\n\n"
    ensures Split(text, "\n\n") == ["One."]
  {
    LineIsParagraphField("One.");
    LineIsParagraphField("");
    assert text == Join(["One.", ""], "\n\n");
    RawSplitJoinParagraphs(["One.", ""]);
  }

  /** Cutting a saved body at the trailer block found after its "One.\n\n" paragraph. */
  lemma SavedCut(trailers: seq<string>, rest: string)
    requires trailers == ["One: 1"] || trailers == ["One: 1", "Two: 2"]
    ensures var body := "One.\n\n" + Join(trailers, "\n") + rest;
      SavedEntry.BodyWithoutTrailers(body, trailers) == "One.\n\n"
  {
    TrailerBlocks();
    var block := Join(trailers, "\n");
    BlockAfterParagraph(block, rest);
    var body := "One.\n\n" + block + rest;
    assert body[..6] == "One.\n\n";
  }

  /** The lines of the two-trailer body. */
  lemma TwoTrailerLines(body: string)
    requires body == "One.\n\nOne: 1\nTwo: 2\n"
    ensures Split(body, "\n") == ["One.", "", "One: 1", "Two: 2"]
  {
    assert body == Join(["One.", "", "One: 1", "Two: 2"], "\n") + "\n";
    SplitJoinLines(["One.", "", "One: 1", "Two: 2"]);
  }

  /** The two-trailer body as the paragraph, the trailer block and one newline. */
  lemma TwoTrailerParts(body: string)
    requires body == "One.\n\nOne: 1\nTwo: 2\n"
    ensures body == "One.\n\n" + "One: 1\nTwo: 2" + "\n"
  {
  }

  /**
    A saved commit whose one paragraph is followed by two trailers: the trailer text becomes
    two lines, the first trailer is line 2 of the body, and neither the body lines nor the
    paragraphs keep the trailers.
  */
  lemma SavedWithTrailers(a: SavedEntry.Attributes)
    requires a.body == "One.\n\nOne: 1\nTwo: 2\n" && a.trailers == "One: 1\nTwo: 2\n"
    ensures SavedEntry.Parse(a).trailers == Some(["One: 1", "Two: 2"])
    ensures SavedEntry.Parse(a).trailersIndex == Some(2)
    ensures SavedEntry.Parse(a).bodyLines == Some(["One."])
    ensures SavedEntry.Parse(a).bodyParagraphs == Some(["One."])
  {
    TrailerLines(a.trailers);
    TwoTrailerLines(a.body);
    assert IndexOf(["One.", "", "One: 1", "Two: 2"], "One: 1") == Some(2);
    TwoTrailerParts(a.body);
    TrailerBlocks();
    SavedCut(["One: 1", "Two: 2"], "\n");
    OneParagraph("One.\n\n");
    SavedFields(a, ["One: 1", "Two: 2"], Some(2), "One.\n\n", ["One."], ["One."]);
  }

  /** The lines of the suffixed-comment body. */
  lemma SuffixedCommentLines(body: string)
    requires body == "One.\n\nOne: 1\n\n# One.\n\n# Two.\n"
    ensures Split(body, "\n") == ["One.", "", "One: 1", "", "# One.", "", "# Two."]
  {
    SuffixedCommentJoin();
    assert body == "One.\n\nOne: 1\n\n# One.\n\n# Two." + "\n";
    SplitJoinLines(["One.", "", "One: 1", "", "# One.", "", "# Two."]);
  }

  /** The seven lines of the suffixed-comment body, joined. */
  lemma SuffixedCommentJoin()
    ensures Join(["One.", "", "One: 1", "", "# One.", "", "# Two."], "\n")
      == "One.\n\nOne: 1\n\n# One.\n\n# Two."
  {
    var xs, ys := ["One.", "", "One: 1"], ["", "# One.", "", "# Two."];
    SuffixedCommentHalves();
    SuffixedCommentList(xs, ys);
    JoinAppend(xs, ys, "\n");
    SuffixedCommentHalvesJoined("One.\n\nOne: 1", "\n# One.\n\n# Two.");
  }

  /** The seven lines are the three up to the trailer and the four after it. */
  lemma SuffixedCommentList(xs: seq<string>, ys: seq<string>)
    requires xs == ["One.", "", "One: 1"] && ys == ["", "# One.", "", "# Two."]
    ensures xs + ys == ["One.", "", "One: 1", "", "# One.", "", "# Two."]
  {
  }

  /** The two halves of the text joined by a newline. */
  lemma SuffixedCommentHalvesJoined(a: string, b: string)
    requires a == "One.\n\nOne: 1" && b == "\n# One.\n\n# Two."
    ensures a + "\n" + b == "One.\n\nOne: 1\n\n# One.\n\n# Two."
  {
  }

  /** The lines up to the trailer, and the comment lines after it, joined. */
  lemma SuffixedCommentHalves()
    ensures Join(["One.", "", "One: 1"], "\n") == "One.\n\nOne: 1"
    ensures Join(["", "# One.", "", "# Two."], "\n") == "\n# One.\n\n# Two."
  {
    assert Join(["# Two."], "\n") == "# Two.";
    assert Join(["One: 1"], "\n") == "One: 1";
  }

  /** The suffixed-comment body as the paragraph, the trailer and the comments after it. */
  lemma SuffixedCommentParts(body: string)
    requires body == "One.\n\nOne: 1\n\n# One.\n\n# Two.\n"
    ensures body == "One.\n\n" + "One: 1" + "\n\n# One.\n\n# Two.\n"
  {
  }

  /**
    A saved commit whose trailer is followed by comment paragraphs: the trailer is line 2,
    and since the cut drops everything from the trailer on, the comments after it go too.
  */
  lemma SavedWithSuffixedComments(a: SavedEntry.Attributes)
    requires a.body == "One.\n\nOne: 1\n\n# One.\n\n# Two.\n" && a.trailers == "One: 1\n"
    ensures SavedEntry.Parse(a).trailers == Some(["One: 1"])
    ensures SavedEntry.Parse(a).trailersIndex == Some(2)
    ensures SavedEntry.Parse(a).bodyLines == Some(["One."])
    ensures SavedEntry.Parse(a).bodyParagraphs == Some(["One."])
  {
    TrailerLines(a.trailers);
    SuffixedCommentLines(a.body);
    assert IndexOf(["One.", "", "One: 1", "", "# One.", "", "# Two."], "One: 1") == Some(2);
    SuffixedCommentParts(a.body);
    TrailerBlocks();
    SavedCut(["One: 1"], "\n\n# One.\n\n# Two.\n");
    OneParagraph("One.\n\n");
    SavedFields(a, ["One: 1"], Some(2), "One.\n\n", ["One."], ["One."]);
  }

  // ---------------------------------------------------------------------------------------
  // Unsaved commits

  /** The fields of an unsaved parse, from the steps that produce them. */
  lemma UnsavedFields(message: string, sha: string, userName: string, userEmail: string,
                      trailers: seq<string>, subject: Option<string>, body: string,
                      index: Option<nat>, stripped: string, bodyLines: seq<string>,
                      paragraphs: seq<string>)
    requires UnsavedEntry.Subject(message) == subject
    requires UnsavedEntry.Body(message) == body
    requires TrailersIndex(body, trailers) == index
    requires UnsavedEntry.BodyWithoutTrailers(body, trailers) == stripped
    requires BodyLines(stripped) == bodyLines
    requires RejectComments(ChompAll(DeleteNewlinePrefixAll(Split(stripped, "\n\n")))) == paragraphs
    ensures var r := UnsavedEntry.Parse(message, sha, userName, userEmail, trailers);
      && r.subject == subject && r.body == Some(body) && r.trailersIndex == index
      && r.bodyLines == Some(bodyLines) && r.bodyParagraphs == Some(paragraphs)
  {
  }

  /**
    A message without a dash has no scissors line: its subject is its first line and its
    body the other lines, each ended by a newline.
  */
  lemma MessageParts(message: string, lines: seq<string>, kept: seq<string>)
    requires '-' !in message && lines != []
    requires forall k :: 0 <= k < |lines| ==> '\n' !in lines[k]
    requires message == Join(lines, "\n") + "\n"
    requires DropTrailingEmpty(lines) == kept && kept != []
    ensures UnsavedEntry.Subject(message) == Some(kept[0])
    ensures UnsavedEntry.Body(message) == if |kept| == 1 then "" else Join(kept[1..], "\n") + "\n"
  {
    SplitJoinLines(lines);
    MessageSplit(message, kept);
  }

  /** The subject and body of a message without a dash, from its lines. */
  lemma MessageSplit(message: string, kept: seq<string>)
    requires '-' !in message && Split(message, "\n") == kept && kept != []
    ensures UnsavedEntry.Subject(message) == Some(kept[0])
    ensures UnsavedEntry.Body(message) == if |kept| == 1 then "" else Join(kept[1..], "\n") + "\n"
  {
    UnsavedEntry.NoDashNoScissors(message);
  }

  /** Cutting an unsaved body at the trailer block found after its "\nOne.\n\n" start. */
  lemma UnsavedCut(trailers: seq<string>, rest: string)
    requires trailers == ["One: 1"] || trailers == ["One: 1", "Two: 2"]
    ensures var body := "\nOne.\n\n" + Join(trailers, "\n") + rest;
      UnsavedEntry.BodyWithoutTrailers(body, trailers) == Chomp("\nOne.\n\n" + rest)
  {
    TrailerBlockStart(trailers);
    BlockAfterLeadingParagraph(Join(trailers, "\n"), rest);
    UnsavedCutAt("\nOne.\n\n", trailers, rest);
  }

  /** Where the trailer block is first found right after `prefix`, the unsaved cut removes it. */
  lemma UnsavedCutAt(prefix: string, trailers: seq<string>, rest: string)
    requires Find(prefix + Join(trailers, "\n") + rest, Join(trailers, "\n")) == Some(|prefix|)
    ensures UnsavedEntry.BodyWithoutTrailers(prefix + Join(trailers, "\n") + rest, trailers)
      == Chomp(prefix + rest)
  {
    var block := Join(trailers, "\n");
    var body := prefix + block + rest;
    assert body[..|prefix|] == prefix && body[|prefix| + |block|..] == rest;
  }

  /**
    An unsaved message that is only a subject and blank lines: the body is empty, and so are
    its lines and paragraphs; without trailers there is no index.
  */
  lemma UnsavedSubjectOnly(message: string, sha: string, userName: string, userEmail: string)
    requires message == "Added documentation\n\n"
    ensures var r := UnsavedEntry.Parse(message, sha, userName, userEmail, []);
      && r.subject == Some("Added documentation") && r.body == Some("")
      && r.trailersIndex == None && r.bodyLines == Some([]) && r.bodyParagraphs == Some([])
  {
    var lines := ["Added documentation", ""];
    SubjectOnlyWords(message, lines);
    MessageParts(message, lines, ["Added documentation"]);
    EmptyBodyParts();
    UnsavedFields(message, sha, userName, userEmail, [],
      Some("Added documentation"), "", None, "", [], []);
  }

  /** "Added documentation\n\n" is its subject line and an empty line, each ended by a newline. */
  lemma SubjectOnlyWords(message: string, lines: seq<string>)
    requires message == "Added documentation\n\n" && lines == ["Added documentation", ""]
    ensures message == Join(lines, "\n") + "\n" && '-' !in message
    ensures forall k :: 0 <= k < |lines| ==> '\n' !in lines[k]
    ensures DropTrailingEmpty(lines) == ["Added documentation"]
  {
    SubjectOnlyChars(message);
    SubjectOnlyList(lines);
  }

  /** The message as its pieces, and without a dash. */
  lemma SubjectOnlyChars(message: string)
    requires message == "Added documentation\n\n"
    ensures message == "Added documentation" + "\n" + "\n"
    ensures '-' !in message
  {
    forall k | 0 <= k < |message| ensures message[k] != '-' {
    }
  }

  /** The subject and an empty line, joined and with the empty line dropped. */
  lemma SubjectOnlyList(lines: seq<string>)
    requires lines == ["Added documentation", ""]
    ensures Join(lines, "\n") + "\n" == "Added documentation" + "\n" + "\n"
    ensures forall k :: 0 <= k < |lines| ==> '\n' !in lines[k]
    ensures DropTrailingEmpty(lines) == ["Added documentation"]
  {
    SubjectOnlyJoin("Added documentation", lines);
    SubjectOnlyDrop("Added documentation", lines);
    SubjectChars();
  }

  /** A line and an empty one, joined. */
  lemma SubjectOnlyJoin(subject: string, lines: seq<string>)
    requires lines == [subject, ""]
    ensures Join(lines, "\n") + "\n" == subject + "\n" + "\n"
  {
    assert lines[1..] == [""];
  }

  /** A non-empty line followed by an empty one keeps only the first. */
  lemma SubjectOnlyDrop(subject: string, lines: seq<string>)
    requires lines == [subject, ""] && subject != ""
    ensures DropTrailingEmpty(lines) == [subject]
  {
    assert lines[..1] == [subject];
  }

  /** An empty body has no trailer index, nothing to cut, no lines and no paragraphs. */
  lemma EmptyBodyParts()
    ensures TrailersIndex("", []) == None
    ensures UnsavedEntry.BodyWithoutTrailers("", []) == ""
    ensures BodyLines("") == []
    ensures RejectComments(ChompAll(DeleteNewlinePrefixAll(Split("", "\n\n")))) == []
  {
    EmptyTextHasNoLines("");
    assert Split("", "\n\n") == [];
  }

  /** "\nTest.": one line after an empty one, and one paragraph that starts with a newline. */
  lemma OneLineBodyText(text: string)
    requires text == "\nTest."
    ensures BodyLines(text) == ["", "Test."]
    ensures RejectComments(ChompAll(DeleteNewlinePrefixAll(Split(text, "\n\n")))) == ["Test."]
  {
    OneLineBodyLines(text);
    OneLineBodyPieces(text);
    OneLineBodyParagraph();
  }

  /** The one paragraph loses its leading newline and is kept. */
  lemma OneLineBodyParagraph()
    ensures RejectComments(ChompAll(DeleteNewlinePrefixAll(["\nTest."]))) == ["Test."]
  {
    TestLine();
    SingleParagraphKept("\nTest.", "Test.");
  }

  /** "Test." is no comment, ends in '.', and follows a newline in "\nTest.". */
  lemma TestLine()
    ensures !IsComment("Test.") && "Test."[4] == '.' && "\nTest." == "\n" + "Test."
  {
    var x := "Test.";
    assert x[..1] != "#" by { assert x[..1][0] == 'T'; }
  }

  /** "\nTest." is an empty line and "Test.". */
  lemma OneLineBodyLines(text: string)
    requires text == "\nTest."
    ensures BodyLines(text) == ["", "Test."]
  {
    assert text == Join(["", "Test."], "\n");
    SplitJoinLines(["", "Test."]);
    TestLinesKept();
  }

  /** Neither line of "\nTest." is a comment. */
  lemma TestLinesKept()
    ensures RejectComments(["", "Test."]) == ["", "Test."]
  {
    assert "Test."[0] != '#';
    assert !IsComment("Test.");
  }

  /** "\nTest." is a single paragraph field. */
  lemma TestParagraphField()
    ensures ParagraphField("\nTest.")
  {
    TestChars();
    LineIsParagraphField("Test.");
    assert "\n" + "Test." == "\nTest.";
  }

  /** "\nTest." holds no blank-line separator. */
  lemma OneLineBodyPieces(text: string)
    requires text == "\nTest."
    ensures Split(text, "\n\n") == ["\nTest."]
  {
    TestParagraphField();
    assert text == Join(["\nTest."], "\n\n");
    RawSplitJoinParagraphs(["\nTest."]);
  }

  /**
    An unsaved message with a one-line body: the body keeps the blank line after the
    subject, so the body lines start with an empty one, while the paragraph loses it.
  */
  lemma UnsavedOneLineBody(message: string, sha: string, userName: string, userEmail: string)
    requires message == "Added documentation\n\nTest.\n"
    ensures var r := UnsavedEntry.Parse(message, sha, userName, userEmail, []);
      && r.subject == Some("Added documentation") && r.body == Some("\nTest.\n")
      && r.trailersIndex == None && r.bodyLines == Some(["", "Test."])
      && r.bodyParagraphs == Some(["Test."])
  {
    var lines := ["Added documentation", "", "Test."];
    OneLineBodyWords(message, lines);
    MessageParts(message, lines, lines);
    OneLineBodyTrailers("\nTest.\n");
    OneLineBodyText("\nTest.");
    UnsavedFields(message, sha, userName, userEmail, [],
      Some("Added documentation"), "\nTest.\n", None, "\nTest.", ["", "Test."], ["Test."]);
  }

  /** "Added documentation\n\nTest.\n" is its three lines, each ended by a newline. */
  lemma OneLineBodyWords(message: string, lines: seq<string>)
    requires message == "Added documentation\n\nTest.\n"
    requires lines == ["Added documentation", "", "Test."]
    ensures message == Join(lines, "\n") + "\n" && '-' !in message
    ensures forall k :: 0 <= k < |lines| ==> '\n' !in lines[k]
    ensures DropTrailingEmpty(lines) == lines
    ensures Join(lines[1..], "\n") + "\n" == "\nTest.\n"
  {
    OneLineBodyChars(message);
    OneLineBodyList(lines);
  }

  /** The message as its pieces, and without a dash. */
  lemma OneLineBodyChars(message: string)
    requires message == "Added documentation\n\nTest.\n"
    ensures message == "Added documentation" + "\n\n" + "Test." + "\n"
    ensures '-' !in message
  {
    forall k | 0 <= k < |message| ensures message[k] != '-' {
    }
  }

  /** The three lines joined, and the last two joined. */
  lemma OneLineBodyList(lines: seq<string>)
    requires lines == ["Added documentation", "", "Test."]
    ensures Join(lines, "\n") + "\n" == "Added documentation" + "\n\n" + "Test." + "\n"
    ensures forall k :: 0 <= k < |lines| ==> '\n' !in lines[k]
    ensures DropTrailingEmpty(lines) == lines
    ensures Join(lines[1..], "\n") + "\n" == "\nTest.\n"
  {
    OneLineBodyJoin(lines);
    OneLineBodyTail(lines);
    SubjectChars();
    TestChars();
    LinesAroundBlank("Added documentation", "Test.", lines);
  }

  /** Two newline-free lines around an empty one, the last non-empty, have no trailing empties. */
  lemma LinesAroundBlank(a: string, b: string, lines: seq<string>)
    requires lines == [a, "", b] && '\n' !in a && '\n' !in b && b != ""
    ensures forall k :: 0 <= k < |lines| ==> '\n' !in lines[k]
    ensures DropTrailingEmpty(lines) == lines
  {
  }

  /** The three lines joined. */
  lemma OneLineBodyJoin(lines: seq<string>)
    requires lines == ["Added documentation", "", "Test."]
    ensures Join(lines, "\n") + "\n" == "Added documentation" + "\n\n" + "Test." + "\n"
  {
    var subject, line := "Added documentation", "Test.";
    assert lines[1..] == ["", line];
    assert lines[1..][1..] == [line];
    assert Join(lines[1..], "\n") == "" + "\n" + line;
    BlankLineBetween(subject, line);
  }

  /** The two lines after the subject joined. */
  lemma OneLineBodyTail(lines: seq<string>)
    requires lines == ["Added documentation", "", "Test."]
    ensures Join(lines[1..], "\n") + "\n" == "\nTest.\n"
  {
    assert lines[1..] == ["", "Test."];
    assert lines[1..][1..] == ["Test."];
  }

  /** A line, an empty line and another line, joined by newlines. */
  lemma BlankLineBetween(a: string, b: string)
    ensures a + "\n" + ("" + "\n" + b) + "\n" == a + "\n\n" + b + "\n"
  {
  }

  /** The subject line used by the unsaved cases has no newline and no dash. */
  lemma SubjectChars()
    ensures '\n' !in "Added documentation" && '-' !in "Added documentation"
  {
    var x := "Added documentation";
    forall k | 0 <= k < |x| ensures x[k] != '\n' && x[k] != '-' {
    }
  }

  /** The one body line used by the unsaved cases has no newline and no dash. */
  lemma TestChars()
    ensures '\n' !in "Test." && '-' !in "Test."
  {
    var x := "Test.";
    forall k | 0 <= k < |x| ensures x[k] != '\n' && x[k] != '-' {
    }
  }

  /** Without trailers "\nTest.\n" has no trailer index and only loses its line ending. */
  lemma OneLineBodyTrailers(body: string)
    requires body == "\nTest.\n"
    ensures TrailersIndex(body, []) == None
    ensures UnsavedEntry.BodyWithoutTrailers(body, []) == "\nTest."
  {
    var t := "\nTest.";
    assert body == t + "\n";
    assert t[|t| - 1] == '.';
    ChompNewline(t);
  }

  /**
    A message made of a subject, a blank line and body lines, without a dash: the subject
    is the first line, the body keeps the blank line, and its lines are an empty one
    followed by the body lines.
  */
  lemma UnsavedMessageParts(message: string, subject: string, text: string, lines: seq<string>)
    requires '-' !in message && '\n' !in subject
    requires lines != [] && lines[|lines| - 1] != ""
    requires forall k :: 0 <= k < |lines| ==> '\n' !in lines[k]
    requires text == Join(lines, "\n") && message == subject + "\n\n" + text + "\n"
    ensures UnsavedEntry.Subject(message) == Some(subject)
    ensures UnsavedEntry.Body(message) == "\n" + text + "\n"
    ensures Split("\n" + text + "\n", "\n") == [""] + lines
  {
    var rest := [""] + lines;
    var all := [subject] + rest;
    FramedJoin(subject, text, lines);
    FramedLines(subject, lines);
    MessageParts(message, all, all);
    SplitJoinLines(rest);
  }

  /** The joins of the body lines behind an empty line, and behind the subject too. */
  lemma FramedJoin(subject: string, text: string, lines: seq<string>)
    requires lines != [] && text == Join(lines, "\n")
    ensures Join([""] + lines, "\n") + "\n" == "\n" + text + "\n"
    ensures Join([subject] + ([""] + lines), "\n") + "\n" == subject + "\n\n" + text + "\n"
  {
    var rest := [""] + lines;
    var all := [subject] + rest;
    assert all[1..] == rest && rest[1..] == lines;
    assert Join(rest, "\n") == "" + "\n" + text;
    assert Join(all, "\n") == subject + "\n" + ("" + "\n" + text);
  }

  /** The framed lines are still newline-free and end in a non-empty line. */
  lemma FramedLines(subject: string, lines: seq<string>)
    requires '\n' !in subject && lines != [] && lines[|lines| - 1] != ""
    requires forall k :: 0 <= k < |lines| ==> '\n' !in lines[k]
    ensures var rest := [""] + lines;
      && (forall k :: 0 <= k < |rest| ==> '\n' !in rest[k])
      && DropTrailingEmpty(rest) == rest
    ensures var all := [subject] + ([""] + lines);
      && (forall k :: 0 <= k < |all| ==> '\n' !in all[k])
      && DropTrailingEmpty(all) == all && all[1..] == [""] + lines
  {
    var rest := [""] + lines;
    var all := [subject] + rest;
    assert all[|all| - 1] == lines[|lines| - 1];
    assert rest[|rest| - 1] == lines[|lines| - 1];
    assert forall k :: 1 <= k < |all| ==> all[k] == rest[k - 1];
    assert forall k :: 1 <= k < |rest| ==> rest[k] == lines[k - 1];
  }

  // ---------------------------------------------------------------------------------------
  // Unsaved commits with trailers

  /**
    An unsaved message whose one paragraph is followed by two trailers: the first trailer
    is line 3 of the body, counting the blank line after the subject, and both the body
    lines and the paragraphs lose the trailers.
  */
  lemma UnsavedWithTrailers(message: string, sha: string, userName: string, userEmail: string)
    requires message == "Added documentation\n\nOne.\n\nOne: 1\nTwo: 2\n"
    ensures var r := UnsavedEntry.Parse(message, sha, userName, userEmail, ["One: 1", "Two: 2"]);
      && r.subject == Some("Added documentation") && r.body == Some("\nOne.\n\nOne: 1\nTwo: 2\n")
      && r.trailersIndex == Some(3) && r.bodyLines == Some(["", "One."])
      && r.bodyParagraphs == Some(["One."])
  {
    var lines := ["One.", "", "One: 1", "Two: 2"];
    var text := "One.\n\nOne: 1\nTwo: 2";
    var body := "\nOne.\n\nOne: 1\nTwo: 2\n";
    TwoTrailerMessage(message, text);
    TwoTrailerText(text, lines);
    SubjectChars();
    UnsavedMessageParts(message, "Added documentation", text, lines);
    TwoTrailerBody(text, body);
    LeadingTrailerIndex(lines);
    UnsavedCut(["One: 1", "Two: 2"], "\n");
    LeadingParagraph("\nOne.\n\n" + "\n", "\nOne.\n\n");
    UnsavedFields(message, sha, userName, userEmail, ["One: 1", "Two: 2"],
      Some("Added documentation"), body, Some(3), "\nOne.\n\n", ["", "One."], ["One."]);
  }

  /** The two-trailer message as its subject, a blank line and its body text. */
  lemma TwoTrailerMessage(message: string, text: string)
    requires message == "Added documentation\n\nOne.\n\nOne: 1\nTwo: 2\n"
    requires text == "One.\n\nOne: 1\nTwo: 2"
    ensures message == "Added documentation" + "\n\n" + text + "\n"
    ensures '-' !in message
  {
    TwoTrailerHead(message);
    assert text + "\n" == "One.\n\nOne: 1\nTwo: 2\n";
    SubjectChars();
    forall k | 0 <= k < |text| ensures text[k] != '-' {
    }
  }

  /** The two-trailer message as its subject line, a blank line and the rest. */
  lemma TwoTrailerHead(message: string)
    requires message == "Added documentation\n\nOne.\n\nOne: 1\nTwo: 2\n"
    ensures message == "Added documentation" + "\n\n" + "One.\n\nOne: 1\nTwo: 2\n"
  {
  }

  /** The body text of the two-trailer message as its lines. */
  lemma TwoTrailerText(text: string, lines: seq<string>)
    requires text == "One.\n\nOne: 1\nTwo: 2" && lines == ["One.", "", "One: 1", "Two: 2"]
    ensures text == Join(lines, "\n") && lines != [] && lines[|lines| - 1] != ""
    ensures forall k :: 0 <= k < |lines| ==> '\n' !in lines[k]
  {
    TwoTrailerJoin(lines);
    TwoTrailerLineChars(lines);
    TwoTrailerTextParts(text);
  }

  /** The two-trailer body text as the paragraph, a blank line and the trailer block. */
  lemma TwoTrailerTextParts(text: string)
    requires text == "One.\n\nOne: 1\nTwo: 2"
    ensures text == "One." + "\n\n" + "One: 1\nTwo: 2"
  {
  }

  /** The four lines of the two-trailer body text, joined. */
  lemma TwoTrailerJoin(lines: seq<string>)
    requires lines == ["One.", "", "One: 1", "Two: 2"]
    ensures Join(lines, "\n") == "One." + "\n\n" + "One: 1\nTwo: 2"
  {
    assert lines[2..] == ["One: 1", "Two: 2"] && lines[1..][1..] == lines[2..];
    TrailerBlocks();
    assert Join(lines[1..], "\n") == "" + "\n" + "One: 1\nTwo: 2";
    assert Join(lines, "\n") == "One." + "\n" + ("" + "\n" + "One: 1\nTwo: 2");
    BlankLineJoin("One.", "One: 1\nTwo: 2");
  }

  /** The four lines hold no newline, and the last is not empty. */
  lemma TwoTrailerLineChars(lines: seq<string>)
    requires lines == ["One.", "", "One: 1", "Two: 2"]
    ensures lines[|lines| - 1] != ""
    ensures forall k :: 0 <= k < |lines| ==> '\n' !in lines[k]
  {
    TrailerChars();
    assert forall k | 0 <= k < 4 :: "One."[k] != '\n';
  }

  /** Two texts joined around an empty line. */
  lemma BlankLineJoin(a: string, b: string)
    ensures a + "\n" + ("" + "\n" + b) == a + "\n\n" + b
  {
  }

  /** The trailer lines hold no newline. */
  lemma TrailerChars()
    ensures '\n' !in "One: 1" && '\n' !in "Two: 2"
  {
    forall k | 0 <= k < 6 ensures "One: 1"[k] != '\n' && "Two: 2"[k] != '\n' {
    }
  }

  /** The two-trailer body, whole and as the paragraph, the trailer block and a newline. */
  lemma TwoTrailerBody(text: string, body: string)
    requires text == "One.\n\nOne: 1\nTwo: 2" && body == "\nOne.\n\nOne: 1\nTwo: 2\n"
    ensures "\n" + text + "\n" == body
    ensures body == "\nOne.\n\n" + Join(["One: 1", "Two: 2"], "\n") + "\n"
  {
    TrailerBlocks();
  }

  /** Behind the blank line after the subject, "One: 1" is line 3 of the body. */
  lemma LeadingTrailerIndex(lines: seq<string>)
    requires |lines| >= 3 && lines[0] == "One." && lines[1] == "" && lines[2] == "One: 1"
    ensures IndexOf([""] + lines, "One: 1") == Some(3)
  {
    var all := [""] + lines;
    assert all[0] == "" && all[1] == "One." && all[2] == "" && all[3] == "One: 1";
    assert "One."[3] != "One: 1"[3];
    assert forall j :: 0 <= j < 3 ==> all[j] != "One: 1";
  }

  /**
    "\nOne.\n\n" followed by a newline loses that newline; its lines are an empty one and
    "One.", its one paragraph is "One." once the leading newline goes.
  */
  lemma LeadingParagraph(cut: string, text: string)
    requires cut == "\nOne.\n\n" + "\n" && text == "\nOne.\n\n"
    ensures Chomp(cut) == text
    ensures BodyLines(text) == ["", "One."]
    ensures RejectComments(ChompAll(DeleteNewlinePrefixAll(Split(text, "\n\n")))) == ["One."]
  {
    ChompNewline("\nOne.\n\n");
    LeadingParagraphLines(text);
    LeadingParagraphPieces(text);
    LeadingParagraphKept();
  }

  /** "\nOne.\n\n" has an empty line and "One.". */
  lemma LeadingParagraphLines(text: string)
    requires text == "\nOne.\n\n"
    ensures BodyLines(text) == ["", "One."]
  {
    assert text == "\n" + "One." + "\n\n";
    OneChars();
    ParagraphLines("One.", text);
  }

  /** "One." has no newline and is no comment. */
  lemma OneChars()
    ensures '\n' !in "One." && !IsComment("One.")
  {
    var x := "One.";
    assert x[..1] != "#" by { assert x[..1][0] == 'O'; }
    forall k | 0 <= k < |x| ensures x[k] != '\n' {
    }
  }

  /** A line that is no comment, between an empty line and a blank one, is one body line. */
  lemma ParagraphLines(x: string, text: string)
    requires text == "\n" + x + "\n\n" && x != "" && '\n' !in x && !IsComment(x)
    ensures BodyLines(text) == ["", x]
  {
    var xs := ["", x, ""];
    assert Join(xs[1..], "\n") == x + "\n" + "" by { assert xs[1..][1..] == [""]; }
    assert text == Join(xs, "\n") + "\n";
    SplitJoinLines(xs);
    assert xs[..2] == ["", x];
    assert DropTrailingEmpty(xs) == ["", x];
    assert !IsComment("") by { assert |""| < |"#"|; }
    KeepNonComments(["", x]);
  }

  /** "\nOne.\n\n" is the one paragraph "\nOne." and an empty field after it. */
  lemma LeadingParagraphPieces(text: string)
    requires text == "\nOne.\n\n"
    ensures Split(text, "\n\n") == ["\nOne."]
  {
    assert forall k | 0 <= k < 4 :: "One."[k] != '\n';
    LineIsParagraphField("One.");
    LineIsParagraphField("");
    assert "\n" + "One." == "\nOne.";
    assert text == Join(["\nOne.", ""], "\n\n");
    RawSplitJoinParagraphs(["\nOne.", ""]);
  }

  /** The paragraph "\nOne." becomes "One.", which is kept. */
  lemma LeadingParagraphKept()
    ensures RejectComments(ChompAll(DeleteNewlinePrefixAll(["\nOne."]))) == ["One."]
  {
    OneChars();
    assert "One."[3] == '.';
    SingleParagraphKept("\nOne.", "One.");
  }

  /** One piece, a newline and a line that is no comment and ends in neither line break. */
  lemma SingleParagraphKept(piece: string, x: string)
    requires piece == "\n" + x && !IsComment(x)
    requires x == "" || (x[|x| - 1] != '\n' && x[|x| - 1] != '\r')
    ensures RejectComments(ChompAll(DeleteNewlinePrefixAll([piece]))) == [x]
  {
    assert StartsWith(piece, "\n") by { assert piece[..1] == "\n"; }
    assert DeleteNewlinePrefixAll([piece]) == [x];
    UnterminatedChomped([x]);
  }

  /**
    An unsaved message whose trailer is followed by comment paragraphs: the body lines lose
    the trailer and the comments, but the paragraphs keep an empty one where the trailer
    was cut out, unlike the saved parser's.
  */
  lemma UnsavedWithSuffixedComments(message: string, sha: string, userName: string,
                                    userEmail: string)
    requires message == "Added documentation\n\nOne.\n\nOne: 1\n\n# One.\n\n# Two.\n"
    ensures var r := UnsavedEntry.Parse(message, sha, userName, userEmail, ["One: 1"]);
      && r.subject == Some("Added documentation")
      && r.body == Some("\nOne.\n\nOne: 1\n\n# One.\n\n# Two.\n")
      && r.trailersIndex == Some(3) && r.bodyLines == Some(["", "One."])
      && r.bodyParagraphs == Some(["One.", ""])
  {
    var body := "\nOne.\n\nOne: 1\n\n# One.\n\n# Two.\n";
    var stripped := "\nOne.\n\n\n\n# One.\n\n# Two.";
    SuffixedCommentFront(message, body);
    SuffixedCommentBack(body, stripped);
    UnsavedFields(message, sha, userName, userEmail, ["One: 1"],
      Some("Added documentation"), body, Some(3), stripped, ["", "One."], ["One.", ""]);
  }

  /** The suffixed-comment message: its subject, its body, and the trailer on raw line 3. */
  lemma SuffixedCommentFront(message: string, body: string)
    requires message == "Added documentation\n\nOne.\n\nOne: 1\n\n# One.\n\n# Two.\n"
    requires body == "\nOne.\n\nOne: 1\n\n# One.\n\n# Two.\n"
    ensures UnsavedEntry.Subject(message) == Some("Added documentation")
    ensures UnsavedEntry.Body(message) == body
    ensures TrailersIndex(body, ["One: 1"]) == Some(3)
  {
    var lines := ["One.", "", "One: 1", "", "# One.", "", "# Two."];
    var text := "One.\n\nOne: 1\n\n# One.\n\n# Two.";
    SuffixedCommentMessage(message, text);
    SuffixedCommentText(text, lines);
    SubjectChars();
    UnsavedMessageParts(message, "Added documentation", text, lines);
    SuffixedCommentBody(text, body, "\n\n# One.\n\n# Two.\n");
    LeadingTrailerIndex(lines);
  }

  /** The suffixed-comment body without its trailer: its lines and its paragraphs. */
  lemma SuffixedCommentBack(body: string, stripped: string)
    requires body == "\nOne.\n\nOne: 1\n\n# One.\n\n# Two.\n"
    requires stripped == "\nOne.\n\n\n\n# One.\n\n# Two."
    ensures UnsavedEntry.BodyWithoutTrailers(body, ["One: 1"]) == stripped
    ensures BodyLines(stripped) == ["", "One."]
    ensures RejectComments(ChompAll(DeleteNewlinePrefixAll(Split(stripped, "\n\n"))))
      == ["One.", ""]
  {
    var rest := "\n\n# One.\n\n# Two.\n";
    SuffixedCommentBody("One.\n\nOne: 1\n\n# One.\n\n# Two.", body, rest);
    UnsavedCut(["One: 1"], rest);
    SuffixedCommentCut(rest, stripped);
    SuffixedCommentStrippedLines(stripped);
    SuffixedCommentStrippedParagraphs(stripped);
  }

  /** The suffixed-comment message as its subject, a blank line and its body text. */
  lemma SuffixedCommentMessage(message: string, text: string)
    requires message == "Added documentation\n\nOne.\n\nOne: 1\n\n# One.\n\n# Two.\n"
    requires text == "One.\n\nOne: 1\n\n# One.\n\n# Two."
    ensures message == "Added documentation" + "\n\n" + text + "\n"
    ensures '-' !in message
  {
    SubjectChars();
    SuffixedCommentDashes();
    SuffixedCommentConcat(message, text);
  }

  /** The suffixed-comment message and its text, each as pieces. */
  lemma SuffixedCommentConcat(message: string, text: string)
    requires message == "Added documentation\n\nOne.\n\nOne: 1\n\n# One.\n\n# Two.\n"
    requires text == "One.\n\nOne: 1\n\n# One.\n\n# Two."
    ensures text == "One.\n\nOne: 1" + "\n\n# One.\n\n# Two."
    ensures message == "Added documentation" + "\n\n" + text + "\n"
  {
    SuffixedCommentHead(message);
    assert text + "\n" == "One.\n\nOne: 1\n\n# One.\n\n# Two.\n";
  }

  /** The suffixed-comment message as its subject line, a blank line and the rest. */
  lemma SuffixedCommentHead(message: string)
    requires message == "Added documentation\n\nOne.\n\nOne: 1\n\n# One.\n\n# Two.\n"
    ensures message == "Added documentation" + "\n\n" + "One.\n\nOne: 1\n\n# One.\n\n# Two.\n"
  {
  }

  /** The suffixed-comment body text holds no dash. */
  lemma SuffixedCommentDashes()
    ensures '-' !in "One.\n\nOne: 1" && '-' !in "\n\n# One.\n\n# Two."
  {
    var a, b := "One.\n\nOne: 1", "\n\n# One.\n\n# Two.";
    forall k | 0 <= k < |a| ensures a[k] != '-' {
    }
    forall k | 0 <= k < |b| ensures b[k] != '-' {
    }
  }

  /** The body text of the suffixed-comment message as its lines. */
  lemma SuffixedCommentText(text: string, lines: seq<string>)
    requires text == "One.\n\nOne: 1\n\n# One.\n\n# Two."
    requires lines == ["One.", "", "One: 1", "", "# One.", "", "# Two."]
    ensures text == Join(lines, "\n") && lines != [] && lines[|lines| - 1] != ""
    ensures forall k :: 0 <= k < |lines| ==> '\n' !in lines[k]
  {
    SuffixedCommentJoin();
    SuffixedCommentLineChars(lines);
  }

  /** The comment lines hold no newline. */
  lemma CommentChars()
    ensures '\n' !in "# One." && '\n' !in "# Two."
  {
    forall k | 0 <= k < 6 ensures "# One."[k] != '\n' && "# Two."[k] != '\n' {
    }
  }

  /** The seven lines hold no newline, and the last is not empty. */
  lemma SuffixedCommentLineChars(lines: seq<string>)
    requires lines == ["One.", "", "One: 1", "", "# One.", "", "# Two."]
    ensures lines[|lines| - 1] != ""
    ensures forall k :: 0 <= k < |lines| ==> '\n' !in lines[k]
  {
    TrailerChars();
    CommentChars();
    assert forall k | 0 <= k < 4 :: "One."[k] != '\n';
  }

  /** The suffixed-comment body, whole and as the paragraph, the trailer and the rest. */
  lemma SuffixedCommentBody(text: string, body: string, rest: string)
    requires text == "One.\n\nOne: 1\n\n# One.\n\n# Two."
    requires body == "\nOne.\n\nOne: 1\n\n# One.\n\n# Two.\n"
    requires rest == "\n\n# One.\n\n# Two.\n"
    ensures "\n" + text + "\n" == body
    ensures body == "\nOne.\n\n" + Join(["One: 1"], "\n") + rest
  {
    TrailerBlocks();
    SuffixedCommentBodyParts(body, rest);
  }

  /** The suffixed-comment body as the paragraph, the trailer and the rest. */
  lemma SuffixedCommentBodyParts(body: string, rest: string)
    requires body == "\nOne.\n\nOne: 1\n\n# One.\n\n# Two.\n"
    requires rest == "\n\n# One.\n\n# Two.\n"
    ensures body == "\nOne.\n\n" + "One: 1" + rest
  {
  }

  /** Cutting the trailer leaves the paragraph, two blank lines and the comments. */
  lemma SuffixedCommentCut(rest: string, stripped: string)
    requires rest == "\n\n# One.\n\n# Two.\n"
    requires stripped == "\nOne.\n\n\n\n# One.\n\n# Two."
    ensures Chomp("\nOne.\n\n" + rest) == stripped
  {
    assert "\nOne.\n\n" + rest == stripped + "\n";
    ChompNewline(stripped);
  }

  /** The lines of the cut body: the comments go, and so do the empty lines after "One.". */
  lemma SuffixedCommentStrippedLines(stripped: string)
    requires stripped == "\nOne.\n\n\n\n# One.\n\n# Two."
    ensures BodyLines(stripped) == ["", "One."]
  {
    var lines := ["", "One.", "", "", "", "# One.", "", "# Two."];
    StrippedLinesJoin(stripped, lines);
    StrippedLineChars(lines);
    SplitJoinLines(lines);
    StrippedLinesKept(lines);
  }

  /** The cut body as its eight lines. */
  lemma StrippedLinesJoin(stripped: string, lines: seq<string>)
    requires stripped == "\nOne.\n\n\n\n# One.\n\n# Two."
    requires lines == ["", "One.", "", "", "", "# One.", "", "# Two."]
    ensures stripped == Join(lines, "\n")
  {
    SuffixedCommentHalves();
    assert Join(["", "One.", "", ""], "\n") == "\nOne.\n\n";
    JoinAppend(["", "One.", "", ""], ["", "# One.", "", "# Two."], "\n");
    assert ["", "One.", "", ""] + ["", "# One.", "", "# Two."] == lines;
    StrippedParts(stripped);
  }

  /** The cut body as the text up to the cut, a newline, and the comment lines. */
  lemma StrippedParts(stripped: string)
    requires stripped == "\nOne.\n\n\n\n# One.\n\n# Two."
    ensures stripped == "\nOne.\n\n" + "\n" + "\n# One.\n\n# Two."
  {
  }

  /** The eight lines hold no newline. */
  lemma StrippedLineChars(lines: seq<string>)
    requires lines == ["", "One.", "", "", "", "# One.", "", "# Two."]
    ensures lines != [] && forall k :: 0 <= k < |lines| ==> '\n' !in lines[k]
  {
    CommentChars();
    assert forall k | 0 <= k < 4 :: "One."[k] != '\n';
  }

  /** Of the eight lines only an empty line and "One." are left. */
  lemma StrippedLinesKept(lines: seq<string>)
    requires lines == ["", "One.", "", "", "", "# One.", "", "# Two."]
    ensures DropTrailingEmpty(RejectComments(DropTrailingEmpty(lines))) == ["", "One."]
  {
    var text, comments := ["", "One.", "", "", ""], ["# One.", "", "# Two."];
    StrippedLinesHalves(lines, text, comments);
    RejectCommentsAppend(text, comments);
    TextLinesKept(text);
    CommentLinesDropped(comments);
    StrippedLinesTail(text + [""]);
  }

  /** The eight lines end in a line, and split into text lines and comment lines. */
  lemma StrippedLinesHalves(lines: seq<string>, text: seq<string>, comments: seq<string>)
    requires lines == ["", "One.", "", "", "", "# One.", "", "# Two."]
    requires text == ["", "One.", "", "", ""] && comments == ["# One.", "", "# Two."]
    ensures DropTrailingEmpty(lines) == lines && lines == text + comments
  {
    assert lines[|lines| - 1] != "";
  }

  /** The kept lines lose their trailing empty ones. */
  lemma StrippedLinesTail(kept: seq<string>)
    requires kept == ["", "One.", "", "", ""] + [""]
    ensures DropTrailingEmpty(kept) == ["", "One."]
  {
    assert kept == ["", "One."] + ["", "", "", ""];
    DropEmptyTail(["", "One."], ["", "", "", ""]);
  }

  /** Lines without comments are all kept. */
  lemma TextLinesKept(text: seq<string>)
    requires text == ["", "One.", "", "", ""]
    ensures RejectComments(text) == text
  {
    assert "One."[0] != '#';
    assert !IsComment("") && !IsComment("One.");
    assert forall k :: 0 <= k < |text| ==> text[k] == "" || text[k] == "One.";
    KeepNonComments(text);
  }

  /** Of two comments around an empty line only the empty line is kept. */
  lemma CommentLinesDropped(comments: seq<string>)
    requires comments == ["# One.", "", "# Two."]
    ensures RejectComments(comments) == [""]
  {
    CommentsAreComments();
    assert comments == ["# One."] + ([""] + ["# Two."]);
    RejectCommentsAppend(["# One."], [""] + ["# Two."]);
    RejectCommentsAppend([""], ["# Two."]);
    DropComments(["# One."]);
    DropComments(["# Two."]);
    KeepNonComments([""]);
  }

  /** The comment lines of the examples start with '#'. */
  lemma CommentsAreComments()
    ensures IsComment("# One.") && IsComment("# Two.")
  {
    assert "# One."[..1] == "#" && "# Two."[..1] == "#";
  }

  /** The paragraphs of the cut body: the empty one where the trailer was stays. */
  lemma SuffixedCommentStrippedParagraphs(stripped: string)
    requires stripped == "\nOne.\n\n\n\n# One.\n\n# Two."
    ensures RejectComments(ChompAll(DeleteNewlinePrefixAll(Split(stripped, "\n\n"))))
      == ["One.", ""]
  {
    var pieces := ["\nOne.", "", "# One.", "# Two."];
    StrippedPiecesJoin(stripped, pieces);
    StrippedPieceFields(pieces);
    RawSplitJoinParagraphs(pieces);
    StrippedPiecesKept(pieces);
  }

  /** The cut body as its four paragraph fields. */
  lemma StrippedPiecesJoin(stripped: string, pieces: seq<string>)
    requires stripped == "\nOne.\n\n\n\n# One.\n\n# Two."
    requires pieces == ["\nOne.", "", "# One.", "# Two."]
    ensures stripped == Join(pieces, "\n\n")
  {
    assert pieces[1..] == ["", "# One.", "# Two."];
    assert pieces[1..][1..] == ["# One.", "# Two."] && pieces[1..][1..][1..] == ["# Two."];
    assert Join(pieces[1..][1..], "\n\n") == "# One." + "\n\n" + "# Two.";
    assert Join(pieces[1..], "\n\n") == "" + "\n\n" + ("# One." + "\n\n" + "# Two.");
    StrippedPieceParts(stripped);
  }

  /** The cut body as its paragraph fields and the separators between them. */
  lemma StrippedPieceParts(stripped: string)
    requires stripped == "\nOne.\n\n\n\n# One.\n\n# Two."
    ensures stripped == "\nOne." + "\n\n" + ("" + "\n\n" + ("# One." + "\n\n" + "# Two."))
  {
  }

  /** Each of the four paragraph fields holds no blank-line separator. */
  lemma StrippedPieceFields(pieces: seq<string>)
    requires pieces == ["\nOne.", "", "# One.", "# Two."]
    ensures pieces != [] && forall k :: 0 <= k < |pieces| ==> ParagraphField(pieces[k])
  {
    CommentChars();
    assert forall k | 0 <= k < 4 :: "One."[k] != '\n';
    LineIsParagraphField("One.");
    LineIsParagraphField("");
    LineIsParagraphField("# One.");
    LineIsParagraphField("# Two.");
    assert "\n" + "One." == "\nOne.";
  }

  /** The four fields lose the leading newline, and the comments go. */
  lemma StrippedPiecesKept(pieces: seq<string>)
    requires pieces == ["\nOne.", "", "# One.", "# Two."]
    ensures RejectComments(ChompAll(DeleteNewlinePrefixAll(DropTrailingEmpty(pieces))))
      == ["One.", ""]
  {
    assert DropTrailingEmpty(pieces) == pieces;
    var kept := ["One.", "", "# One.", "# Two."];
    PiecesPrefixDeleted(pieces, kept);
    PiecesChomped(kept);
    PiecesKeptText(kept);
  }

  /** Of the paragraphs "One.", "" and two comments, the comments go. */
  lemma PiecesKeptText(kept: seq<string>)
    requires kept == ["One.", "", "# One.", "# Two."]
    ensures RejectComments(kept) == ["One.", ""]
  {
    CommentsAreComments();
    OneChars();
    TextThenComments(kept, "One.", "# One.", "# Two.");
  }

  /** A line and an empty one, then two comments: the comments go. */
  lemma TextThenComments(kept: seq<string>, a: string, c: string, d: string)
    requires kept == [a, "", c, d] && !IsComment(a) && IsComment(c) && IsComment(d)
    ensures RejectComments(kept) == [a, ""]
  {
    var text, comments := [a, ""], [c, d];
    assert kept == text + comments;
    RejectCommentsAppend(text, comments);
    assert !IsComment("") by { assert |""| < |"#"|; }
    KeepNonComments(text);
    DropComments(comments);
  }

  /** Only the first field starts with a newline, and it loses it. */
  lemma PiecesPrefixDeleted(pieces: seq<string>, kept: seq<string>)
    requires pieces == ["\nOne.", "", "# One.", "# Two."]
    requires kept == ["One.", "", "# One.", "# Two."]
    ensures DeleteNewlinePrefixAll(pieces) == kept
  {
    assert "\nOne."[..1] == "\n" && "\nOne."[1..] == "One.";
    assert "# One."[0] != '\n' && "# Two."[0] != '\n';
    assert "# One."[..1] != "\n" && "# Two."[..1] != "\n";
    var r := DeleteNewlinePrefixAll(pieces);
    assert r[0] == kept[0] && r[1] == kept[1] && r[2] == kept[2] && r[3] == kept[3];
  }

  /** No field ends in a line break, so `chomp` keeps them all. */
  lemma PiecesChomped(kept: seq<string>)
    requires kept == ["One.", "", "# One.", "# Two."]
    ensures ChompAll(kept) == kept
  {
    assert "One."[3] == '.' && "# One."[5] == '.' && "# Two."[5] == '.';
    UnterminatedChomped(kept);
  }}
