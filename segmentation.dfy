/**
  The two derivations the saved and the unsaved entry parser write identically:
  the trailer index (`body.split("\n").index trailers.first`) and the body lines
  (split on newlines, comment lines rejected, trailing empty lines dropped).
*/
module Segmentation {
  import opened Optional
  import opened RubyText

  /**
    Position of the first trailer among the raw lines of the body, comment lines and
    leading empty lines counted; nil when there are no trailers or the first one is not
    a whole line of the body.
  */
  function TrailersIndex(body: string, trailers: seq<string>): (r: Option<nat>)
    ensures trailers == [] ==> r.None?
    ensures trailers != [] ==> (r.None? <==> trailers[0] !in Split(body, "\n"))
    ensures r.Some? ==> var lines := Split(body, "\n");
      && r.value < |lines| && lines[r.value] == trailers[0]
      && forall j :: 0 <= j < r.value ==> lines[j] != trailers[0]
  {
    if trailers == [] then None else IndexOf(Split(body, "\n"), trailers[0])
  }

  /** The comment-free lines of `text` as `split("\n")` cuts them. */
  function NonCommentLines(text: string): seq<string> {
    RejectComments(Split(text, "\n"))
  }

  /**
    `text.split("\n").reject { |line| line.start_with? "#" }.reverse.drop_while(&:empty?).reverse`:
    no line is a comment, the last line is never empty, and every line of the result is one of
    the text's lines. Empty lines in the middle and at the start are kept: what is dropped is
    only a run of empty lines at the end.
  */
  function BodyLines(text: string): (r: seq<string>)
    ensures forall k :: 0 <= k < |r| ==> !IsComment(r[k]) && r[k] in Split(text, "\n")
    ensures r == [] || r[|r| - 1] != ""
    ensures r <= NonCommentLines(text)
    ensures forall k :: |r| <= k < |NonCommentLines(text)| ==> NonCommentLines(text)[k] == ""
  {
    DropTrailingEmpty(NonCommentLines(text))
  }

  /** A body that is empty, or only newlines, has no lines. */
  lemma EmptyTextHasNoLines(text: string)
    requires forall k :: 0 <= k < |text| ==> text[k] == '\n'
    ensures Split(text, "\n") == [] && BodyLines(text) == []
  {
    RawSplitAllNewlines(text);
  }

  /** The raw fields of a string of newlines are all empty. */
  lemma {:induction false} RawSplitAllNewlines(text: string)
    requires forall k :: 0 <= k < |text| ==> text[k] == '\n'
    ensures forall k :: 0 <= k < |RawSplit(text, "\n")| ==> RawSplit(text, "\n")[k] == ""
    ensures Split(text, "\n") == []
    decreases |text|
  {
    var fields := RawSplit(text, "\n");
    if text != "" {
      assert OccursAt(text, "\n", 0) by { assert text[0..1] == [text[0]]; }
      assert Find(text, "\n") == Some(0);
      RawSplitAllNewlines(text[1..]);
      assert fields == [text[..0]] + RawSplit(text[1..], "\n");
    }
    var r := Split(text, "\n");
    if r != [] {
      assert r[|r| - 1] == fields[|r| - 1];
    }
  }

  /** A string whose raw fields are all empty is made of newlines only. */
  lemma {:induction false} EmptyFieldsOnlyNewlines(text: string)
    requires forall k :: 0 <= k < |RawSplit(text, "\n")| ==> RawSplit(text, "\n")[k] == ""
    ensures forall k :: 0 <= k < |text| ==> text[k] == '\n'
    decreases |text|
  {
    var fields := RawSplit(text, "\n");
    match Find(text, "\n")
    case None =>
      assert fields == [text];
      assert fields[0] == text;
    case Some(i) =>
      assert fields == [text[..i]] + RawSplit(text[i + 1..], "\n");
      assert fields[0] == text[..i];
      OccursAtChar(text, '\n', i);
      var rest := RawSplit(text[i + 1..], "\n");
      assert forall k :: 0 <= k < |rest| ==> rest[k] == fields[k + 1];
      EmptyFieldsOnlyNewlines(text[i + 1..]);
      forall k | 0 <= k < |text| ensures text[k] == '\n' {
        if k > i {
          assert text[k] == text[i + 1..][k - i - 1];
        }
      }
  }

  /** A text has no lines exactly when it is made of newlines only (the empty text included). */
  lemma NoLinesOnlyNewlines(text: string)
    ensures Split(text, "\n") == [] <==> forall k :: 0 <= k < |text| ==> text[k] == '\n'
  {
    if forall k :: 0 <= k < |text| ==> text[k] == '\n' {
      EmptyTextHasNoLines(text);
    }
    if Split(text, "\n") == [] {
      EmptyFieldsOnlyNewlines(text);
    }
  }

  /** The first line of a text is its prefix up to the first newline, or the whole text. */
  lemma FirstLine(text: string)
    requires Split(text, "\n") != []
    ensures var line := Split(text, "\n")[0];
      && line <= text && '\n' !in line
      && (|line| == |text| || text[|line|] == '\n')
  {
    var fields := RawSplit(text, "\n");
    var line := Split(text, "\n")[0];
    assert line == fields[0];
    match Find(text, "\n") {
      case None =>
        assert fields == [text];
      case Some(i) =>
        assert fields[0] == text[..i];
        OccursAtChar(text, '\n', i);
    }
    NoCharOccurrence(line, '\n');
  }
}
