/**
  The saved-commit entry parser. The history query has already cut subject, body and
  message apart and hands the trailers over as one newline-joined string; the parser merges
  these attributes into its commit record and then derives, in the fixed order of its steps
  a to d, the trailer list, the trailer index, the body lines and the body paragraphs.
*/
module SavedEntry {
  import opened Optional
  import opened RubyText
  import opened Commits
  import opened Segmentation

  /** The attributes one history record carries, all of them strings. */
  datatype Attributes = Attributes(
    authorDateRelative: string,
    authorEmail: string,
    authorName: string,
    body: string,
    message: string,
    sha: string,
    subject: string,
    trailers: string)

  /**
    Step a, `trailers.split("\n")`: the empty string gives no trailers, no trailer holds a
    newline or is a trailing empty one, and joining them back gives the text less the
    newlines at its end.
  */
  function SplitTrailers(text: string): (r: seq<string>)
    ensures text == "" ==> r == []
    ensures forall k :: 0 <= k < |r| ==> '\n' !in r[k]
    ensures r == [] || r[|r| - 1] != ""
    ensures Join(r, "\n") == TrimNewlines(text)
  {
    JoinSplitLines(text);
    var r := Split(text, "\n");
    forall k | 0 <= k < |r| ensures '\n' !in r[k] {
      NoCharOccurrence(r[k], '\n');
    }
    r
  }

  /**
    `body_without_trailers`: without trailers the body as it is; otherwise the body up to
    the first occurrence of the trailer block (the trailers joined by "\n"), that block and
    everything after it removed. A body in which the block does not occur is kept whole.
  */
  function BodyWithoutTrailers(body: string, trailers: seq<string>): (r: string)
    ensures r <= body
    ensures trailers == [] ==> r == body
    ensures trailers != [] && Find(body, Join(trailers, "\n")).None? ==> r == body
    ensures trailers != [] && Find(body, Join(trailers, "\n")).Some? ==>
      && OccursAt(body, Join(trailers, "\n"), |r|)
      && forall j: nat :: j < |r| ==> !OccursAt(body, Join(trailers, "\n"), j)
  {
    if trailers == [] then body
    else match Find(body, Join(trailers, "\n"))
      case None => body
      case Some(i) => body[..i]
  }

  /**
    Step d, `body_without_trailers.split("\n\n").map(&:chomp).reject { ... "#" }`: every
    paragraph is the chomped text between two blank-line separators of the trailer-free
    body, none is a comment, and none holds a blank-line separator.
  */
  function BodyParagraphs(body: string, trailers: seq<string>): (r: seq<string>)
    ensures forall k :: 0 <= k < |r| ==> !IsComment(r[k])
    ensures forall k :: 0 <= k < |r| ==> forall j: nat :: !OccursAt(r[k], "\n\n", j)
    ensures forall p :: p in r <==>
      p in ChompAll(Split(BodyWithoutTrailers(body, trailers), "\n\n")) && !IsComment(p)
    ensures r == RejectComments(ChompAll(Split(BodyWithoutTrailers(body, trailers), "\n\n")))
  {
    var pieces := Split(BodyWithoutTrailers(body, trailers), "\n\n");
    ChompedPiecesHaveNoSeparator(pieces);
    RejectComments(ChompAll(pieces))
  }

  /**
    Paragraphs joined by blank lines come back as the paragraphs, in order and with
    repeats, less the comment ones.
  */
  lemma {:induction false} ParagraphsRoundTrip(xs: seq<string>)
    requires xs != [] && xs[|xs| - 1] != ""
    requires forall k :: 0 <= k < |xs| ==> PlainParagraph(xs[k])
    ensures BodyParagraphs(Join(xs, "\n\n"), []) == RejectComments(xs)
  {
    SplitJoinParagraphs(xs);
    PlainParagraphsChomped(xs);
  }

  /** Chomping pieces adds no blank-line separator to them. */
  lemma ChompedPiecesHaveNoSeparator(pieces: seq<string>)
    requires forall k: nat, j: nat :: k < |pieces| ==> !OccursAt(pieces[k], "\n\n", j)
    ensures var chomped := ChompAll(pieces);
      forall k :: 0 <= k < |chomped| ==> forall j: nat :: !OccursAt(chomped[k], "\n\n", j)
  {
    var chomped := ChompAll(pieces);
    forall k | 0 <= k < |chomped| ensures forall j: nat :: !OccursAt(chomped[k], "\n\n", j) {
      NoOccurrenceInPrefix(chomped[k], pieces[k], "\n\n");
    }
  }

  /**
    The whole parse as one value: what `Entry.call(**attributes)` answers. The given
    attributes other than the trailers pass through unchanged.
  */
  function Parse(a: Attributes): (r: Commit)
    ensures r.authorDateRelative == Some(a.authorDateRelative)
    ensures r.authorEmail == Some(a.authorEmail) && r.authorName == Some(a.authorName)
    ensures r.body == Some(a.body) && r.message == Some(a.message)
    ensures r.sha == Some(a.sha) && r.subject == Some(a.subject)
    ensures r.trailers == Some(SplitTrailers(a.trailers))
  {
    var trailers := SplitTrailers(a.trailers);
    var stripped := BodyWithoutTrailers(a.body, trailers);
    Commit(
      authorDateRelative := Some(a.authorDateRelative),
      authorEmail := Some(a.authorEmail),
      authorName := Some(a.authorName),
      body := Some(a.body),
      bodyLines := Some(BodyLines(stripped)),
      bodyParagraphs := Some(BodyParagraphs(a.body, trailers)),
      message := Some(a.message),
      sha := Some(a.sha),
      subject := Some(a.subject),
      trailers := Some(trailers),
      trailersIndex := TrailersIndex(a.body, trailers))
  }

  /** Removing the trailers from a body already without them changes nothing. */
  lemma BodyWithoutTrailersIdempotent(body: string, trailers: seq<string>)
    ensures BodyWithoutTrailers(BodyWithoutTrailers(body, trailers), trailers)
      == BodyWithoutTrailers(body, trailers)
  {
    var r := BodyWithoutTrailers(body, trailers);
    var block := Join(trailers, "\n");
    if trailers != [] && Find(body, block).Some? && block != "" {
      forall j: nat ensures !OccursAt(r, block, j) {
        if j + |block| <= |r| {
          assert r[j..j + |block|] == body[j..j + |block|];
          assert !OccursAt(body, block, j);
        }
      }
    }
  }

  /** An empty body with empty trailers gives no trailers, no index, no lines, no paragraphs. */
  lemma EmptyBodyAndTrailers(a: Attributes)
    requires a.body == "" && a.trailers == ""
    ensures Parse(a).trailers == Some([]) && Parse(a).trailersIndex == None
    ensures Parse(a).bodyLines == Some([]) && Parse(a).bodyParagraphs == Some([])
  {
    EmptyTextHasNoLines("");
    assert Split("", "\n\n") == [];
  }

  /**
    The parser object: it owns a copy of the commit it was given and fills it in place.
    `trailerText` is the `trailers` attribute as merged, which the record holds as one
    string until step a replaces it with the list of lines.
  */
  class Entry {
    var commit: Commit
    var trailerText: string

    /** `initialize commit = Commit.new` keeps a copy of the given record. */
    constructor (initial: Commit)
      ensures commit == initial && trailerText == ""
    {
      commit := initial;
      trailerText := "";
    }

    /** `call(**attributes)`: merge the attributes, run the steps, answer the record. */
    method Call(attributes: Attributes) returns (result: Commit)
      modifies this
      ensures result == commit == Parse(attributes)
    {
      Merge(attributes);
      Build();
      result := commit;
    }

    /** `commit.merge!(**attributes)`: the eight attributes overwrite their members. */
    method Merge(a: Attributes)
      modifies this
      ensures trailerText == a.trailers
      ensures commit == old(commit).(
        authorDateRelative := Some(a.authorDateRelative), authorEmail := Some(a.authorEmail),
        authorName := Some(a.authorName), body := Some(a.body), message := Some(a.message),
        sha := Some(a.sha), subject := Some(a.subject))
    {
      commit := commit.(
        authorDateRelative := Some(a.authorDateRelative), authorEmail := Some(a.authorEmail),
        authorName := Some(a.authorName), body := Some(a.body), message := Some(a.message),
        sha := Some(a.sha), subject := Some(a.subject));
      trailerText := a.trailers;
    }

    /** `build`: the steps in the order of their names, each reading what the earlier wrote. */
    method Build()
      requires commit.body.Some?
      modifies this
      ensures trailerText == old(trailerText)
      ensures var trailers := SplitTrailers(old(trailerText));
        var body := old(commit).body.value;
        commit == old(commit).(
          trailers := Some(trailers),
          trailersIndex := TrailersIndex(body, trailers),
          bodyLines := Some(BodyLines(BodyWithoutTrailers(body, trailers))),
          bodyParagraphs := Some(BodyParagraphs(body, trailers)))
    {
      StepATrailers();
      StepBTrailersIndex();
      StepCBodyLines();
      StepDBodyParagraphs();
    }

    /** `step_a_trailers`: the trailer string becomes the list of trailer lines. */
    method StepATrailers()
      modifies this`commit
      ensures commit == old(commit).(trailers := Some(SplitTrailers(trailerText)))
    {
      commit := commit.(trailers := Some(SplitTrailers(trailerText)));
    }

    /** `step_b_trailers_index` */
    method StepBTrailersIndex()
      requires commit.body.Some? && commit.trailers.Some?
      modifies this`commit
      ensures commit == old(commit).(
        trailersIndex := TrailersIndex(old(commit).body.value, old(commit).trailers.value))
    {
      commit := commit.(trailersIndex := TrailersIndex(commit.body.value, commit.trailers.value));
    }

    /** `step_c_body_lines`, through `body_without_trailing_spaces` and `body_without_comments`. */
    method StepCBodyLines()
      requires commit.body.Some? && commit.trailers.Some?
      modifies this`commit
      ensures commit == old(commit).(
        bodyLines := Some(BodyLines(BodyWithoutTrailers(old(commit).body.value, old(commit).trailers.value))))
    {
      var stripped := BodyWithoutTrailers(commit.body.value, commit.trailers.value);
      commit := commit.(bodyLines := Some(BodyLines(stripped)));
    }

    /** `step_d_body_paragraphs` */
    method StepDBodyParagraphs()
      requires commit.body.Some? && commit.trailers.Some?
      modifies this`commit
      ensures commit == old(commit).(
        bodyParagraphs := Some(BodyParagraphs(old(commit).body.value, old(commit).trailers.value)))
    {
      commit := commit.(bodyParagraphs := Some(BodyParagraphs(commit.body.value, commit.trailers.value)));
    }
  }
}
