/**
  The unsaved-commit entry parser. It is handed one raw message, as written to the commit
  message file, and splits it itself: the subject is the first line, the body the lines
  after it with the "scissors" tail of a verbose commit cut off. The author comes from the
  repository's configuration and the trailers from `git interpret-trailers`; both are
  parameters here.
*/
module UnsavedEntry {
  import opened Optional
  import opened RubyText
  import opened Commits
  import opened Segmentation

  /** `SUBJECT_INDEX`: how many lines `drop` skips to reach the body. */
  const SubjectIndex: nat := 1

  /** The relative date an unsaved commit is given. */
  const DateRelative: string := "0 seconds ago"

  // ---------------------------------------------------------------------------------------
  // SCISSOR_PATTERN = /\#\s-+\s>8\s-+\n.+/m

  /** Length of the run of '-' characters starting at `j`. */
  function DashRun(s: string, j: nat): (n: nat)
    ensures n > 0 ==> j + n <= |s|
    ensures n > 0 ==> s[j] == '-'
    ensures j + n < |s| ==> s[j + n] != '-'
    decreases |s| - j
  {
    if j < |s| && s[j] == '-' then 1 + DashRun(s, j + 1) else 0
  }

  /** Every character of the run is a dash. */
  lemma {:induction false} DashRunDashes(s: string, j: nat)
    ensures forall k :: j <= k < j + DashRun(s, j) ==> s[k] == '-'
    decreases |s| - j
  {
    if j < |s| && s[j] == '-' {
      DashRunDashes(s, j + 1);
    }
  }

  /** Index of the newline that closes a scissors line starting at `i`. */
  function MarkerEnd(s: string, i: nat): nat {
    var a := i + 2 + DashRun(s, i + 2);
    a + 4 + DashRun(s, a + 4)
  }

  /**
    The scissors pattern matches at `i`: '#', a whitespace, dashes, a whitespace, ">8", a
    whitespace, dashes, a newline and at least one more character (`.+` in multiline mode
    then takes the rest of the string). A dash is not whitespace, so each `-+` takes its
    whole run and the pattern has one way to match.
  */
  predicate ScissorsAt(s: string, i: nat) {
    var a := i + 2 + DashRun(s, i + 2);
    var b := MarkerEnd(s, i);
    && i + 1 < |s| && s[i] == '#' && IsSpace(s[i + 1])
    && DashRun(s, i + 2) >= 1
    && a + 3 < |s| && IsSpace(s[a]) && s[a + 1] == '>' && s[a + 2] == '8' && IsSpace(s[a + 3])
    && DashRun(s, a + 4) >= 1
    && b + 1 < |s| && s[b] == '\n'
  }

  /** A run of `n` dashes. */
  function Dashes(n: nat): (r: string)
    ensures |r| == n && forall k :: 0 <= k < n ==> r[k] == '-'
  {
    seq(n, _ => '-')
  }

  /** A run of exactly `n` dashes at `j`, ended by something else, is measured as `n`. */
  lemma {:induction false} DashRunOfDashes(s: string, j: nat, n: nat)
    requires j + n < |s| && s[j + n] != '-'
    requires forall k :: j <= k < j + n ==> s[k] == '-'
    ensures DashRun(s, j) == n
    decreases n
  {
    if n > 0 {
      DashRunOfDashes(s, j + 1, n - 1);
    }
  }

  /**
    Every line the scissors pattern describes is recognised: '#', a space, dashes, " >8 ",
    dashes and a newline, followed by at least one more character.
  */
  lemma ScissorsLineMatches(n1: nat, n2: nat, rest: string)
    requires n1 >= 1 && n2 >= 1 && rest != ""
    ensures ScissorsAt("# " + Dashes(n1) + " >8 " + Dashes(n2) + "\n" + rest, 0)
  {
    var s := "# " + Dashes(n1) + " >8 " + Dashes(n2) + "\n" + rest;
    var a := 2 + n1;
    var b := a + 4 + n2;
    ScissorsLineChars(n1, n2, rest, s);
    DashRunOfDashes(s, 2, n1);
    DashRunOfDashes(s, a + 4, n2);
    assert MarkerEnd(s, 0) == b;
  }

  /** The characters of such a line, position by position. */
  lemma ScissorsLineChars(n1: nat, n2: nat, rest: string, s: string)
    requires s == "# " + Dashes(n1) + " >8 " + Dashes(n2) + "\n" + rest
    ensures |s| == 2 + n1 + 4 + n2 + 1 + |rest|
    ensures s[0] == '#' && s[1] == ' '
    ensures forall k :: 2 <= k < 2 + n1 ==> s[k] == '-'
    ensures s[2 + n1] == ' ' && s[3 + n1] == '>' && s[4 + n1] == '8' && s[5 + n1] == ' '
    ensures forall k :: 6 + n1 <= k < 6 + n1 + n2 ==> s[k] == '-'
    ensures s[6 + n1 + n2] == '\n'
  {
    var head := "# " + Dashes(n1);
    var mid := head + " >8 ";
    var tail := mid + Dashes(n2);
    assert s == tail + "\n" + rest;
    forall k | 2 <= k < 2 + n1 ensures s[k] == '-' {
      assert s[k] == head[k] == Dashes(n1)[k - 2];
    }
    forall k | 6 + n1 <= k < 6 + n1 + n2 ensures s[k] == '-' {
      assert s[k] == tail[k] == Dashes(n2)[k - 6 - n1];
    }
  }

  /** The leftmost position at or after `from` where the scissors pattern matches. */
  function FirstScissors(s: string, from: nat): (r: Option<nat>)
    ensures r.Some? ==> from <= r.value && ScissorsAt(s, r.value)
    ensures r.Some? ==> forall i: nat :: from <= i < r.value ==> !ScissorsAt(s, i)
    ensures r.None? ==> forall i: nat :: from <= i ==> !ScissorsAt(s, i)
    decreases |s| - from
  {
    if from >= |s| then None
    else if ScissorsAt(s, from) then Some(from)
    else FirstScissors(s, from + 1)
  }

  /**
    `message.sub(SCISSOR_PATTERN, "")`: the message up to the leftmost scissors line; the
    line and everything after it are gone. A message without one is kept whole.
  */
  function StripScissors(message: string): (r: string)
    ensures r <= message
    ensures r == message <==> forall i: nat :: !ScissorsAt(message, i)
    ensures r != message ==> ScissorsAt(message, |r|)
    ensures forall i: nat :: i < |r| ==> !ScissorsAt(message, i)
  {
    match FirstScissors(message, 0)
    case None => message
    case Some(i) => message[..i]
  }

  // ---------------------------------------------------------------------------------------
  // Steps c to h

  /** Step c, `message.split("\n").first`: nil when the message is empty or only newlines. */
  function Subject(message: string): Option<string> {
    var lines := Split(message, "\n");
    if lines == [] then None else Some(lines[0])
  }

  /**
    Step d: the lines after the subject of the scissors-free message, joined by newlines,
    with a final newline unless no line is left.
  */
  function Body(message: string): (r: string)
    ensures r == "" || r[|r| - 1] == '\n'
  {
    var lines := Split(StripScissors(message), "\n");
    var rest := if |lines| >= SubjectIndex then lines[SubjectIndex..] else [];
    var computed := Join(rest, "\n");
    if rest == [] then computed else computed + "\n"
  }

  /**
    `body.sub(trailers.join("\n"), "").chomp`: only the first literal occurrence of the
    trailer block is taken out, whatever follows it stays, and one line ending goes.
  */
  function BodyWithoutTrailers(body: string, trailers: seq<string>): (r: string)
    ensures Find(body, Join(trailers, "\n")).None? ==> r == Chomp(body)
    ensures trailers == [] ==> r == Chomp(body)
    ensures Find(body, Join(trailers, "\n")).Some? ==>
      var i := Find(body, Join(trailers, "\n")).value;
      r == Chomp(body[..i] + body[i + |Join(trailers, "\n")|..])
  {
    assert trailers == [] ==> Find(body, Join(trailers, "\n")) == Some(0) by {
      if trailers == [] { assert OccursAt(body, "", 0); }
    }
    Chomp(DeleteFirst(body, Join(trailers, "\n")))
  }

  /**
    Step h: split on blank-line separators, strip one leading newline and then one line
    ending from each piece, reject the pieces that start with "#". No paragraph is a
    comment or holds a blank-line separator; empty paragraphs are kept.
  */
  function BodyParagraphs(body: string, trailers: seq<string>): (r: seq<string>)
    ensures forall k :: 0 <= k < |r| ==> !IsComment(r[k])
    ensures forall k :: 0 <= k < |r| ==> forall j: nat :: !OccursAt(r[k], "\n\n", j)
    ensures forall p :: p in r <==>
      p in ChompAll(DeleteNewlinePrefixAll(Split(BodyWithoutTrailers(body, trailers), "\n\n")))
      && !IsComment(p)
    ensures r == RejectComments(
      ChompAll(DeleteNewlinePrefixAll(Split(BodyWithoutTrailers(body, trailers), "\n\n"))))
  {
    var pieces := Split(BodyWithoutTrailers(body, trailers), "\n\n");
    var chomped := ChompAll(DeleteNewlinePrefixAll(pieces));
    TrimmedPiecesHaveNoSeparator(pieces);
    RejectKeepsNoSeparator(chomped);
    RejectComments(chomped)
  }

  /**
    Paragraphs joined by blank lines, in the shape step d gives a body (a newline before,
    one after), come back as the paragraphs, in order and with repeats, less the comment
    ones.
  */
  lemma {:induction false} ParagraphsRoundTrip(xs: seq<string>)
    requires xs != [] && xs[0] != "" && xs[|xs| - 1] != ""
    requires forall k :: 0 <= k < |xs| ==> PlainParagraph(xs[k])
    ensures BodyParagraphs("\n" + Join(xs, "\n\n") + "\n", []) == RejectComments(xs)
  {
    var ys := ["\n" + xs[0]] + xs[1..];
    LeadingParagraphPieces(xs, ys);
    NewlinePrefixesDeleted(xs, ys);
    PlainParagraphsChomped(xs);
  }

  /** The pieces of such a body: the first paragraph after a newline, then the others. */
  lemma {:induction false} LeadingParagraphPieces(xs: seq<string>, ys: seq<string>)
    requires xs != [] && xs[0] != "" && xs[|xs| - 1] != ""
    requires forall k :: 0 <= k < |xs| ==> PlainParagraph(xs[k])
    requires ys == ["\n" + xs[0]] + xs[1..]
    ensures Split(BodyWithoutTrailers("\n" + Join(xs, "\n\n") + "\n", []), "\n\n") == ys
  {
    JoinedBodyChomped(xs);
    LeadingNewlineJoin(xs, ys);
    LeadingPiecesAreFields(xs, ys);
    SplitJoinParagraphs(ys);
  }

  /** A newline before the first paragraph keeps every piece a paragraph, the last non-empty. */
  lemma {:induction false} LeadingPiecesAreFields(xs: seq<string>, ys: seq<string>)
    requires xs != [] && xs[0] != "" && xs[|xs| - 1] != ""
    requires forall k :: 0 <= k < |xs| ==> PlainParagraph(xs[k])
    requires ys == ["\n" + xs[0]] + xs[1..]
    ensures ys != [] && ys[|ys| - 1] != ""
    ensures forall k :: 0 <= k < |ys| ==> ParagraphField(ys[k])
  {
    var first := xs[0];
    assert PlainParagraph(first);
    NewlineParagraphField(first);
    if |xs| == 1 {
      assert ys[|ys| - 1] == "\n" + first;
    } else {
      assert ys[|ys| - 1] == xs[|xs| - 1];
    }
    forall k | 1 <= k < |ys| ensures ParagraphField(ys[k]) {
      assert ys[k] == xs[k] && PlainParagraph(xs[k]);
    }
  }

  /** The newline step d appends after the joined paragraphs is all that chomp removes. */
  lemma {:induction false} JoinedBodyChomped(xs: seq<string>)
    requires xs != [] && xs[|xs| - 1] != "" && PlainParagraph(xs[|xs| - 1])
    ensures BodyWithoutTrailers("\n" + Join(xs, "\n\n") + "\n", []) == "\n" + Join(xs, "\n\n")
  {
    var joined := Join(xs, "\n\n");
    var last := xs[|xs| - 1];
    JoinLast(xs, "\n\n");
    assert last[|last| - 1] != '\r';
    NewlineBeforeKeepsEnd(joined);
    NewlineChompedOff("\n" + joined);
  }

  /** With no trailers, a body ending in one newline after a non-'\r' loses just that. */
  lemma NewlineChompedOff(text: string)
    requires text != "" && text[|text| - 1] != '\r'
    ensures BodyWithoutTrailers(text + "\n", []) == text
  {
    ChompNewline(text);
  }

  /** A newline put before a text does not change its last character. */
  lemma NewlineBeforeKeepsEnd(t: string)
    requires t != ""
    ensures var s := "\n" + t; s[|s| - 1] == t[|t| - 1]
  {
  }

  /** `delete_prefix "\n"` takes the newline off the first piece and leaves the others. */
  lemma {:induction false} NewlinePrefixesDeleted(xs: seq<string>, ys: seq<string>)
    requires xs != [] && forall k :: 0 <= k < |xs| ==> PlainParagraph(xs[k])
    requires ys == ["\n" + xs[0]] + xs[1..]
    ensures DeleteNewlinePrefixAll(ys) == xs
  {
    assert ("\n" + xs[0])[..1] == "\n" && ("\n" + xs[0])[1..] == xs[0];
    forall k | 1 <= k < |xs| ensures DeletePrefix(ys[k], "\n") == xs[k] {
      assert PlainParagraph(xs[k]);
    }
  }

  /** A newline before the first of the joined pieces is a newline before the join. */
  lemma {:induction false} LeadingNewlineJoin(xs: seq<string>, ys: seq<string>)
    requires xs != [] && ys == ["\n" + xs[0]] + xs[1..]
    ensures Join(ys, "\n\n") == "\n" + Join(xs, "\n\n")
  {
    if |xs| > 1 {
      JoinCons("\n" + xs[0], xs[1..], "\n\n");
      JoinCons(xs[0], xs[1..], "\n\n");
      assert xs == [xs[0]] + xs[1..];
    }
  }

  /** Taking a leading newline and a line ending off pieces adds no blank-line separator. */
  lemma TrimmedPiecesHaveNoSeparator(pieces: seq<string>)
    requires forall k: nat, j: nat :: k < |pieces| ==> !OccursAt(pieces[k], "\n\n", j)
    ensures var chomped := ChompAll(DeleteNewlinePrefixAll(pieces));
      forall k :: 0 <= k < |chomped| ==> forall j: nat :: !OccursAt(chomped[k], "\n\n", j)
  {
    var trimmed := DeleteNewlinePrefixAll(pieces);
    var chomped := ChompAll(trimmed);
    forall k | 0 <= k < |chomped| ensures forall j: nat :: !OccursAt(chomped[k], "\n\n", j) {
      if StartsWith(pieces[k], "\n") {
        assert trimmed[k] == pieces[k][|pieces[k]| - |trimmed[k]|..];
      }
      NoOccurrenceInSuffix(trimmed[k], pieces[k], "\n\n");
      NoOccurrenceInPrefix(chomped[k], trimmed[k], "\n\n");
    }
  }

  /**
    The whole parse as one value: what `Entry#call(message)` answers. The message, the
    generated sha, the configured author and the trailers pass through unchanged, and the
    date is always "0 seconds ago".
  */
  function Parse(message: string, sha: string, userName: string, userEmail: string,
                 trailers: seq<string>): (r: Commit)
    ensures r.message == Some(message) && r.sha == Some(sha) && r.trailers == Some(trailers)
    ensures r.authorName == Some(userName) && r.authorEmail == Some(userEmail)
    ensures r.authorDateRelative == Some(DateRelative)
  {
    var body := Body(message);
    Commit(
      authorDateRelative := Some(DateRelative),
      authorEmail := Some(userEmail),
      authorName := Some(userName),
      body := Some(body),
      bodyLines := Some(BodyLines(BodyWithoutTrailers(body, trailers))),
      bodyParagraphs := Some(BodyParagraphs(body, trailers)),
      message := Some(message),
      sha := Some(sha),
      subject := Subject(message),
      trailers := Some(trailers),
      trailersIndex := TrailersIndex(body, trailers))
  }

  // ---------------------------------------------------------------------------------------
  // Properties

  /**
    The subject is nil exactly when the message is empty or only newlines; otherwise it is
    the message's first line: a prefix without a newline, ended by a newline or the end.
  */
  lemma SubjectIsFirstLine(message: string)
    ensures Subject(message).None? <==> forall k :: 0 <= k < |message| ==> message[k] == '\n'
    ensures Subject(message).Some? ==>
      var subject := Subject(message).value;
      && subject <= message && '\n' !in subject
      && (|subject| == |message| || message[|subject|] == '\n')
  {
    NoLinesOnlyNewlines(message);
    if Split(message, "\n") != [] {
      FirstLine(message);
    }
  }

  /** Where two strings agree up to the end of a run of dashes, the run is the same in both. */
  lemma {:induction false} DashRunPrefix(p: string, s: string, x: nat)
    requires p <= s
    requires x + DashRun(p, x) < |p| || x + DashRun(s, x) < |p|
    ensures DashRun(p, x) == DashRun(s, x)
    decreases |p| - x
  {
    if x < |p| && p[x] == '-' {
      DashRunPrefix(p, s, x + 1);
    }
  }

  /** A scissors line found in a prefix is found at the same place in the whole string. */
  lemma ScissorsAtExtend(p: string, s: string, i: nat)
    requires p <= s
    ensures ScissorsAt(p, i) ==> ScissorsAt(s, i)
  {
    if ScissorsAt(p, i) {
      DashRunPrefix(p, s, i + 2);
      var a := i + 2 + DashRun(p, i + 2);
      DashRunPrefix(p, s, a + 4);
      ScissorsCharsAgree(p, s, i, a, MarkerEnd(p, i));
    }
  }

  /**
    Appending a newline to a string that does not end in one creates no scissors line: the
    newline a match needs must be followed by another character.
  */
  lemma ScissorsAtAppendNewline(p: string, i: nat)
    requires p == "" || p[|p| - 1] != '\n'
    ensures ScissorsAt(p + "\n", i) ==> ScissorsAt(p, i)
  {
    var s := p + "\n";
    if ScissorsAt(s, i) {
      var b := MarkerEnd(s, i);
      assert b + 1 < |p| by {
        assert s[|p| - 1] == p[|p| - 1];
      }
      ScissorsAtShrink(p, s, i);
    }
  }

  /** A scissors line that ends inside a prefix is found at the same place in the prefix. */
  lemma ScissorsAtShrink(p: string, s: string, i: nat)
    requires p <= s && ScissorsAt(s, i) && MarkerEnd(s, i) + 1 < |p|
    ensures ScissorsAt(p, i)
  {
    var a := i + 2 + DashRun(s, i + 2);
    var b := MarkerEnd(s, i);
    DashRunPrefix(p, s, i + 2);
    DashRunPrefix(p, s, a + 4);
    ScissorsCharsAgree(p, s, i, a, b);
  }

  /** Below the end of `p`, a string that extends it has the same characters. */
  lemma ScissorsCharsAgree(p: string, s: string, i: nat, a: nat, b: nat)
    requires p <= s && i + 1 < |p| && a + 3 < |p| && b < |p|
    ensures s[i] == p[i] && s[i + 1] == p[i + 1] && s[b] == p[b]
    ensures s[a] == p[a] && s[a + 1] == p[a + 1] && s[a + 2] == p[a + 2] && s[a + 3] == p[a + 3]
  {
  }

  /** A message without a dash has no scissors line. */
  lemma NoDashNoScissors(message: string)
    requires '-' !in message
    ensures forall i: nat :: !ScissorsAt(message, i)
  {
    forall k | 0 <= k < |message| ensures message[k] != '-' {
      assert message[k] in message;
    }
  }

  /** Cutting the scissors tail twice cuts nothing more. */
  lemma StripScissorsIdempotent(message: string)
    ensures StripScissors(StripScissors(message)) == StripScissors(message)
  {
    var r := StripScissors(message);
    forall i: nat ensures !ScissorsAt(r, i) {
      ScissorsAtExtend(r, message, i);
    }
  }

  /** The body is the same whether or not the scissors tail was cut beforehand. */
  lemma BodyIgnoresScissorsTail(message: string)
    ensures Body(StripScissors(message)) == Body(message)
  {
    StripScissorsIdempotent(message);
  }

  /**
    For a message without a scissors line, the subject, a newline and the body give back
    the message, up to trailing newlines.
  */
  lemma BodyRebuildsMessage(message: string)
    requires forall i: nat :: !ScissorsAt(message, i)
    requires Subject(message).Some?
    ensures TrimNewlines(Subject(message).value + "\n" + Body(message)) == TrimNewlines(message)
  {
    var joined := Join(Split(message, "\n"), "\n");
    SubjectAndBody(message);
    JoinSplitLines(message);
    assert joined + "\n" == joined + Repeat("\n", 1);
    TrimNewlinesAppend(joined, 1);
  }

  /** Without a scissors line, the subject, a newline and the body are the lines and a newline. */
  lemma SubjectAndBody(message: string)
    requires forall i: nat :: !ScissorsAt(message, i)
    requires Subject(message).Some?
    ensures Subject(message).value + "\n" + Body(message) == Join(Split(message, "\n"), "\n") + "\n"
  {
    var lines := Split(message, "\n");
    assert StripScissors(message) == message;
    assert Subject(message).value == lines[0];
    if |lines| == 1 {
      assert Body(message) == "";
    } else {
      assert Body(message) == Join(lines[1..], "\n") + "\n";
      assert Join(lines, "\n") == lines[0] + "\n" + Join(lines[1..], "\n");
    }
  }

  /** The lines of a text, joined and followed by a newline, split back into the same lines. */
  lemma SplitLinesAgain(message: string)
    requires Split(message, "\n") != []
    ensures Split(Join(Split(message, "\n"), "\n") + "\n", "\n") == Split(message, "\n")
  {
    var lines := Split(message, "\n");
    var again := Join(lines, "\n") + "\n";
    JoinSnoc(lines, "", "\n");
    assert Join(lines + [""], "\n") == again;
    EmptyFieldAppended(lines);
    RawSplitJoin(lines + [""], "\n");
    assert RawSplit(again, "\n") == lines + [""];
    assert (lines + [""])[..|lines|] == lines;
  }

  /** The lines of a message without a scissors line, each followed by a newline, have none. */
  lemma LinesAgainHaveNoScissors(message: string)
    requires forall i: nat :: !ScissorsAt(message, i)
    ensures forall i: nat :: !ScissorsAt(Join(Split(message, "\n"), "\n") + "\n", i)
  {
    var joined := Join(Split(message, "\n"), "\n");
    var again := joined + "\n";
    JoinSplitLines(message);
    SplitRoundTrip(message, "\n");
    var n: nat :| message == joined + Repeat("\n", n);
    if n == 0 {
      assert again == message + "\n";
      forall i: nat ensures !ScissorsAt(again, i) {
        ScissorsAtAppendNewline(message, i);
      }
    } else {
      assert Repeat("\n", n)[..1] == "\n";
      assert again <= message;
      forall i: nat ensures !ScissorsAt(again, i) {
        ScissorsAtExtend(again, message, i);
      }
    }
  }

  /**
    Parsing again the text made of the subject, a newline and the body of a message
    without a scissors line gives the same subject and body.
  */
  lemma ReparseIsStable(message: string)
    requires forall i: nat :: !ScissorsAt(message, i)
    requires Subject(message).Some?
    ensures var again := Subject(message).value + "\n" + Body(message);
      Subject(again) == Subject(message) && Body(again) == Body(message)
  {
    var again := Subject(message).value + "\n" + Body(message);
    SubjectAndBody(message);
    SplitLinesAgain(message);
    LinesAgainHaveNoScissors(message);
    assert StripScissors(again) == again;
    assert StripScissors(message) == message;
  }

  /**
    The parser object. `userName` and `userEmail` are what the repository's
    `config_get("user.name")` and `config_get("user.email")` answer, and `trailersList`
    is its `trailers_list(stdin_data:)`, given the message text.
  */
  class Entry {
    const sha: string
    const userName: string
    const userEmail: string
    const trailersList: string -> seq<string>
    var commit: Commit

    /** `initialize sha:, commit:, repository:` keeps a copy of the given record. */
    constructor (sha: string, initial: Commit, userName: string, userEmail: string,
                 trailersList: string -> seq<string>)
      ensures this.sha == sha && commit == initial
      ensures this.userName == userName && this.userEmail == userEmail
      ensures this.trailersList == trailersList
    {
      this.sha := sha;
      this.userName := userName;
      this.userEmail := userEmail;
      this.trailersList := trailersList;
      commit := initial;
    }

    /** `call(message)`: set date, message and sha, run the steps, answer the record. */
    method Call(message: string) returns (result: Commit)
      modifies this
      ensures result == commit == Parse(message, sha, userName, userEmail, trailersList(message))
    {
      commit := commit.(authorDateRelative := Some(DateRelative), message := Some(message), sha := Some(sha));
      Build();
      result := commit;
    }

    /** `build`: steps a to h in the order of their names. */
    method Build()
      requires commit.message.Some?
      modifies this
      ensures var message := old(commit).message.value;
        var body := Body(message);
        var trailers := trailersList(message);
        commit == old(commit).(
          authorName := Some(userName),
          authorEmail := Some(userEmail),
          subject := Subject(message),
          body := Some(body),
          trailers := Some(trailers),
          trailersIndex := TrailersIndex(body, trailers),
          bodyLines := Some(BodyLines(BodyWithoutTrailers(body, trailers))),
          bodyParagraphs := Some(BodyParagraphs(body, trailers)))
    {
      StepAAuthorName();
      StepBAuthorEmail();
      StepCSubject();
      StepDBody();
      StepETrailers();
      StepFTrailersIndex();
      StepGBodyLines();
      StepHBodyParagraphs();
    }

    /** `step_a_author_name` */
    method StepAAuthorName()
      modifies this`commit
      ensures commit == old(commit).(authorName := Some(userName))
    {
      commit := commit.(authorName := Some(userName));
    }

    /** `step_b_author_email` */
    method StepBAuthorEmail()
      modifies this`commit
      ensures commit == old(commit).(authorEmail := Some(userEmail))
    {
      commit := commit.(authorEmail := Some(userEmail));
    }

    /** `step_c_subject` */
    method StepCSubject()
      requires commit.message.Some?
      modifies this`commit
      ensures commit == old(commit).(subject := Subject(old(commit).message.value))
    {
      commit := commit.(subject := Subject(commit.message.value));
    }

    /** `step_d_body` */
    method StepDBody()
      requires commit.message.Some?
      modifies this`commit
      ensures commit == old(commit).(body := Some(Body(old(commit).message.value)))
    {
      commit := commit.(body := Some(Body(commit.message.value)));
    }

    /** `step_e_trailers`: the trailers of the whole message, scissors tail included. */
    method StepETrailers()
      requires commit.message.Some?
      modifies this`commit
      ensures commit == old(commit).(trailers := Some(trailersList(old(commit).message.value)))
    {
      commit := commit.(trailers := Some(trailersList(commit.message.value)));
    }

    /** `step_f_trailers_index` */
    method StepFTrailersIndex()
      requires commit.body.Some? && commit.trailers.Some?
      modifies this`commit
      ensures commit == old(commit).(
        trailersIndex := TrailersIndex(old(commit).body.value, old(commit).trailers.value))
    {
      commit := commit.(trailersIndex := TrailersIndex(commit.body.value, commit.trailers.value));
    }

    /** `step_g_body_lines` */
    method StepGBodyLines()
      requires commit.body.Some? && commit.trailers.Some?
      modifies this`commit
      ensures commit == old(commit).(bodyLines :=
        Some(BodyLines(BodyWithoutTrailers(old(commit).body.value, old(commit).trailers.value))))
    {
      var stripped := BodyWithoutTrailers(commit.body.value, commit.trailers.value);
      commit := commit.(bodyLines := Some(BodyLines(stripped)));
    }

    /** `step_h_body_paragraphs` */
    method StepHBodyParagraphs()
      requires commit.body.Some? && commit.trailers.Some?
      modifies this`commit
      ensures commit == old(commit).(bodyParagraphs :=
        Some(BodyParagraphs(old(commit).body.value, old(commit).trailers.value)))
    {
      commit := commit.(bodyParagraphs := Some(BodyParagraphs(commit.body.value, commit.trailers.value)));
    }
  }
}
