/**
  The saved-commit history query. It asks `git log` for every commit in a tagged layout,
  one `<key>placeholder</key>` per attribute, splits the output into records, pulls each
  attribute out of its record and hands the attributes to the saved entry parser. The
  `git log` call itself is a parameter: a function from the argument list to the standard
  output and the success of the process.
*/
module SavedHistory {
  import opened Optional
  import opened RubyText
  import opened Commits
  import SavedEntry

  /** `PATTERN`: each attribute's key and its `git log` placeholder, in declaration order. */
  const Pattern: seq<(string, string)> := [
    ("sha", "%H"),
    ("author_name", "%an"),
    ("author_email", "%ae"),
    ("author_date_relative", "%ar"),
    ("subject", "%s"),
    ("body", "%b"),
    ("message", "%B"),
    ("trailers", "%(trailers)")
  ]

  /** What separates two records in the output: a quote, a newline and a quote. */
  const RecordSeparator: string := "\"\n\""

  function Keys(pattern: seq<(string, string)>): (r: seq<string>)
    ensures |r| == |pattern| && forall k :: 0 <= k < |r| ==> r[k] == pattern[k].0
  {
    seq(|pattern|, k requires 0 <= k < |pattern| => pattern[k].0)
  }

  function OpenTag(key: string): string {
    "<" + key + ">"
  }

  function CloseTag(key: string): string {
    "</" + key + ">"
  }

  /** One attribute in tagged form, followed by a line break. */
  function Tagged(key: string, content: string, newline: string): string {
    OpenTag(key) + content + CloseTag(key) + newline
  }

  function Placeholders(pattern: seq<(string, string)>): (r: seq<string>)
    ensures |r| == |pattern| && forall k :: 0 <= k < |r| ==> r[k] == pattern[k].1
  {
    seq(|pattern|, k requires 0 <= k < |pattern| => pattern[k].1)
  }

  /** The left fold of `format`: each key tagged around its content, in order, each ended by `newline`. */
  function Layout(keys: seq<string>, contents: seq<string>, newline: string): string
    requires |keys| == |contents|
  {
    if keys == [] then ""
    else
      var n := |keys| - 1;
      Layout(keys[..n], contents[..n], newline) + Tagged(keys[n], contents[n], newline)
  }

  /** `format`: the `--pretty=format:` argument, the tagged placeholders between double quotes. */
  function Format(pattern: seq<(string, string)>): string {
    "--pretty=format:\"" + Layout(Keys(pattern), Placeholders(pattern), "%n") + "\""
  }

  /**
    The fold read from the front: the first key's tagged content comes first, then the
    layout of the rest, so the keys stand in declaration order.
  */
  lemma {:induction false} LayoutFront(keys: seq<string>, contents: seq<string>, newline: string)
    requires |keys| == |contents| && keys != []
    ensures Layout(keys, contents, newline)
      == Tagged(keys[0], contents[0], newline) + Layout(keys[1..], contents[1..], newline)
    decreases |keys|
  {
    var n := |keys| - 1;
    var first := Tagged(keys[0], contents[0], newline);
    var last := Tagged(keys[n], contents[n], newline);
    if n == 0 {
      assert Layout(keys[..n], contents[..n], newline) == "";
      assert Layout(keys[1..], contents[1..], newline) == "";
    } else {
      var ks, cs := keys[..n], contents[..n];
      var kt, ct := keys[1..], contents[1..];
      LayoutFront(ks, cs, newline);
      assert ks[0] == keys[0] && cs[0] == contents[0];
      var middle := Layout(ks[1..], cs[1..], newline);
      assert Layout(ks, cs, newline) == first + middle;
      assert ks[1..] == kt[..n - 1] && cs[1..] == ct[..n - 1];
      assert kt[n - 1] == keys[n] && ct[n - 1] == contents[n];
      assert Layout(kt, ct, newline) == middle + last;
      assert Layout(keys, contents, newline) == first + middle + last;
    }
  }

  /**
    The argument `format` builds from `PATTERN`: each key tagged around its placeholder and
    ended by `%n`, in declaration order, the whole between double quotes.
  */
  lemma FormatPattern()
    ensures Format(Pattern) == "--pretty=format:\""
      + (Tagged("sha", "%H", "%n") + Tagged("author_name", "%an", "%n")
         + Tagged("author_email", "%ae", "%n") + Tagged("author_date_relative", "%ar", "%n")
         + Tagged("subject", "%s", "%n") + Tagged("body", "%b", "%n")
         + Tagged("message", "%B", "%n") + Tagged("trailers", "%(trailers)", "%n"))
      + "\""
  {
    PatternKeys();
    PatternPlaceholders();
    LayoutOfEight(Keys(Pattern), Placeholders(Pattern), "%n");
  }

  /** The layout of eight keys, one tagged content after another. */
  lemma {:induction false} LayoutOfEight(ks: seq<string>, cs: seq<string>, newline: string)
    requires |ks| == |cs| == 8
    ensures Layout(ks, cs, newline)
      == Tagged(ks[0], cs[0], newline) + Tagged(ks[1], cs[1], newline)
      + Tagged(ks[2], cs[2], newline) + Tagged(ks[3], cs[3], newline)
      + Tagged(ks[4], cs[4], newline) + Tagged(ks[5], cs[5], newline)
      + Tagged(ks[6], cs[6], newline) + Tagged(ks[7], cs[7], newline)
  {
    var empty := Layout(ks[..0], cs[..0], newline);
    assert empty == "" by {
      assert ks[..0] == [] && cs[..0] == [];
    }
    LayoutFourMore(ks, cs, newline, 0);
    LayoutFourMore(ks, cs, newline, 4);
    assert ks[..8] == ks && cs[..8] == cs;
    EightPieces(empty, Layout(ks[..4], cs[..4], newline), Layout(ks, cs, newline),
      Tagged(ks[0], cs[0], newline), Tagged(ks[1], cs[1], newline),
      Tagged(ks[2], cs[2], newline), Tagged(ks[3], cs[3], newline),
      Tagged(ks[4], cs[4], newline), Tagged(ks[5], cs[5], newline),
      Tagged(ks[6], cs[6], newline), Tagged(ks[7], cs[7], newline));
  }

  /** Eight pieces appended in two runs of four are the eight appended in one run. */
  lemma EightPieces(empty: string, half: string, whole: string, t0: string, t1: string,
                    t2: string, t3: string, t4: string, t5: string, t6: string, t7: string)
    requires empty == "" && half == empty + t0 + t1 + t2 + t3
    requires whole == half + t4 + t5 + t6 + t7
    ensures whole == t0 + t1 + t2 + t3 + t4 + t5 + t6 + t7
  {
    assert empty + t0 == t0;
  }

  /** The layout of four keys more is the shorter layout and their four tagged contents. */
  lemma {:induction false} LayoutFourMore(ks: seq<string>, cs: seq<string>, newline: string, i: nat)
    requires |ks| == |cs| && i + 4 <= |ks|
    ensures Layout(ks[..i + 4], cs[..i + 4], newline)
      == Layout(ks[..i], cs[..i], newline)
      + Tagged(ks[i], cs[i], newline) + Tagged(ks[i + 1], cs[i + 1], newline)
      + Tagged(ks[i + 2], cs[i + 2], newline) + Tagged(ks[i + 3], cs[i + 3], newline)
  {
    LayoutSnoc(ks, cs, newline, i);
    LayoutSnoc(ks, cs, newline, i + 1);
    LayoutSnoc(ks, cs, newline, i + 2);
    LayoutSnoc(ks, cs, newline, i + 3);
  }

  /** The layout of one key more is the shorter layout and that key's tagged content. */
  lemma {:induction false} LayoutSnoc(keys: seq<string>, contents: seq<string>, newline: string, i: nat)
    requires |keys| == |contents| && i < |keys|
    ensures Layout(keys[..i + 1], contents[..i + 1], newline)
      == Layout(keys[..i], contents[..i], newline) + Tagged(keys[i], contents[i], newline)
  {
    assert keys[..i + 1][..i] == keys[..i] && contents[..i + 1][..i] == contents[..i];
  }

  /** The pattern's placeholders, in order. */
  lemma PatternPlaceholders()
    ensures Placeholders(Pattern) == ["%H", "%an", "%ae", "%ar", "%s", "%b", "%B", "%(trailers)"]
  {
  }

  /**
    What `git log` prints for one commit under that format: the same layout with each
    placeholder replaced by the commit's value and each `%n` by a newline.
  */
  function Record(keys: seq<string>, values: seq<string>): string
    requires |keys| == |values|
  {
    Layout(keys, values, "\n")
  }

  /**
    `process`: a failed log answers no records; otherwise the output split on the record
    separator, so no record holds a separator and the last one is not empty.
  */
  function Process(stdout: string, success: bool): (r: seq<string>)
    ensures !success ==> r == []
    ensures success ==> r == Split(stdout, RecordSeparator)
    ensures success && stdout == "" ==> r == []
    ensures forall k: nat, j: nat :: k < |r| ==> !OccursAt(r[k], RecordSeparator, j)
    ensures r == [] || r[|r| - 1] != ""
  {
    if success then Split(stdout, RecordSeparator) else []
  }

  /**
    `String(response[%r(<key>(?<content>.*?)</key>)m, :content])`: the text between the
    first opening tag and the nearest closing tag after it, "" when either is missing. The
    lazy match never takes a closing tag into the content.
  */
  function Extract(response: string, key: string): (r: string)
    ensures Find(response, OpenTag(key)).None? ==> r == ""
    ensures Find(response, OpenTag(key)).Some? ==>
      var start := Find(response, OpenTag(key)).value + |OpenTag(key)|;
      && (FindFrom(response, CloseTag(key), start).None? ==> r == "")
      && (FindFrom(response, CloseTag(key), start).Some? ==>
            var j := FindFrom(response, CloseTag(key), start).value;
            start <= j <= |response| && r == response[start..j])
    ensures forall j: nat :: !OccursAt(r, CloseTag(key), j)
  {
    match Find(response, OpenTag(key))
    case None => ""
    case Some(i) =>
      var start := i + |OpenTag(key)|;
      match FindFrom(response, CloseTag(key), start)
      case None => ""
      case Some(j) =>
        NoCloseTagBefore(response, key, start, j);
        response[start..j]
  }

  /** Up to the nearest closing tag at or after `start`, the text holds no closing tag. */
  lemma NoCloseTagBefore(response: string, key: string, start: nat, j: nat)
    requires FindFrom(response, CloseTag(key), start) == Some(j)
    ensures start <= j <= |response|
    ensures forall n: nat :: !OccursAt(response[start..j], CloseTag(key), n)
  {
    forall n: nat ensures !OccursAt(response[start..j], CloseTag(key), n) {
      if n + |CloseTag(key)| <= j - start {
        assert response[start..j][n..n + |CloseTag(key)|]
          == response[start + n..start + n + |CloseTag(key)|];
        assert !OccursAt(response, CloseTag(key), start + n);
      }
    }
  }

  /** `parse`: a mapping whose keys are exactly the pattern's keys, each to its extracted text. */
  function Parse(pattern: seq<(string, string)>, response: string): (r: map<string, string>)
    ensures forall key :: key in r <==> key in Keys(pattern)
    ensures forall key :: key in r ==> r[key] == Extract(response, key)
  {
    if pattern == [] then map[]
    else
      var key := pattern[|pattern| - 1].0;
      assert Keys(pattern) == Keys(pattern[..|pattern| - 1]) + [key];
      Parse(pattern[..|pattern| - 1], response)[key := Extract(response, key)]
  }

  /**
    Joining the records of a successful log with the record separator gives its output
    back, less the separators that stood at its end.
  */
  lemma ProcessRoundTrip(stdout: string)
    ensures exists n: nat ::
      stdout == Join(Process(stdout, true), RecordSeparator) + Repeat(RecordSeparator, n)
  {
    SplitRoundTrip(stdout, RecordSeparator);
  }

  /** The keyword arguments `entry.call(**attributes)` receives from a parsed record. */
  function ToAttributes(fields: map<string, string>): (r: SavedEntry.Attributes)
    requires forall k :: 0 <= k < |Pattern| ==> Pattern[k].0 in fields
    ensures r.sha == fields[Pattern[0].0] && r.authorName == fields[Pattern[1].0]
    ensures r.authorEmail == fields[Pattern[2].0]
    ensures r.authorDateRelative == fields[Pattern[3].0]
    ensures r.subject == fields[Pattern[4].0] && r.body == fields[Pattern[5].0]
    ensures r.message == fields[Pattern[6].0] && r.trailers == fields[Pattern[7].0]
  {
    PatternKeyNames();
    SavedEntry.Attributes(
      authorDateRelative := fields["author_date_relative"],
      authorEmail := fields["author_email"],
      authorName := fields["author_name"],
      body := fields["body"],
      message := fields["message"],
      sha := fields["sha"],
      subject := fields["subject"],
      trailers := fields["trailers"])
  }

  /**
    The commit one record turns into: each string member is the text between that
    member's tags, and the trailers are the lines between the trailer tags.
  */
  function ParseRecord(response: string): (r: Commit)
    ensures r.sha == Some(Extract(response, "sha"))
    ensures r.authorName == Some(Extract(response, "author_name"))
    ensures r.authorEmail == Some(Extract(response, "author_email"))
    ensures r.authorDateRelative == Some(Extract(response, "author_date_relative"))
    ensures r.subject == Some(Extract(response, "subject"))
    ensures r.body == Some(Extract(response, "body"))
    ensures r.message == Some(Extract(response, "message"))
    ensures r.trailers == Some(SavedEntry.SplitTrailers(Extract(response, "trailers")))
  {
    var fields := Parse(Pattern, response);
    PatternFields(response);
    PatternKeyNames();
    SavedEntry.Parse(ToAttributes(fields))
  }

  /** The pattern's keys, position by position. */
  lemma PatternKeyNames()
    ensures Pattern[0].0 == "sha" && Pattern[1].0 == "author_name"
    ensures Pattern[2].0 == "author_email" && Pattern[3].0 == "author_date_relative"
    ensures Pattern[4].0 == "subject" && Pattern[5].0 == "body"
    ensures Pattern[6].0 == "message" && Pattern[7].0 == "trailers"
  {
  }

  /** Every key of the pattern is bound, to the text between its tags. */
  lemma PatternFields(response: string)
    ensures var fields := Parse(Pattern, response);
      forall k :: 0 <= k < |Pattern| ==>
        Pattern[k].0 in fields && fields[Pattern[k].0] == Extract(response, Pattern[k].0)
  {
    var fields := Parse(Pattern, response);
    forall k | 0 <= k < |Pattern|
      ensures Pattern[k].0 in fields && fields[Pattern[k].0] == Extract(response, Pattern[k].0)
    {
      assert Keys(Pattern)[k] == Pattern[k].0;
    }
  }

  /**
    `call(*arguments)`: the format is appended to the arguments, the log is asked once, and
    every record becomes one commit, in record order; a failed log answers no commits.
  */
  function Call(arguments: seq<string>, log: seq<string> -> (string, bool)): (r: seq<Commit>)
    ensures var output := log(arguments + [Format(Pattern)]);
      var records := Process(output.0, output.1);
      && |r| == |records|
      && forall k :: 0 <= k < |r| ==> r[k] == ParseRecord(records[k])
  {
    var output := log(arguments + [Format(Pattern)]);
    var records := Process(output.0, output.1);
    seq(|records|, k requires 0 <= k < |records| => ParseRecord(records[k]))
  }

  // ---------------------------------------------------------------------------------------
  // The record round trip

  /** A key that cannot be confused with tag punctuation. */
  predicate WellFormedKey(key: string) {
    key != "" && '<' !in key && '>' !in key && '/' !in key
  }

  predicate WellFormedKeys(keys: seq<string>) {
    && (forall k :: 0 <= k < |keys| ==> WellFormedKey(keys[k]))
    && (forall k, m :: 0 <= k < m < |keys| ==> keys[k] != keys[m])
  }

  /** The pattern's keys are well formed and pairwise distinct. */
  lemma PatternKeysWellFormed()
    ensures WellFormedKeys(Keys(Pattern))
  {
    var keys := Keys(Pattern);
    PatternKeys();
    PatternKeyChars(keys);
    PatternKeysDistinct(keys);
  }

  /** The pattern's keys, in order. */
  lemma PatternKeys()
    ensures Keys(Pattern) == ["sha", "author_name", "author_email", "author_date_relative",
                              "subject", "body", "message", "trailers"]
  {
  }

  /** None of the pattern's keys is empty or holds tag punctuation. */
  lemma PatternKeyChars(keys: seq<string>)
    requires keys == ["sha", "author_name", "author_email", "author_date_relative",
                      "subject", "body", "message", "trailers"]
    ensures forall k :: 0 <= k < |keys| ==> WellFormedKey(keys[k])
  {
    forall k, i | 0 <= k < |keys| && 0 <= i < |keys[k]|
      ensures keys[k][i] != '<' && keys[k][i] != '>' && keys[k][i] != '/'
    {
    }
  }

  /** The pattern's keys are pairwise distinct: by length, or else by their first letter. */
  lemma PatternKeysDistinct(keys: seq<string>)
    requires keys == ["sha", "author_name", "author_email", "author_date_relative",
                      "subject", "body", "message", "trailers"]
    ensures forall k, m :: 0 <= k < m < |keys| ==> keys[k] != keys[m]
  {
    assert "subject"[0] != "message"[0];
  }

  /** `pat` occurs nowhere in `s`. */
  ghost predicate Lacks(s: string, pat: string) {
    forall j: nat :: !OccursAt(s, pat, j)
  }

  /** A tag's only '<' is its first character. */
  predicate TagShaped(tag: string) {
    tag != "" && tag[0] == '<' && forall i :: 1 <= i < |tag| ==> tag[i] != '<'
  }

  /** The tags of a key without '<' are tag shaped. */
  lemma TagsShaped(key: string)
    requires '<' !in key
    ensures TagShaped(OpenTag(key)) && TagShaped(CloseTag(key))
  {
    var open, close := OpenTag(key), CloseTag(key);
    forall i | 1 <= i < |open| ensures open[i] != '<' {
      if i <= |key| {
        assert open[i] == key[i - 1];
      }
    }
    forall i | 1 <= i < |close| ensures close[i] != '<' {
      if 2 <= i < 2 + |key| {
        assert close[i] == key[i - 2];
      }
    }
  }

  /**
    A tag that `x` lacks does not start inside `x` when a '<' follows it: a tag running past
    the end of `x` would hold that '<' after its first character.
  */
  lemma NoStraddle(x: string, y: string, tag: string)
    requires TagShaped(tag) && Lacks(x, tag) && y != "" && y[0] == '<'
    ensures forall j: nat :: j < |x| ==> !OccursAt(x + y, tag, j)
  {
    forall j: nat | j < |x| ensures !OccursAt(x + y, tag, j) {
      if j + |tag| <= |x| {
        assert (x + y)[j..j + |tag|] == x[j..j + |tag|];
        assert !OccursAt(x, tag, j);
      } else {
        assert (x + y)[|x|] == '<';
        OccursAtMismatch(x + y, tag, j, |x| - j);
      }
    }
  }

  /** The same, with any text in front of `x`. */
  lemma NoStraddleAfter(u: string, x: string, y: string, tag: string)
    requires TagShaped(tag) && Lacks(x, tag) && y != "" && y[0] == '<'
    ensures forall j: nat :: |u| <= j < |u| + |x| ==> !OccursAt(u + (x + y), tag, j)
  {
    NoStraddle(x, y, tag);
    forall j: nat | |u| <= j < |u| + |x| ensures !OccursAt(u + (x + y), tag, j) {
      OccursAtShift(u, x + y, tag, j);
    }
  }

  /** Where an opening tag occurs, its characters stand one by one. */
  lemma OpenTagAt(s: string, key: string, j: nat)
    ensures OccursAt(s, OpenTag(key), j) ==>
      && j + |key| + 2 <= |s| && s[j] == '<' && s[j + 1 + |key|] == '>'
      && forall t :: 0 <= t < |key| ==> s[j + 1 + t] == key[t]
  {
    if OccursAt(s, OpenTag(key), j) {
      var open := OpenTag(key);
      assert s[j..j + |open|] == open;
      assert forall t :: 0 <= t < |open| ==> s[j + t] == open[t];
    }
  }

  /** The characters of a tagged value around the value itself. */
  lemma TaggedChars(key: string, v: string)
    requires '<' !in key
    ensures var t := Tagged(key, v, "\n");
      var c := |key| + 2 + |v|;
      && |t| == c + |key| + 4
      && t[0] == '<' && t[1 + |key|] == '>' && (forall i :: 0 <= i < |key| ==> t[1 + i] == key[i])
      && t[c] == '<' && t[c + 1] == '/'
      && (forall j :: 0 < j < |key| + 2 ==> t[j] != '<')
      && (forall j :: c < j < |t| ==> t[j] != '<')
  {
    var t := Tagged(key, v, "\n");
    var c := |key| + 2 + |v|;
    assert t == ['<'] + key + ['>'] + v + ['<', '/'] + key + ['>', '\n'];
    forall j | 0 < j < |key| + 2 ensures t[j] != '<' {
      if j < 1 + |key| {
        assert t[j] == key[j - 1];
      }
    }
    forall j | c < j < |t| ensures t[j] != '<' {
      if c + 2 <= j < c + 2 + |key| {
        assert t[j] == key[j - c - 2];
      }
    }
  }

  /** No opening tag of another key starts inside one tagged value that lacks it. */
  lemma NoOpenTagInTagged(key: string, v: string, other: string, rest: string)
    requires WellFormedKey(key) && WellFormedKey(other) && key != other
    requires Lacks(v, OpenTag(other))
    ensures forall j: nat :: j < |Tagged(key, v, "\n")| ==>
      !OccursAt(Tagged(key, v, "\n") + rest, OpenTag(other), j)
  {
    var t := Tagged(key, v, "\n");
    var s := t + rest;
    var c := |key| + 2 + |v|;
    TaggedChars(key, v);
    NoOpenTagInValue(key, v, other, rest);
    forall j: nat | j < |t| ensures !OccursAt(s, OpenTag(other), j) {
      assert s[j] == t[j];
      if j == 0 {
        OtherKeyAtStart(s, key, other);
      } else if j == c {
        OpenTagAt(s, other, j);
        assert s[j + 1] == '/' && other[0] != '/';
      } else if j < |key| + 2 || c < j {
        OccursAtMismatch(s, OpenTag(other), j, 0);
      }
    }
  }

  /** An opening tag of another key does not stand where a key's opening tag stands. */
  lemma OtherKeyAtStart(s: string, key: string, other: string)
    requires WellFormedKey(key) && WellFormedKey(other) && key != other
    requires OccursAt(s, OpenTag(key), 0)
    ensures !OccursAt(s, OpenTag(other), 0)
  {
    OpenTagAt(s, key, 0);
    OpenTagAt(s, other, 0);
    if |other| < |key| {
      assert s[1 + |other|] == key[|other|] && key[|other|] != '>';
    } else if |other| > |key| {
      assert s[1 + |key|] == '>' && other[|key|] != '>';
    } else {
      var i :| 0 <= i < |key| && key[i] != other[i];
      assert s[1 + i] == key[i];
    }
  }

  /** No opening tag the value lacks starts inside the value of a tagged value. */
  lemma NoOpenTagInValue(key: string, v: string, other: string, rest: string)
    requires '<' !in key && '<' !in other && Lacks(v, OpenTag(other))
    ensures var open := OpenTag(key);
      forall j: nat :: |open| <= j < |open| + |v| ==>
        !OccursAt(Tagged(key, v, "\n") + rest, OpenTag(other), j)
  {
    var after := CloseTag(key) + "\n" + rest;
    TagsShaped(other);
    assert Tagged(key, v, "\n") + rest == OpenTag(key) + (v + after);
    NoStraddleAfter(OpenTag(key), v, after, OpenTag(other));
  }

  /** No opening tag of a key outside the layout starts inside a record whose values lack it. */
  lemma {:induction false} NoOpenTagInRecord(keys: seq<string>, values: seq<string>, other: string,
                                             rest: string)
    requires |keys| == |values| && WellFormedKeys(keys) && WellFormedKey(other) && other !in keys
    requires forall m :: 0 <= m < |values| ==> Lacks(values[m], OpenTag(other))
    ensures forall j: nat :: j < |Record(keys, values)| ==>
      !OccursAt(Record(keys, values) + rest, OpenTag(other), j)
    decreases |keys|
  {
    if keys != [] {
      var n := |keys| - 1;
      var head := Record(keys[..n], values[..n]);
      var t := Tagged(keys[n], values[n], "\n");
      assert Record(keys, values) + rest == head + (t + rest);
      NoOpenTagInRecord(keys[..n], values[..n], other, t + rest);
      NoOpenTagInTagged(keys[n], values[n], other, rest);
      forall j: nat | |head| <= j < |Record(keys, values)|
        ensures !OccursAt(head + (t + rest), OpenTag(other), j)
      {
        OccursAtShift(head, t + rest, OpenTag(other), j);
      }
    }
  }

  /** The record of the first `n` keys is a prefix of the whole record. */
  lemma {:induction false} RecordPrefix(keys: seq<string>, values: seq<string>, n: nat)
    requires |keys| == |values| && n <= |keys|
    ensures Record(keys[..n], values[..n]) <= Record(keys, values)
    decreases |keys|
  {
    if n < |keys| {
      var m := |keys| - 1;
      RecordPrefix(keys[..m], values[..m], n);
      assert keys[..m][..n] == keys[..n] && values[..m][..n] == values[..n];
    } else {
      assert keys[..n] == keys && values[..n] == values;
    }
  }

  /** The record of all keys starts with the record of the first `k` and the `k`th tagged value. */
  lemma RecordAround(keys: seq<string>, values: seq<string>, k: nat)
    requires |keys| == |values| && k < |keys|
    ensures Record(keys[..k], values[..k]) + Tagged(keys[k], values[k], "\n")
      <= Record(keys, values)
  {
    RecordPrefix(keys, values, k + 1);
    assert keys[..k + 1][..k] == keys[..k] && values[..k + 1][..k] == values[..k];
    assert keys[..k + 1][k] == keys[k] && values[..k + 1][k] == values[k];
  }

  /** A record of at least one key starts with the '<' of its first tag. */
  lemma RecordStartsWithTag(keys: seq<string>, values: seq<string>)
    requires |keys| == |values| && keys != []
    ensures Record(keys, values) != "" && Record(keys, values)[0] == '<'
  {
    LayoutFront(keys, values, "\n");
    assert Tagged(keys[0], values[0], "\n")[0] == '<';
  }

  /** Where the tags of a key are first found around `v`, `v` is what is extracted. */
  lemma ExtractAt(s: string, key: string, p: nat, v: string)
    requires Find(s, OpenTag(key)) == Some(p)
    requires FindFrom(s, CloseTag(key), p + |OpenTag(key)|) == Some(p + |OpenTag(key)| + |v|)
    requires p + |OpenTag(key)| + |v| <= |s| && s[p + |OpenTag(key)|..p + |OpenTag(key)| + |v|] == v
    ensures Extract(s, key) == v
  {
    var start := p + |OpenTag(key)|;
    var r := Extract(s, key);
    assert r == s[start..start + |v|];
  }

  /**
    After text lacking a key's opening tag, and a record whose earlier values lack it too,
    the key first opens in its own tagged value.
  */
  lemma OpenTagPosition(pre: string, keys: seq<string>, values: seq<string>, k: nat, rest: string)
    requires |keys| == |values| && k < |keys| && WellFormedKeys(keys)
    requires forall m :: 0 <= m < k ==> Lacks(values[m], OpenTag(keys[k]))
    requires Lacks(pre, OpenTag(keys[k]))
    ensures var a := Record(keys[..k], values[..k]);
      var s := pre + (a + (Tagged(keys[k], values[k], "\n") + rest));
      Find(s, OpenTag(keys[k])) == Some(|pre| + |a|)
  {
    var key := keys[k];
    var a := Record(keys[..k], values[..k]);
    var t := Tagged(key, values[k], "\n");
    var s := pre + (a + (t + rest));
    var p := |pre| + |a|;
    var open := OpenTag(key);
    assert s[p..p + |open|] == open;
    assert key !in keys[..k];
    TagsShaped(key);
    if k > 0 {
      RecordStartsWithTag(keys[..k], values[..k]);
    } else {
      assert t[0] == '<';
    }
    assert (a + (t + rest))[0] == '<';
    NoStraddle(pre, a + (t + rest), open);
    NoOpenTagInRecord(keys[..k], values[..k], key, t + rest);
    forall j: nat | j < p ensures !OccursAt(s, open, j) {
      if j >= |pre| {
        OccursAtShift(pre, a + (t + rest), open, j);
      }
    }
    FindAt(s, open, p);
  }

  /** Where a tagged value stands in a text: its characters, then its closing tag. */
  lemma TaggedPlacement(s: string, pre: string, a: string, key: string, v: string, rest: string)
    requires s == pre + (a + (Tagged(key, v, "\n") + rest))
    ensures var start := |pre| + |a| + |OpenTag(key)|;
      && start + |v| <= |s|
      && s[start..start + |v|] == v
      && OccursAt(s, CloseTag(key), start + |v|)
  {
    var close := CloseTag(key);
    var head := pre + a + OpenTag(key);
    assert s == head + v + (close + ("\n" + rest));
    MiddlePiece(head, v, close + ("\n" + rest));
    assert s == (head + v) + close + ("\n" + rest);
    MiddlePiece(head + v, close, "\n" + rest);
  }

  /** The middle piece of three stands where the first one ends. */
  lemma MiddlePiece(x: string, y: string, z: string)
    ensures (x + y + z)[|x|..|x| + |y|] == y
  {
  }

  /**
    After a value lacking a key's closing tag, the closing tag that follows it is the
    nearest: one starting inside the value would either lie in it or hold the '<' that
    follows it after its first character.
  */
  lemma CloseAfterValue(s: string, key: string, start: nat, v: string)
    requires '<' !in key && Lacks(v, CloseTag(key))
    requires start + |v| <= |s| && s[start..start + |v|] == v
    requires OccursAt(s, CloseTag(key), start + |v|)
    ensures FindFrom(s, CloseTag(key), start) == Some(start + |v|)
  {
    var close := CloseTag(key);
    var end := start + |v|;
    TagsShaped(key);
    assert s[end] == '<' by {
      assert s[end..end + |close|][0] == s[end];
    }
    assert forall t :: 0 <= t < |v| ==> s[start + t] == v[t] by {
      forall t | 0 <= t < |v| ensures s[start + t] == v[t] {
        assert s[start..end][t] == s[start + t];
      }
    }
    forall j: nat | start <= j < end ensures !OccursAt(s, close, j) {
      if j + |close| <= end {
        var i := j - start;
        assert s[j..j + |close|] == v[i..i + |close|];
        assert !OccursAt(v, close, i);
      } else {
        OccursAtMismatch(s, close, j, end - j);
      }
    }
    FindFromAt(s, close, start, end);
  }

  /** A value lacking its closing tag, right after the first opening tag and closed, is extracted whole. */
  lemma ExtractPlaced(s: string, key: string, p: nat, v: string)
    requires '<' !in key && Lacks(v, CloseTag(key))
    requires Find(s, OpenTag(key)) == Some(p)
    requires p + |OpenTag(key)| + |v| <= |s|
    requires s[p + |OpenTag(key)|..p + |OpenTag(key)| + |v|] == v
    requires OccursAt(s, CloseTag(key), p + |OpenTag(key)| + |v|)
    ensures Extract(s, key) == v
  {
    CloseAfterValue(s, key, p + |OpenTag(key)|, v);
    ExtractAt(s, key, p, v);
  }

  /**
    Round trip of `format` and `parse`: in the output for one commit, with text before it
    and any text after it, extracting a key gives back exactly that key's value, provided
    the text before and the earlier values hold no opening tag of that key and the value
    holds no closing tag of its own. Any other '<', such as the one in "Name <mail>", is
    read back as it stands.
  */
  lemma ExtractRecord(pre: string, keys: seq<string>, values: seq<string>, post: string, k: nat)
    requires |keys| == |values| && k < |keys| && WellFormedKeys(keys)
    requires Lacks(pre, OpenTag(keys[k]))
    requires forall m :: 0 <= m < k ==> Lacks(values[m], OpenTag(keys[k]))
    requires Lacks(values[k], CloseTag(keys[k]))
    ensures Extract(pre + Record(keys, values) + post, keys[k]) == values[k]
  {
    var a := Record(keys[..k], values[..k]);
    var t := Tagged(keys[k], values[k], "\n");
    RecordAround(keys, values, k);
    var whole := Record(keys, values);
    var tail := whole[|a + t|..] + post;
    PrefixThenRest(a + t, whole);
    var s := pre + whole + post;
    assert s == pre + (a + (t + tail));
    OpenTagPosition(pre, keys, values, k, tail);
    ExtractTagged(s, pre, a, keys[k], values[k], tail);
  }

  /** A prefix and what follows it make up the whole. */
  lemma PrefixThenRest(x: string, y: string)
    requires x <= y
    ensures y == x + y[|x|..]
  {
  }

  /** A tagged value whose opening tag is the first one in the text is what is extracted. */
  lemma ExtractTagged(s: string, pre: string, a: string, key: string, v: string, rest: string)
    requires s == pre + (a + (Tagged(key, v, "\n") + rest))
    requires Find(s, OpenTag(key)) == Some(|pre| + |a|)
    requires '<' !in key && Lacks(v, CloseTag(key))
    ensures Extract(s, key) == v
  {
    TaggedPlacement(s, pre, a, key, v, rest);
    ExtractPlaced(s, key, |pre| + |a|, v);
  }

  /**
    The whole record path: the output `git log` prints for one commit under `Format(Pattern)`
    parses back into the attributes of that commit, in the order of the pattern's keys,
    and so into the commit the saved entry parser builds from them, provided no value and
    not the text before holds the opening tag of a later key and no value holds its own
    closing tag.
  */
  lemma ParseRecordRoundTrip(pre: string, values: seq<string>, post: string)
    requires |values| == |Pattern|
    requires forall i :: 0 <= i < |Pattern| ==> Lacks(pre, OpenTag(Pattern[i].0))
    requires forall m, i :: 0 <= m < i < |Pattern| ==> Lacks(values[m], OpenTag(Pattern[i].0))
    requires forall m :: 0 <= m < |Pattern| ==> Lacks(values[m], CloseTag(Pattern[m].0))
    ensures var fields := Parse(Pattern, pre + Record(Keys(Pattern), values) + post);
      ToAttributes(fields) == SavedEntry.Attributes(
        authorDateRelative := values[3], authorEmail := values[2], authorName := values[1],
        body := values[5], message := values[6], sha := values[0], subject := values[4],
        trailers := values[7])
    ensures ParseRecord(pre + Record(Keys(Pattern), values) + post)
      == SavedEntry.Parse(SavedEntry.Attributes(
        authorDateRelative := values[3], authorEmail := values[2], authorName := values[1],
        body := values[5], message := values[6], sha := values[0], subject := values[4],
        trailers := values[7]))
  {
    var keys := Keys(Pattern);
    var response := pre + Record(keys, values) + post;
    PatternKeys();
    PatternExtracts(pre, values, post);
    assert Extract(response, keys[0]) == values[0] && Extract(response, keys[1]) == values[1];
    assert Extract(response, keys[2]) == values[2] && Extract(response, keys[3]) == values[3];
    assert Extract(response, keys[4]) == values[4] && Extract(response, keys[5]) == values[5];
    assert Extract(response, keys[6]) == values[6] && Extract(response, keys[7]) == values[7];
  }

  /** Each of the pattern's keys extracts its own value from the record. */
  lemma PatternExtracts(pre: string, values: seq<string>, post: string)
    requires |values| == |Pattern|
    requires forall i :: 0 <= i < |Pattern| ==> Lacks(pre, OpenTag(Pattern[i].0))
    requires forall m, i :: 0 <= m < i < |Pattern| ==> Lacks(values[m], OpenTag(Pattern[i].0))
    requires forall m :: 0 <= m < |Pattern| ==> Lacks(values[m], CloseTag(Pattern[m].0))
    ensures var keys := Keys(Pattern);
      forall m :: 0 <= m < |keys| ==>
        Extract(pre + Record(keys, values) + post, keys[m]) == values[m]
  {
    var keys := Keys(Pattern);
    PatternKeysWellFormed();
    forall m | 0 <= m < |keys|
      ensures Extract(pre + Record(keys, values) + post, keys[m]) == values[m]
    {
      assert keys[m] == Pattern[m].0;
      ExtractRecord(pre, keys, values, post, m);
    }
  }
}
