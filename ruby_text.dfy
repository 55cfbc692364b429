/**
  The Ruby String and Array primitives the commit parsers are built from, with the exact
  semantics Ruby gives them: `String#split` with a literal separator (trailing empty fields
  dropped, `""` split to `[]`), `Array#join`, `String#chomp`, `String#sub` with a literal
  pattern, `String#delete_prefix`, `Array#index`, `reverse.drop_while(&:empty?).reverse`
  and `reject { |line| line.start_with? "#" }`.
*/
module RubyText {
  import opened Optional

  /** `pat` occurs in `s` starting at index `i`. */
  predicate OccursAt(s: string, pat: string, i: nat) {
    i + |pat| <= |s| && s[i..i + |pat|] == pat
  }

  predicate StartsWith(s: string, prefix: string) {
    |prefix| <= |s| && s[..|prefix|] == prefix
  }

  predicate EndsWith(s: string, suffix: string) {
    |suffix| <= |s| && s[|s| - |suffix|..] == suffix
  }

  /** Ruby's regexp class `\s`: space, tab, line feed, vertical tab, form feed, carriage return. */
  predicate IsSpace(c: char) {
    c == ' ' || c == '\t' || c == '\n' || c == '\U{000B}' || c == '\U{000C}' || c == '\r'
  }

  /** A line or paragraph that `start_with? "#"`. */
  predicate IsComment(line: string) {
    StartsWith(line, "#")
  }

  /** `n` copies of `s`, concatenated. */
  function Repeat(s: string, n: nat): (r: string)
    ensures |r| == n * |s|
  {
    if n == 0 then "" else s + Repeat(s, n - 1)
  }

  // ---------------------------------------------------------------------------------------
  // Searching

  /** Leftmost occurrence of `pat` in `s` at or after `start`. */
  function FindFrom(s: string, pat: string, start: nat): (r: Option<nat>)
    ensures r.Some? ==> start <= r.value && OccursAt(s, pat, r.value)
    ensures r.Some? ==> forall j: nat :: start <= j < r.value ==> !OccursAt(s, pat, j)
    ensures r.None? ==> forall j: nat :: start <= j ==> !OccursAt(s, pat, j)
    decreases |s| - start
  {
    if start + |pat| > |s| then None
    else if s[start..start + |pat|] == pat then Some(start)
    else FindFrom(s, pat, start + 1)
  }

  /** `String#index(pat)`: the leftmost occurrence of `pat` in `s`, or nil. */
  function Find(s: string, pat: string): (r: Option<nat>)
    ensures r.Some? ==> OccursAt(s, pat, r.value)
    ensures r.Some? ==> forall j: nat :: j < r.value ==> !OccursAt(s, pat, j)
    ensures r.None? ==> forall j: nat :: !OccursAt(s, pat, j)
  {
    FindFrom(s, pat, 0)
  }

  /** `s.sub(pat, "")` with a literal string pattern: only the leftmost occurrence is removed. */
  function DeleteFirst(s: string, pat: string): (r: string)
    ensures Find(s, pat).None? ==> r == s
    ensures Find(s, pat).Some? ==>
      var i := Find(s, pat).value;
      i <= |r| && s == r[..i] + pat + r[i..]
  {
    match Find(s, pat)
    case None => s
    case Some(i) => s[..i] + s[i + |pat|..]
  }

  /** `Array#index(x)`: position of the first element equal to `x`, or nil. */
  function IndexOf(xs: seq<string>, x: string): (r: Option<nat>)
    ensures r.Some? ==> r.value < |xs| && xs[r.value] == x
    ensures r.Some? ==> forall j :: 0 <= j < r.value ==> xs[j] != x
    ensures r.None? <==> x !in xs
  {
    if xs == [] then None
    else if xs[0] == x then Some(0)
    else match IndexOf(xs[1..], x)
      case None => None
      case Some(i) => Some(i + 1)
  }

  // ---------------------------------------------------------------------------------------
  // Splitting and joining

  /**
    Every field of `s` between occurrences of `sep`, found left to right without overlap,
    empty fields included (n occurrences give n + 1 fields).
  */
  function RawSplit(s: string, sep: string): (r: seq<string>)
    requires sep != ""
    ensures |r| >= 1
    ensures forall k: nat, j: nat :: k < |r| ==> !OccursAt(r[k], sep, j)
    decreases |s|
  {
    match Find(s, sep)
    case None => [s]
    case Some(i) =>
      assert forall j: nat :: !OccursAt(s[..i], sep, j) by {
        forall j: nat | OccursAt(s[..i], sep, j) ensures false {
          assert s[..i][j..j + |sep|] == s[j..j + |sep|];
          assert OccursAt(s, sep, j) && j < i;
        }
      }
      [s[..i]] + RawSplit(s[i + |sep|..], sep)
  }

  /** `Array#join(sep)`. */
  function Join(xs: seq<string>, sep: string): string {
    if xs == [] then ""
    else if |xs| == 1 then xs[0]
    else xs[0] + sep + Join(xs[1..], sep)
  }

  /** `reverse.drop_while(&:empty?).reverse`: the trailing empty strings are dropped. */
  function DropTrailingEmpty(xs: seq<string>): (r: seq<string>)
    ensures r <= xs
    ensures forall k :: |r| <= k < |xs| ==> xs[k] == ""
    ensures r == [] || r[|r| - 1] != ""
  {
    if xs == [] || xs[|xs| - 1] != "" then xs else DropTrailingEmpty(xs[..|xs| - 1])
  }

  /** `String#split(sep)` with a literal, non-blank separator. */
  function Split(s: string, sep: string): (r: seq<string>)
    requires sep != ""
    ensures s == "" ==> r == []
    ensures forall k: nat, j: nat :: k < |r| ==> !OccursAt(r[k], sep, j)
    ensures r == [] || r[|r| - 1] != ""
  {
    DropTrailingEmpty(RawSplit(s, sep))
  }

  /** `String#chomp` with Ruby's default separator: one trailing "\r\n", "\n" or "\r". */
  function Chomp(s: string): (r: string)
    ensures r <= s
    ensures EndsWith(s, "\r\n") ==> |r| == |s| - 2
    ensures !EndsWith(s, "\r\n") && (EndsWith(s, "\n") || EndsWith(s, "\r")) ==> |r| == |s| - 1
    ensures !EndsWith(s, "\n") && !EndsWith(s, "\r") ==> r == s
  {
    if EndsWith(s, "\r\n") then s[..|s| - 2]
    else if EndsWith(s, "\n") || EndsWith(s, "\r") then s[..|s| - 1]
    else s
  }

  /** `String#delete_prefix(prefix)`. */
  function DeletePrefix(s: string, prefix: string): (r: string)
    ensures StartsWith(s, prefix) ==> prefix + r == s
    ensures !StartsWith(s, prefix) ==> r == s
  {
    if StartsWith(s, prefix) then s[|prefix|..] else s
  }

  /** `reject { |line| line.start_with? "#" }`: keeps, in order, what is not a comment. */
  function RejectComments(xs: seq<string>): (r: seq<string>)
    ensures |r| <= |xs|
    ensures forall x :: x in r <==> x in xs && !IsComment(x)
  {
    if xs == [] then []
    else if IsComment(xs[0]) then RejectComments(xs[1..])
    else [xs[0]] + RejectComments(xs[1..])
  }

  /** Rejecting comments keeps only pieces that were there, so none holds the separator. */
  lemma RejectKeepsNoSeparator(xs: seq<string>)
    requires forall k :: 0 <= k < |xs| ==> forall j: nat :: !OccursAt(xs[k], "\n\n", j)
    ensures var r := RejectComments(xs);
      forall k :: 0 <= k < |r| ==> forall j: nat :: !OccursAt(r[k], "\n\n", j)
  {
    var r := RejectComments(xs);
    forall k | 0 <= k < |r| ensures forall j: nat :: !OccursAt(r[k], "\n\n", j) {
      assert r[k] in xs;
    }
  }

  /** `map(&:chomp)`. */
  function ChompAll(xs: seq<string>): (r: seq<string>)
    ensures |r| == |xs| && forall k :: 0 <= k < |xs| ==> r[k] == Chomp(xs[k])
  {
    seq(|xs|, k requires 0 <= k < |xs| => Chomp(xs[k]))
  }

  /** `map { |line| line.delete_prefix "\n" }`. */
  function DeleteNewlinePrefixAll(xs: seq<string>): (r: seq<string>)
    ensures |r| == |xs| && forall k :: 0 <= k < |xs| ==> r[k] == DeletePrefix(xs[k], "\n")
  {
    seq(|xs|, k requires 0 <= k < |xs| => DeletePrefix(xs[k], "\n"))
  }

  /** The string without all of its trailing newlines. */
  function TrimNewlines(s: string): (r: string)
    ensures r <= s && (r == "" || r[|r| - 1] != '\n')
    ensures forall k :: |r| <= k < |s| ==> s[k] == '\n'
  {
    if s != "" && s[|s| - 1] == '\n' then TrimNewlines(s[..|s| - 1]) else s
  }

  // ---------------------------------------------------------------------------------------
  // Lemmas

  lemma {:induction false} RepeatSnoc(s: string, n: nat)
    ensures Repeat(s, n) + s == Repeat(s, n + 1)
  {
    if n > 0 {
      RepeatSnoc(s, n - 1);
      assert Repeat(s, n) + s == s + (Repeat(s, n - 1) + s);
    }
  }

  lemma {:induction false} JoinSnoc(ys: seq<string>, x: string, sep: string)
    requires ys != []
    ensures Join(ys + [x], sep) == Join(ys, sep) + sep + x
  {
    if |ys| > 1 {
      assert (ys + [x])[1..] == ys[1..] + [x];
      JoinSnoc(ys[1..], x, sep);
    }
  }

  /** Joining the raw fields with the separator gives back the original string. */
  lemma {:induction false} JoinRawSplit(s: string, sep: string)
    requires sep != ""
    ensures Join(RawSplit(s, sep), sep) == s
    decreases |s|
  {
    match Find(s, sep)
    case None =>
    case Some(i) =>
      var head, rest := s[..i], s[i + |sep|..];
      var fields := RawSplit(rest, sep);
      JoinRawSplit(rest, sep);
      assert RawSplit(s, sep) == [head] + fields;
      JoinCons(head, fields, sep);
      assert s[i..i + |sep|] == sep;
      ThreeSlices(s, i, i + |sep|);
  }

  /** Joining a first string before non-empty others puts one separator after it. */
  lemma JoinCons(x: string, xs: seq<string>, sep: string)
    requires xs != []
    ensures Join([x] + xs, sep) == x + sep + Join(xs, sep)
  {
    assert ([x] + xs)[1..] == xs;
  }

  /** A string is its three slices around two positions. */
  lemma ThreeSlices(s: string, i: nat, j: nat)
    requires i <= j <= |s|
    ensures s == s[..i] + s[i..j] + s[j..]
  {
  }

  /** Dropping trailing empty fields only removes separators from the end of the join. */
  lemma {:induction false} JoinDropTrailing(xs: seq<string>, sep: string)
    ensures exists n: nat :: Join(xs, sep) == Join(DropTrailingEmpty(xs), sep) + Repeat(sep, n)
    decreases |xs|
  {
    if xs == [] || xs[|xs| - 1] != "" {
      assert Join(xs, sep) == Join(DropTrailingEmpty(xs), sep) + Repeat(sep, 0);
    } else {
      var ys := xs[..|xs| - 1];
      assert xs == ys + [""];
      if ys == [] {
        assert Join(xs, sep) == Join(DropTrailingEmpty(xs), sep) + Repeat(sep, 0);
      } else {
        JoinDropTrailing(ys, sep);
        var n: nat :| Join(ys, sep) == Join(DropTrailingEmpty(ys), sep) + Repeat(sep, n);
        JoinSnoc(ys, "", sep);
        RepeatSnoc(sep, n);
        assert Join(xs, sep) == Join(DropTrailingEmpty(xs), sep) + Repeat(sep, n + 1);
      }
    }
  }

  /** `s.split(sep).join(sep)` is `s` less some separators at its end. */
  lemma SplitRoundTrip(s: string, sep: string)
    requires sep != ""
    ensures exists n: nat :: s == Join(Split(s, sep), sep) + Repeat(sep, n)
  {
    JoinRawSplit(s, sep);
    JoinDropTrailing(RawSplit(s, sep), sep);
  }

  lemma {:induction false} TrimNewlinesAppend(t: string, n: nat)
    requires t == "" || t[|t| - 1] != '\n'
    ensures TrimNewlines(t + Repeat("\n", n)) == t
  {
    if n == 0 {
      assert t + Repeat("\n", 0) == t;
    } else {
      var u := t + Repeat("\n", n - 1);
      RepeatSnoc("\n", n - 1);
      assert t + Repeat("\n", n) == u + "\n";
      var v := u + "\n";
      assert v[|v| - 1] == '\n' && v[..|v| - 1] == u;
      TrimNewlinesAppend(t, n - 1);
    }
  }

  /** The lines of `s`, joined again, are `s` without its trailing newlines. */
  lemma JoinSplitLines(s: string)
    ensures Join(Split(s, "\n"), "\n") == TrimNewlines(s)
  {
    var lines := Split(s, "\n");
    SplitRoundTrip(s, "\n");
    var n: nat :| s == Join(lines, "\n") + Repeat("\n", n);
    var t := Join(lines, "\n");
    if lines != [] {
      var last := lines[|lines| - 1];
      if |lines| > 1 {
        assert lines == lines[..|lines| - 1] + [last];
        JoinSnoc(lines[..|lines| - 1], last, "\n");
      }
      assert EndsWith(t, last);
      assert !OccursAt(last, "\n", |last| - 1);
      assert last[|last| - 1] == t[|t| - 1];
    }
    TrimNewlinesAppend(t, n);
  }

  /** With a one-character separator, splitting a join of separator-free fields is exact. */
  lemma {:induction false} RawSplitJoin(xs: seq<string>, sep: string)
    requires |sep| == 1 && xs != []
    requires forall k: nat, j: nat :: k < |xs| ==> !OccursAt(xs[k], sep, j)
    ensures RawSplit(Join(xs, sep), sep) == xs
  {
    var s := Join(xs, sep);
    if |xs| == 1 {
      assert s == xs[0];
      assert forall j: nat :: !OccursAt(s, sep, j);
    } else {
      var head := xs[0];
      var tail := Join(xs[1..], sep);
      assert s == head + sep + tail;
      assert OccursAt(s, sep, |head|) by { assert s[|head|..|head| + 1] == sep; }
      forall j: nat | j < |head| ensures !OccursAt(s, sep, j) {
        assert !OccursAt(head, sep, j);
        assert s[j..j + 1] == head[j..j + 1];
      }
      assert Find(s, sep) == Some(|head|);
      assert s[..|head|] == head && s[|head| + 1..] == tail;
      RawSplitJoin(xs[1..], sep);
      assert xs == [head] + xs[1..];
    }
  }

  /** Joining two non-empty lists is joining each and putting one separator between. */
  lemma {:induction false} JoinAppend(xs: seq<string>, ys: seq<string>, sep: string)
    requires xs != [] && ys != []
    ensures Join(xs + ys, sep) == Join(xs, sep) + sep + Join(ys, sep)
    decreases |xs|
  {
    assert (xs + ys)[1..] == xs[1..] + ys;
    if |xs| > 1 {
      JoinAppend(xs[1..], ys, sep);
    }
  }

  /**
    Lines without newlines come back from `split("\n")` as they were joined, less the empty
    ones at the end, whether or not the text ends with one more newline.
  */
  lemma SplitJoinLines(xs: seq<string>)
    requires xs != []
    requires forall k :: 0 <= k < |xs| ==> '\n' !in xs[k]
    ensures Split(Join(xs, "\n"), "\n") == DropTrailingEmpty(xs)
    ensures Split(Join(xs, "\n") + "\n", "\n") == DropTrailingEmpty(xs)
  {
    NewlineFreeFields(xs);
    RawSplitJoin(xs, "\n");
    RawSplitTerminated(xs);
    DropTrailingEmptySnoc(xs);
  }

  /** One more empty string at the end changes nothing once trailing ones are dropped. */
  lemma DropTrailingEmptySnoc(xs: seq<string>)
    ensures DropTrailingEmpty(xs + [""]) == DropTrailingEmpty(xs)
  {
    assert (xs + [""])[..|xs|] == xs;
  }

  /** Strings without a newline hold no occurrence of "\n". */
  lemma NewlineFreeFields(xs: seq<string>)
    requires forall k :: 0 <= k < |xs| ==> '\n' !in xs[k]
    ensures forall k: nat, j: nat :: k < |xs| ==> !OccursAt(xs[k], "\n", j)
  {
    forall k: nat, j: nat | k < |xs| ensures !OccursAt(xs[k], "\n", j) {
      OccursAtChar(xs[k], '\n', j);
      if j < |xs[k]| {
        assert xs[k][j] in xs[k];
      }
    }
  }

  /** An empty field after fields without a newline keeps them all free of one. */
  lemma EmptyFieldAppended(xs: seq<string>)
    requires forall k: nat, j: nat :: k < |xs| ==> !OccursAt(xs[k], "\n", j)
    ensures forall k: nat, j: nat :: k < |xs + [""]| ==> !OccursAt((xs + [""])[k], "\n", j)
  {
    var ys := xs + [""];
    forall k: nat, j: nat | k < |ys| ensures !OccursAt(ys[k], "\n", j) {
      if k < |xs| {
        assert ys[k] == xs[k];
      } else {
        assert ys[k] == "";
      }
    }
  }

  /** A final newline after the joined fields adds one empty field. */
  lemma RawSplitTerminated(xs: seq<string>)
    requires xs != []
    requires forall k: nat, j: nat :: k < |xs| ==> !OccursAt(xs[k], "\n", j)
    ensures RawSplit(Join(xs, "\n") + "\n", "\n") == xs + [""]
  {
    var ys := xs + [""];
    EmptyFieldAppended(xs);
    RawSplitJoin(ys, "\n");
    JoinSnoc(xs, "", "\n");
    assert Join(xs, "\n") + "\n" + "" == Join(xs, "\n") + "\n";
  }

  /**
    A field that `split("\n\n")` leaves whole: no blank-line separator inside it and no
    newline at its end, so that none straddles its end either.
  */
  ghost predicate ParagraphField(x: string) {
    && (forall j: nat :: !OccursAt(x, "\n\n", j))
    && (x == "" || x[|x| - 1] != '\n')
  }

  /** A line without newlines, alone or after one newline, is such a field. */
  lemma LineIsParagraphField(x: string)
    requires '\n' !in x
    ensures ParagraphField(x)
    ensures x != "" ==> ParagraphField("\n" + x)
  {
    forall j: nat ensures !OccursAt(x, "\n\n", j) {
      if j < |x| {
        assert x[j] in x;
        OccursAtMismatch(x, "\n\n", j, 0);
      }
    }
    if x != "" {
      var y := "\n" + x;
      assert y[|y| - 1] == x[|x| - 1] && x[|x| - 1] in x;
      forall j: nat ensures !OccursAt(y, "\n\n", j) {
        if j + 1 < |y| {
          assert y[j + 1] == x[j] && x[j] in x;
          OccursAtMismatch(y, "\n\n", j, 1);
        }
      }
    }
  }

  /** A paragraph field is cut off the front of a blank-line split as it stands. */
  lemma RawSplitParagraph(a: string, b: string)
    requires ParagraphField(a)
    ensures RawSplit(a + "\n\n" + b, "\n\n") == [a] + RawSplit(b, "\n\n")
  {
    var s := a + "\n\n" + b;
    forall j: nat | j < |a| ensures !OccursAt(s, "\n\n", j) {
      if j + 2 <= |a| {
        assert s[j..j + 2] == a[j..j + 2];
        assert !OccursAt(a, "\n\n", j);
      } else {
        assert s[j] == a[|a| - 1];
        OccursAtMismatch(s, "\n\n", j, 0);
      }
    }
    RawSplitCons(a, "\n\n", b);
  }

  /** Splitting paragraph fields joined by blank-line separators gives them back. */
  lemma {:induction false} RawSplitJoinParagraphs(xs: seq<string>)
    requires xs != []
    requires forall k :: 0 <= k < |xs| ==> ParagraphField(xs[k])
    ensures RawSplit(Join(xs, "\n\n"), "\n\n") == xs
  {
    if |xs| == 1 {
      assert Join(xs, "\n\n") == xs[0];
      assert ParagraphField(xs[0]);
      assert forall j: nat :: !OccursAt(xs[0], "\n\n", j);
    } else {
      assert ParagraphField(xs[0]);
      RawSplitParagraph(xs[0], Join(xs[1..], "\n\n"));
      RawSplitJoinParagraphs(xs[1..]);
      assert xs == [xs[0]] + xs[1..];
    }
  }

  /** What never occurs in a string never occurs in a prefix of it. */
  lemma NoOccurrenceInPrefix(x: string, y: string, pat: string)
    requires x <= y
    requires forall j: nat :: !OccursAt(y, pat, j)
    ensures forall j: nat :: !OccursAt(x, pat, j)
  {
    forall j: nat ensures !OccursAt(x, pat, j) {
      if j + |pat| <= |x| {
        assert x[j..j + |pat|] == y[j..j + |pat|];
        assert !OccursAt(y, pat, j);
      }
    }
  }

  /** What never occurs in a string never occurs in a suffix of it. */
  lemma NoOccurrenceInSuffix(x: string, y: string, pat: string)
    requires |x| <= |y| && x == y[|y| - |x|..]
    requires forall j: nat :: !OccursAt(y, pat, j)
    ensures forall j: nat :: !OccursAt(x, pat, j)
  {
    var d := |y| - |x|;
    forall j: nat ensures !OccursAt(x, pat, j) {
      if j + |pat| <= |x| {
        assert x[j..j + |pat|] == y[d + j..d + j + |pat|];
        assert !OccursAt(y, pat, d + j);
      }
    }
  }

  /** A one-character pattern occurs exactly where that character stands. */
  lemma OccursAtChar(s: string, c: char, i: nat)
    ensures OccursAt(s, [c], i) <==> i < |s| && s[i] == c
  {
    if i < |s| {
      assert s[i..i + 1] == [s[i]];
    }
  }

  /** A two-character pattern occurs exactly where those two characters stand. */
  lemma OccursAtPair(s: string, c: char, d: char, i: nat)
    ensures OccursAt(s, [c, d], i) <==> i + 1 < |s| && s[i] == c && s[i + 1] == d
  {
    if i + 1 < |s| {
      assert s[i..i + 2] == [s[i], s[i + 1]];
    }
  }

  /** A pattern does not occur where one of its characters differs from the text. */
  lemma OccursAtMismatch(s: string, pat: string, i: nat, m: nat)
    requires m < |pat| && i + m < |s| && s[i + m] != pat[m]
    ensures !OccursAt(s, pat, i)
  {
    if i + |pat| <= |s| {
      assert s[i..i + |pat|][m] == s[i + m];
    }
  }

  /** A pattern occurs in `a + b` past `a` exactly where it occurs in `b`, shifted. */
  lemma OccursAtShift(a: string, b: string, pat: string, j: nat)
    requires j >= |a|
    ensures OccursAt(a + b, pat, j) <==> OccursAt(b, pat, j - |a|)
  {
    if j + |pat| <= |a + b| {
      assert (a + b)[j..j + |pat|] == b[j - |a|..j - |a| + |pat|];
    }
  }

  /** No occurrence of a pattern starts inside a text that lacks the pattern's first character. */
  lemma NoOccurrenceBefore(a: string, pat: string, rest: string)
    requires pat != "" && pat[0] !in a
    ensures forall j: nat :: j < |a| ==> !OccursAt(a + rest, pat, j)
  {
    forall j: nat | j < |a| ensures !OccursAt(a + rest, pat, j) {
      assert (a + rest)[j] == a[j];
      OccursAtMismatch(a + rest, pat, j, 0);
    }
  }

  /** A field with no separator starting in it, then the separator, splits off first. */
  lemma RawSplitCons(a: string, sep: string, b: string)
    requires sep != ""
    requires forall j: nat :: j < |a| ==> !OccursAt(a + sep + b, sep, j)
    ensures RawSplit(a + sep + b, sep) == [a] + RawSplit(b, sep)
  {
    var s := a + sep + b;
    assert s[|a|..|a| + |sep|] == sep;
    assert OccursAt(s, sep, |a|);
    assert forall j: nat :: j < |a| ==> !OccursAt(s, sep, j);
    match Find(s, sep) {
      case None =>
      case Some(i) => assert i == |a|;
    }
    assert s[..|a|] == a && s[|a| + |sep|..] == b;
  }

  /** A text without the separator's first character is one field. */
  lemma RawSplitSingle(a: string, sep: string)
    requires sep != "" && sep[0] !in a
    ensures RawSplit(a, sep) == [a]
  {
    NoOccurrenceBefore(a, sep, "");
    assert a + "" == a;
    assert Find(a, sep) == None;
  }

  /** A leading field without the separator's first character is cut off as it stands. */
  lemma RawSplitField(a: string, sep: string, b: string)
    requires sep != "" && sep[0] !in a
    ensures RawSplit(a + sep + b, sep) == [a] + RawSplit(b, sep)
  {
    NoOccurrenceBefore(a, sep, sep + b);
    assert a + sep + b == a + (sep + b);
    RawSplitCons(a, sep, b);
  }

  /** A pattern found at `p` and nowhere before is what `Find` answers. */
  lemma FindAt(s: string, pat: string, p: nat)
    requires OccursAt(s, pat, p) && forall j: nat :: j < p ==> !OccursAt(s, pat, j)
    ensures Find(s, pat) == Some(p)
  {
  }

  /** A pattern found at `p` and nowhere between `start` and `p` is what `FindFrom` answers. */
  lemma FindFromAt(s: string, pat: string, start: nat, p: nat)
    requires start <= p && OccursAt(s, pat, p)
    requires forall j: nat :: start <= j < p ==> !OccursAt(s, pat, j)
    ensures FindFrom(s, pat, start) == Some(p)
  {
  }

  /** A string in which the one-character string `[c]` never occurs does not hold `c`. */
  lemma NoCharOccurrence(x: string, c: char)
    requires forall j: nat :: !OccursAt(x, [c], j)
    ensures c !in x
  {
    forall j | 0 <= j < |x| ensures x[j] != c {
      assert x[j..j + 1] == [x[j]];
      assert !OccursAt(x, [c], j);
    }
  }

  /** Dropping trailing empty strings takes off a tail of empty strings, and no more. */
  lemma {:induction false} DropEmptyTail(xs: seq<string>, ys: seq<string>)
    requires xs == [] || xs[|xs| - 1] != ""
    requires forall k :: 0 <= k < |ys| ==> ys[k] == ""
    ensures DropTrailingEmpty(xs + ys) == xs
    decreases |ys|
  {
    if ys == [] {
      assert xs + ys == xs;
    } else {
      assert (xs + ys)[..|xs + ys| - 1] == xs + ys[..|ys| - 1];
      DropEmptyTail(xs, ys[..|ys| - 1]);
    }
  }

  /** `reject` keeps a list without comments whole. */
  lemma {:induction false} KeepNonComments(xs: seq<string>)
    requires forall k :: 0 <= k < |xs| ==> !IsComment(xs[k])
    ensures RejectComments(xs) == xs
  {
    if xs != [] {
      KeepNonComments(xs[1..]);
    }
  }

  /** `reject` drops a list of comments altogether. */
  lemma {:induction false} DropComments(xs: seq<string>)
    requires forall k :: 0 <= k < |xs| ==> IsComment(xs[k])
    ensures RejectComments(xs) == []
  {
    if xs != [] {
      DropComments(xs[1..]);
    }
  }

  /** `reject` works on the two parts of a list separately. */
  lemma {:induction false} RejectCommentsAppend(a: seq<string>, b: seq<string>)
    ensures RejectComments(a + b) == RejectComments(a) + RejectComments(b)
  {
    if a == [] {
      assert a + b == b;
    } else {
      assert (a + b)[0] == a[0] && (a + b)[1..] == a[1..] + b;
      RejectCommentsAppend(a[1..], b);
    }
  }

  /** Strings that end in neither '\n' nor '\r' are all kept whole by `chomp`. */
  lemma UnterminatedChomped(xs: seq<string>)
    requires forall k :: 0 <= k < |xs| ==>
      xs[k] == "" || (xs[k][|xs[k]| - 1] != '\n' && xs[k][|xs[k]| - 1] != '\r')
    ensures ChompAll(xs) == xs
  {
    forall k | 0 <= k < |xs| ensures Chomp(xs[k]) == xs[k] {
      var x := xs[k];
      if x != "" {
        assert x[|x| - 1..] == [x[|x| - 1]];
        assert !EndsWith(x, "\n") && !EndsWith(x, "\r");
      }
    }
  }

  /** `chomp` takes one newline off text that does not end in a carriage return. */
  lemma ChompNewline(t: string)
    requires t == "" || t[|t| - 1] != '\r'
    ensures Chomp(t + "\n") == t
  {
    NewlineEnding(t);
    var s := t + "\n";
    assert s[..|s| - 1] == t;
  }

  /**
    Text that is empty or does not end in a carriage return, with a newline added, ends in
    "\n" but not in "\r\n".
  */
  lemma NewlineEnding(t: string)
    requires t == "" || t[|t| - 1] != '\r'
    ensures EndsWith(t + "\n", "\n") && !EndsWith(t + "\n", "\r\n")
  {
    var s := t + "\n";
    assert s[|s| - 1..] == [s[|s| - 1]];
    if |s| >= 2 {
      assert s[|s| - 2..][0] == s[|s| - 2] == t[|t| - 1];
    }
  }

  /**
    A paragraph that the blank-line pipeline hands back as it stands: a field `split("\n\n")`
    keeps whole, with no newline at its start for `delete_prefix` to take and no carriage
    return at its end for `chomp` to take.
  */
  ghost predicate PlainParagraph(x: string) {
    ParagraphField(x) && !StartsWith(x, "\n") && (x == "" || x[|x| - 1] != '\r')
  }

  /** Paragraph fields joined by blank-line separators, the last one not empty, split back. */
  lemma SplitJoinParagraphs(xs: seq<string>)
    requires xs != [] && xs[|xs| - 1] != ""
    requires forall k :: 0 <= k < |xs| ==> ParagraphField(xs[k])
    ensures Split(Join(xs, "\n\n"), "\n\n") == xs
  {
    RawSplitJoinParagraphs(xs);
  }

  /** A non-empty paragraph field that does not start with a newline is one after a newline too. */
  lemma NewlineParagraphField(x: string)
    requires ParagraphField(x) && x != "" && !StartsWith(x, "\n")
    ensures ParagraphField("\n" + x)
  {
    var y := "\n" + x;
    assert y[|y| - 1] == x[|x| - 1];
    assert x[..1] == [x[0]];
    forall j: nat ensures !OccursAt(y, "\n\n", j) {
      if j == 0 {
        OccursAtMismatch(y, "\n\n", 0, 1);
      } else {
        OccursAtShift("\n", x, "\n\n", j);
      }
    }
  }

  /** Plain paragraphs are all kept whole by `chomp`. */
  lemma PlainParagraphsChomped(xs: seq<string>)
    requires forall k :: 0 <= k < |xs| ==> PlainParagraph(xs[k])
    ensures ChompAll(xs) == xs
  {
    UnterminatedChomped(xs);
  }

  /** A join whose last piece is not empty ends in that piece's last character. */
  lemma {:induction false} JoinLast(xs: seq<string>, sep: string)
    requires xs != [] && xs[|xs| - 1] != ""
    ensures var j := Join(xs, sep); var x := xs[|xs| - 1]; j != "" && j[|j| - 1] == x[|x| - 1]
  {
    if |xs| > 1 {
      JoinLast(xs[1..], sep);
    }
  }
}
