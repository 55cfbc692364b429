/**
  The `String` refinements used on commit subjects: `pluralize` and the autosquash prefix
  tests `amend?`, `fixup?`, `squash?` and `prefix?`.
*/
module Strings {
  import opened Optional
  import opened RubyText

  // ---------------------------------------------------------------------------------------
  // Integer#to_s, needed by the interpolation "#{count}"

  function DigitChar(d: nat): (c: char)
    requires d < 10
    ensures '0' <= c <= '9' && c as int - '0' as int == d
  {
    "0123456789"[d]
  }

  predicate IsDigits(s: string) {
    forall k :: 0 <= k < |s| ==> '0' <= s[k] <= '9'
  }

  /** Decimal digits of `n`, most significant first, with no leading zero. */
  function NatToString(n: nat): (r: string)
    ensures |r| >= 1 && IsDigits(r)
    ensures r[0] == '0' ==> n == 0
  {
    if n < 10 then [DigitChar(n)] else NatToString(n / 10) + [DigitChar(n % 10)]
  }

  /** The number a string of decimal digits denotes. */
  function DecimalValue(s: string): nat
    requires IsDigits(s)
  {
    if s == [] then 0 else 10 * DecimalValue(s[..|s| - 1]) + (s[|s| - 1] as int - '0' as int)
  }

  /** `Integer#to_s`: a minus sign for negative numbers, then the decimal digits. */
  function IntToString(i: int): (r: string)
    ensures |r| >= 1
    ensures i >= 0 ==> IsDigits(r) && DecimalValue(r) == i
    ensures i < 0 ==> r[0] == '-' && IsDigits(r[1..]) && DecimalValue(r[1..]) == -i
    ensures i >= 0 && r[0] == '0' ==> i == 0
    ensures i < 0 ==> |r| >= 2 && r[1] != '0'
  {
    NatToStringRoundTrip(if i < 0 then -i else i);
    if i < 0 then "-" + NatToString(-i) else NatToString(i)
  }

  lemma {:induction false} NatToStringRoundTrip(n: nat)
    ensures DecimalValue(NatToString(n)) == n
  {
    if n >= 10 {
      NatToStringRoundTrip(n / 10);
      var s := NatToString(n);
      assert s[..|s| - 1] == NatToString(n / 10);
    }
  }

  // ---------------------------------------------------------------------------------------
  // pluralize

  /** `word.pluralize(count:, suffix:)`: "1 issue", "0 issues", "2 branches". */
  function Pluralize(word: string, count: int, suffix: string := "s"): (r: string)
    ensures count == 1 ==> r == "1 " + word
    ensures count != 1 ==> r == IntToString(count) + " " + word + suffix
  {
    if count == 1 then IntToString(count) + " " + word
    else IntToString(count) + " " + word + suffix
  }

  /**
    The text of a pluralized count reads back: up to the first space it is the count in
    decimal, and after it comes the word, with the suffix exactly when the count is not 1.
  */
  lemma PluralizeReadsBack(word: string, count: nat, suffix: string)
    ensures var r := Pluralize(word, count, suffix);
      var i := |IntToString(count)|;
      && Find(r, " ") == Some(i)
      && IsDigits(r[..i]) && DecimalValue(r[..i]) == count
      && r[i + 1..] == word + (if count == 1 then "" else suffix)
  {
    var digits := IntToString(count);
    var rest := word + (if count == 1 then "" else suffix);
    PluralizeParts(word, count, suffix);
    DigitsThenSpace(digits, rest);
  }

  /** A pluralized count is its digits, a space, and the word with or without the suffix. */
  lemma PluralizeParts(word: string, count: nat, suffix: string)
    ensures Pluralize(word, count, suffix)
      == IntToString(count) + " " + (word + (if count == 1 then "" else suffix))
  {
    if count == 1 {
      assert word + "" == word;
    }
  }

  /** In digits, a space and a rest, the first space is the one after the digits. */
  lemma DigitsThenSpace(digits: string, rest: string)
    requires IsDigits(digits)
    ensures var r := digits + " " + rest;
      && Find(r, " ") == Some(|digits|)
      && r[..|digits|] == digits && r[|digits| + 1..] == rest
  {
    var r := digits + " " + rest;
    var i := |digits|;
    assert r[i..i + 1] == " ";
    forall j: nat | j < i ensures !OccursAt(r, " ", j) {
      assert r[j] == digits[j] && '0' <= digits[j] <= '9';
      assert r[j..j + 1][0] == r[j];
    }
    FindAt(r, " ", i);
  }

  // ---------------------------------------------------------------------------------------
  // Autosquash prefixes

  /** `match?(/\A<marker>\s/)`: the string opens with `marker` and then one whitespace. */
  predicate HasMarker(s: string, marker: string) {
    |s| > |marker| && s[..|marker|] == marker && IsSpace(s[|marker|])
  }

  /** `amend?` */
  predicate IsAmend(s: string) {
    HasMarker(s, "amend!")
  }

  /** `fixup?` */
  predicate IsFixup(s: string) {
    HasMarker(s, "fixup!")
  }

  /** `squash?` */
  predicate IsSquash(s: string) {
    HasMarker(s, "squash!")
  }

  /** `prefix?` */
  predicate IsPrefix(s: string) {
    IsAmend(s) || IsFixup(s) || IsSquash(s)
  }

  /** A subject carries at most one of the three autosquash prefixes. */
  lemma PrefixesExclusive(s: string)
    ensures !(IsAmend(s) && IsFixup(s)) && !(IsAmend(s) && IsSquash(s)) && !(IsFixup(s) && IsSquash(s))
  {
    if IsAmend(s) { assert s[0] == 'a'; }
    if IsFixup(s) { assert s[0] == 'f'; }
  }

  /**
    The tests are anchored at the start and look at no more than the marker and one
    character after it, so whatever follows the first eight characters changes nothing.
  */
  lemma MarkersReadHead(s: string, t: string)
    requires |s| >= 8
    ensures IsAmend(s + t) == IsAmend(s) && IsFixup(s + t) == IsFixup(s)
    ensures IsSquash(s + t) == IsSquash(s) && IsPrefix(s + t) == IsPrefix(s)
  {
    MarkerHead(s, t, "amend!");
    MarkerHead(s, t, "fixup!");
    MarkerHead(s, t, "squash!");
  }

  /** A marker test on a string with more than the marker reads the same on any extension. */
  lemma MarkerHead(s: string, t: string, marker: string)
    requires |s| > |marker|
    ensures HasMarker(s + t, marker) == HasMarker(s, marker)
  {
    assert (s + t)[..|marker|] == s[..|marker|];
    assert (s + t)[|marker|] == s[|marker|];
  }

  /** A marker is recognised only at the very start and only with whitespace right after it. */
  lemma MarkerNeedsStartAndSpace(s: string, marker: string)
    requires marker != ""
    ensures HasMarker(marker + s, marker) <==> s != "" && IsSpace(s[0])
    ensures HasMarker(" " + marker + s, marker) ==> marker[0] == ' '
  {
    assert (marker + s)[..|marker|] == marker;
    if HasMarker(" " + marker + s, marker) {
      assert (" " + marker + s)[0] == ' ';
    }
  }

  /** The counts the refinement's tests pluralize. */
  lemma PluralizeExamples()
    ensures Pluralize("issue", 0) == "0 issues" && Pluralize("issue", 2) == "2 issues"
    ensures Pluralize("issue", 1) == "1 issue"
    ensures Pluralize("branch", 0, "es") == "0 branches" && Pluralize("branch", 2, "es") == "2 branches"
    ensures Pluralize("branch", 1) == "1 branch"
  {
    PluralizeZeroAndTwo("issue", "s");
    assert "0 " + "issue" + "s" == "0 issues" && "2 " + "issue" + "s" == "2 issues";
    PluralizeZeroAndTwo("branch", "es");
    assert "0 " + "branch" + "es" == "0 branches" && "2 " + "branch" + "es" == "2 branches";
  }

  /** Zero and two take the suffix after the digit and a space. */
  lemma PluralizeZeroAndTwo(word: string, suffix: string)
    ensures Pluralize(word, 0, suffix) == "0 " + word + suffix
    ensures Pluralize(word, 2, suffix) == "2 " + word + suffix
  {
    assert IntToString(0) == "0" && IntToString(2) == "2";
  }

  /** The subjects the refinement's tests classify as `amend?`. */
  lemma AmendExamples()
    ensures IsAmend("amend! Added test file.") && !IsAmend("Added test file.")
    ensures !IsAmend("amend!Added test file.") && !IsAmend(" amend! Added test file.")
  {
  }

  /** The subjects the refinement's tests classify as `fixup?`. */
  lemma FixupExamples()
    ensures IsFixup("fixup! Added test file.") && !IsFixup("Added test file.")
    ensures !IsFixup("fixup!Added test file.") && !IsFixup(" fixup! Added test file.")
  {
  }

  /** The subjects the refinement's tests classify as `squash?`. */
  lemma SquashExamples()
    ensures IsSquash("squash! Added test file.") && !IsSquash("Added test file.")
    ensures !IsSquash("squash!Added test file.") && !IsSquash(" squash! Added test file.")
  {
  }

  /** The subjects the refinement's tests classify as `prefix?`. */
  lemma PrefixExamples()
    ensures IsPrefix("amend! Added test file") && IsPrefix("fixup! Added test file")
    ensures IsPrefix("squash! Added test file") && !IsPrefix("Added test file")
  {
    assert IsAmend("amend! Added test file") && IsFixup("fixup! Added test file");
    assert IsSquash("squash! Added test file");
    var plain := "Added test file";
    assert plain[0] == 'A';
    assert plain[..6][0] == 'A' && plain[..7][0] == 'A';
  }
}
