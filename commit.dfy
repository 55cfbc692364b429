/**
  The commit record every parser fills in. Ruby's `Struct` starts with every member nil;
  here each member is an `Option`, `None` standing for nil.
*/
module Commits {
  import opened Optional
  import Strings

  datatype Commit = Commit(
    authorDateRelative: Option<string>,
    authorEmail: Option<string>,
    authorName: Option<string>,
    body: Option<string>,
    bodyLines: Option<seq<string>>,
    bodyParagraphs: Option<seq<string>>,
    message: Option<string>,
    sha: Option<string>,
    subject: Option<string>,
    trailers: Option<seq<string>>,
    trailersIndex: Option<nat>)

  /** `Commit.new`: a record whose eleven members are all unset. */
  function New(): (c: Commit)
    ensures c.authorDateRelative.None? && c.authorEmail.None? && c.authorName.None?
    ensures c.body.None? && c.bodyLines.None? && c.bodyParagraphs.None?
    ensures c.message.None? && c.sha.None? && c.subject.None?
    ensures c.trailers.None? && c.trailersIndex.None?
  {
    Commit(None, None, None, None, None, None, None, None, None, None, None)
  }

  /**
    `Commit#fixup?`, which asks the subject. On a record without a subject Ruby raises
    (there is no `fixup?` on nil); that outcome is `None`.
  */
  function Fixup(c: Commit): (r: Option<bool>)
    ensures r.None? <==> c.subject.None?
    ensures r == Some(true) <==> c.subject.Some? && Strings.IsFixup(c.subject.value)
  {
    match c.subject
    case None => None
    case Some(s) => Some(Strings.IsFixup(s))
  }

  /** `Commit#squash?`, which asks the subject; `None` where Ruby raises on a nil subject. */
  function Squash(c: Commit): (r: Option<bool>)
    ensures r.None? <==> c.subject.None?
    ensures r == Some(true) <==> c.subject.Some? && Strings.IsSquash(c.subject.value)
  {
    match c.subject
    case None => None
    case Some(s) => Some(Strings.IsSquash(s))
  }

  /** Only the subject decides `fixup?` and `squash?`: every other member may change. */
  lemma PrefixTestsReadOnlySubject(a: Commit, b: Commit)
    requires a.subject == b.subject
    ensures Fixup(a) == Fixup(b) && Squash(a) == Squash(b)
  {
  }

  /** A record can never be both a fixup and a squash commit. */
  lemma FixupExcludesSquash(c: Commit)
    ensures !(Fixup(c) == Some(true) && Squash(c) == Some(true))
  {
    if c.subject.Some? {
      Strings.PrefixesExclusive(c.subject.value);
    }
  }
}
