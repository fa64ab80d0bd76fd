// Following the pages that a model is given: each is read under its limits and
// then shrunk to a budget (filesystem/read.go, fstools/mcp_file.go).
module FittedPages {
  import opened TextLines
  import opened Wrappers
  import opened Pager

  /** The reader's page from line index `at`. */
  function PageAt(texts: seq<string>, at: nat, lineLimit: nat, byteLimit: nat): (page: Page)
    requires at <= |texts|
    ensures IsPage(page, texts, at, lineLimit, byteLimit)
  {
    PagesStartEmpty(texts, at, lineLimit, byteLimit);
    var n := PageSize(texts, at, 0, lineLimit, byteLimit);
    var lines := seq(n, i requires 0 <= i < n => Line(at + i + 1, texts[at + i]));
    assert Texts(lines) == texts[at..at + n];
    Page(lines, JoinLf(Texts(lines)), |JoinLf(Texts(lines))|, if at + n < |texts| then at + n + 1 else 0)
  }

  /** The same page on its way to a model. */
  function DataAt(texts: seq<string>, at: nat, lineLimit: nat, byteLimit: nat): ReadData
    requires at <= |texts|
  {
    var page := PageAt(texts, at, lineLimit, byteLimit);
    ReadData(false, at + 1, [], page.lines, page.content, page.nextOffset, None, page.bytes)
  }

  /** How many lines of it are left after shrinking. */
  function FittedLines(
    texts: seq<string>, at: nat, lineLimit: nat, byteLimit: nat, limit: int, size: ReadData -> nat): nat
    requires at <= |texts|
  {
    var data := DataAt(texts, at, lineLimit, byteLimit);
    ShrunkTo(data, Amount(data), limit, size)
  }

  /** The page of one line at this index exists and fits. */
  predicate OneLineFits(texts: seq<string>, at: nat, lineLimit: nat, byteLimit: nat, limit: int, size: ReadData -> nat)
    requires at < |texts|
  {
    var data := DataAt(texts, at, lineLimit, byteLimit);
    Amount(data) >= 1 && size(Cut(data, 1)) <= limit
  }

  /** A page is no smaller than the page of any one of its lines. */
  ghost predicate LinesAddUp(texts: seq<string>, lineLimit: nat, byteLimit: nat, size: ReadData -> nat) {
    forall from, k, at ::
      0 <= from <= at < from + k <= |texts| && k <= Amount(DataAt(texts, from, lineLimit, byteLimit))
      && Amount(DataAt(texts, at, lineLimit, byteLimit)) >= 1 ==>
        size(Cut(DataAt(texts, at, lineLimit, byteLimit), 1)) <= size(Cut(DataAt(texts, from, lineLimit, byteLimit), k))
  }

  /** A line whose own page does not fit is never passed: the answer holds no
      line and names the offset it was asked for. */
  lemma StuckPageNamesItself(
    texts: seq<string>, at: nat, lineLimit: nat, byteLimit: nat, budget: int, size: ReadData -> nat)
    requires at < |texts| && Amount(DataAt(texts, at, lineLimit, byteLimit)) >= 1
    requires FittedLines(texts, at, lineLimit, byteLimit, Limit(budget), size) == 0
    ensures var r := Fitted(DataAt(texts, at, lineLimit, byteLimit), budget, size);
            r.lines == [] && r.nextOffset == at + 1
  {
  }

  lemma OneLineMakesProgress(
    texts: seq<string>, at: nat, lineLimit: nat, byteLimit: nat, limit: int, size: ReadData -> nat)
    requires at < |texts| && OneLineFits(texts, at, lineLimit, byteLimit, limit, size)
    ensures FittedLines(texts, at, lineLimit, byteLimit, limit, size) >= 1
  {
    var data := DataAt(texts, at, lineLimit, byteLimit);
    if FittedLines(texts, at, lineLimit, byteLimit, limit, size) == 0 {
      TextShrinksNoFurtherThanNeeded(data, Amount(data), limit, size, 1);
    }
  }

  /** The lines of a page that fits fit alone. */
  lemma PassedLinesFit(
    texts: seq<string>, from: nat, at: nat, lineLimit: nat, byteLimit: nat, limit: int, size: ReadData -> nat)
    requires from <= at < |texts| && at < from + FittedLines(texts, from, lineLimit, byteLimit, limit, size)
    requires LinesAddUp(texts, lineLimit, byteLimit, size)
    ensures OneLineFits(texts, at, lineLimit, byteLimit, limit, size)
  {
    var data := DataAt(texts, from, lineLimit, byteLimit);
    var n := Amount(data);
    if |texts[at]| > byteLimit {
      PagesStayShort(texts, from, n, at, lineLimit, byteLimit);
    }
    FirstLineFits(texts, at, lineLimit, byteLimit);
    PageIsLongest(texts, at, 1, lineLimit, byteLimit);
  }

  /** A caller takes the lines of a fitted page and its next offset. */
  function FittedAnswers(
    texts: seq<string>, lineLimit: nat, byteLimit: nat, budget: int, size: ReadData -> nat): nat -> Answer<string>
  {
    (offset: nat) =>
      if 1 <= offset <= |texts| then
        var r := Fitted(DataAt(texts, offset - 1, lineLimit, byteLimit), budget, size);
        Answer(Texts(r.lines), r.nextOffset)
      else Answer([], 0)
  }

  /** A shrunk page names the first line it leaves out. */
  lemma FittedPagesAreChained(
    texts: seq<string>, offset: nat, lineLimit: nat, byteLimit: nat, budget: int, size: ReadData -> nat)
    requires 1 <= offset <= |texts|
    ensures var a := FittedAnswers(texts, lineLimit, byteLimit, budget, size)(offset);
            && |a.items| == FittedLines(texts, offset - 1, lineLimit, byteLimit, Limit(budget), size)
            && ChainedAt(texts, a, offset)
  {
    var data := DataAt(texts, offset - 1, lineLimit, byteLimit);
    var r := Fitted(data, budget, size);
    assert r.lines == data.lines[..|r.lines|];
    assert Texts(r.lines) == Texts(data.lines)[..|r.lines|];
  }

  lemma FittedAnswersAreChained(
    texts: seq<string>, lineLimit: nat, byteLimit: nat, budget: int, size: ReadData -> nat)
    ensures Chained(texts, FittedAnswers(texts, lineLimit, byteLimit, budget, size))
  {
    var answer := FittedAnswers(texts, lineLimit, byteLimit, budget, size);
    forall offset | 1 <= offset <= |texts| ensures ChainedAt(texts, answer(offset), offset) {
      FittedPagesAreChained(texts, offset, lineLimit, byteLimit, budget, size);
    }
  }

  lemma FittedPageStopsOnlyAtLargeLine(
    texts: seq<string>, at: nat, lineLimit: nat, byteLimit: nat, budget: int, size: ReadData -> nat)
    requires at < |texts| && FittedAnswers(texts, lineLimit, byteLimit, budget, size)(at + 1).items == []
    ensures !OneLineFits(texts, at, lineLimit, byteLimit, Limit(budget), size)
  {
    FittedPagesAreChained(texts, at + 1, lineLimit, byteLimit, budget, size);
    if OneLineFits(texts, at, lineLimit, byteLimit, Limit(budget), size) {
      OneLineMakesProgress(texts, at, lineLimit, byteLimit, Limit(budget), size);
    }
  }

  lemma FittedPagePassesSmallLines(
    texts: seq<string>, at: nat, lineLimit: nat, byteLimit: nat, budget: int, size: ReadData -> nat)
    requires at < |texts| && LinesAddUp(texts, lineLimit, byteLimit, size)
    requires Passed(texts, FittedAnswers(texts, lineLimit, byteLimit, budget, size), at)
    ensures OneLineFits(texts, at, lineLimit, byteLimit, Limit(budget), size)
  {
    var from: nat :| from < |texts| && Passes(FittedAnswers(texts, lineLimit, byteLimit, budget, size), from, at);
    FittedPagesAreChained(texts, from + 1, lineLimit, byteLimit, budget, size);
    PassedLinesFit(texts, from, at, lineLimit, byteLimit, Limit(budget), size);
  }

  /** Following the next offsets of shrunk pages from the start delivers every
      line, in order and once, exactly when the page of each line alone fits;
      otherwise it stops in front of the first line whose page does not. */
  lemma FittedPagesDeliverTheFile(
    texts: seq<string>, lineLimit: nat, byteLimit: nat, budget: int, size: ReadData -> nat)
    requires texts != [] && LinesAddUp(texts, lineLimit, byteLimit, size)
    ensures var got := Followed(FittedAnswers(texts, lineLimit, byteLimit, budget, size), 1, |texts|);
            && got <= texts
            && (forall at: nat :: at < |got| ==> OneLineFits(texts, at, lineLimit, byteLimit, Limit(budget), size))
            && (|got| < |texts| ==> !OneLineFits(texts, |got|, lineLimit, byteLimit, Limit(budget), size))
    ensures Followed(FittedAnswers(texts, lineLimit, byteLimit, budget, size), 1, |texts|) == texts
       <==> forall at: nat :: at < |texts| ==> OneLineFits(texts, at, lineLimit, byteLimit, Limit(budget), size)
  {
    var answer := FittedAnswers(texts, lineLimit, byteLimit, budget, size);
    FittedAnswersAreChained(texts, lineLimit, byteLimit, budget, size);
    FollowedFromStart(texts, answer);
    var got := Followed(answer, 1, |texts|);
    forall at: nat | at < |got| ensures OneLineFits(texts, at, lineLimit, byteLimit, Limit(budget), size) {
      FittedPagePassesSmallLines(texts, at, lineLimit, byteLimit, budget, size);
    }
    if |got| < |texts| {
      FittedPageStopsOnlyAtLargeLine(texts, |got|, lineLimit, byteLimit, budget, size);
    }
  }

  // -------------------------------------------------------------------------
  // Binary files

  /** The reader's page of a binary file from byte index `at`: as many bytes as
      the limit allows, and the offset of the first one left. */
  function BytesAt(raw: seq<int>, at: nat, byteLimit: nat): ReadData
    requires at <= |raw|
  {
    var end := if at + byteLimit > |raw| then |raw| else at + byteLimit;
    ReadData(true, at + 1, raw[at..end], [], "", if end < |raw| then end + 1 else 0, None, end - at)
  }

  function BinaryAnswers(raw: seq<int>, byteLimit: nat, budget: int, size: ReadData -> nat): nat -> Answer<int> {
    (offset: nat) =>
      if 1 <= offset <= |raw| then
        var r := Fitted(BytesAt(raw, offset - 1, byteLimit), budget, size);
        Answer(r.raw, r.nextOffset)
      else Answer([], 0)
  }

  lemma BinaryAnswersAreChained(raw: seq<int>, byteLimit: nat, budget: int, size: ReadData -> nat)
    ensures Chained(raw, BinaryAnswers(raw, byteLimit, budget, size))
  {
    forall offset | 1 <= offset <= |raw|
      ensures ChainedAt(raw, BinaryAnswers(raw, byteLimit, budget, size)(offset), offset)
    {
      BytesLeftAreBytes(raw, offset - 1, byteLimit, budget, size);
    }
  }

  lemma BytesLeftAreBytes(raw: seq<int>, at: nat, byteLimit: nat, budget: int, size: ReadData -> nat)
    requires at < |raw|
    ensures var r := Fitted(BytesAt(raw, at, byteLimit), budget, size);
            var end := at + |r.raw|;
            end <= |raw| && r.raw == raw[at..end] && r.nextOffset == if end < |raw| then end + 1 else 0
  {
  }

  /** Following the shrunk pages of a binary file delivers its bytes in order and
      once, and stops short only in front of a page that lost all of its bytes. */
  lemma BinaryPagesDeliverTheFile(raw: seq<int>, byteLimit: nat, budget: int, size: ReadData -> nat)
    requires raw != [] && byteLimit > 0
    ensures var got := Followed(BinaryAnswers(raw, byteLimit, budget, size), 1, |raw|);
            && got <= raw
            && (|got| < |raw| ==>
                  size(BytesAt(raw, |got|, byteLimit)) > Limit(budget)
                  && Fitted(BytesAt(raw, |got|, byteLimit), budget, size).raw == [])
  {
    BinaryAnswersAreChained(raw, byteLimit, budget, size);
    FollowedFromStart(raw, BinaryAnswers(raw, byteLimit, budget, size));
  }
}
