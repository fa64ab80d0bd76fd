// Reading a file page by page under a line and a byte limit, and shrinking a
// page to a model's budget (filesystem/read.go, fstools/mcp_file.go).
module Pager {
  import opened TextLines
  import opened Wrappers

  datatype Line = Line(number: nat, text: string)

  /** One answer of the reader; nextOffset 0 means nothing is left. */
  datatype Page = Page(lines: seq<Line>, content: string, bytes: nat, nextOffset: nat)

  function Texts(lines: seq<Line>): seq<string> {
    seq(|lines|, i requires 0 <= i < |lines| => lines[i].text)
  }

  lemma {:induction false} JoinGrows(parts: seq<string>, last: string)
    ensures |JoinLf(parts + [last])| == |JoinLf(parts)| + (if parts == [] then 0 else 1) + |last|
  {
    if |parts| == 0 {
      assert parts + [last] == [last];
    } else if |parts| == 1 {
      assert (parts + [last])[1..] == [last];
    } else {
      JoinGrows(parts[1..], last);
      assert (parts + [last])[1..] == parts[1..] + [last];
    }
  }

  /** n lines from index `at` fit one page. */
  predicate Fits(texts: seq<string>, at: nat, n: nat, lineLimit: nat, byteLimit: nat) {
    at + n <= |texts| && n <= lineLimit && |JoinLf(texts[at..at + n])| <= byteLimit
  }

  /** The lines of a page: as many from `at` as fit, one by one. */
  function PageSize(texts: seq<string>, at: nat, n: nat, lineLimit: nat, byteLimit: nat): (size: nat)
    requires Fits(texts, at, n, lineLimit, byteLimit)
    ensures n <= size && Fits(texts, at, size, lineLimit, byteLimit)
    ensures !Fits(texts, at, size + 1, lineLimit, byteLimit)
    decreases |texts| - n
  {
    if Fits(texts, at, n + 1, lineLimit, byteLimit) then PageSize(texts, at, n + 1, lineLimit, byteLimit) else n
  }

  lemma PagesStartEmpty(texts: seq<string>, at: nat, lineLimit: nat, byteLimit: nat)
    requires at <= |texts|
    ensures Fits(texts, at, 0, lineLimit, byteLimit)
  {
    assert texts[at..at] == [];
  }

  /** Fitting pages are closed under shrinking, so the page taken line by line
      is the longest that fits. */
  lemma {:induction false} ShorterPagesFit(texts: seq<string>, at: nat, m: nat, n: nat, lineLimit: nat, byteLimit: nat)
    requires m <= n && Fits(texts, at, n, lineLimit, byteLimit)
    ensures Fits(texts, at, m, lineLimit, byteLimit)
  {
    if m < n {
      JoinGrows(texts[at..at + n - 1], texts[at + n - 1]);
      assert texts[at..at + n] == texts[at..at + n - 1] + [texts[at + n - 1]];
      ShorterPagesFit(texts, at, m, n - 1, lineLimit, byteLimit);
    }
  }

  lemma PageIsLongest(texts: seq<string>, at: nat, n: nat, lineLimit: nat, byteLimit: nat)
    requires at <= |texts| && Fits(texts, at, 0, lineLimit, byteLimit) && Fits(texts, at, n, lineLimit, byteLimit)
    ensures n <= PageSize(texts, at, 0, lineLimit, byteLimit)
  {
    var size := PageSize(texts, at, 0, lineLimit, byteLimit);
    if n > size {
      ShorterPagesFit(texts, at, size + 1, n, lineLimit, byteLimit);
    }
  }

  lemma TextsGrow(lines: seq<Line>, line: Line)
    ensures Texts(lines + [line]) == Texts(lines) + [line.text]
  {
  }

  lemma ContentGrows(texts: seq<string>, at: nat, n: nat)
    requires at + n < |texts|
    ensures texts[at..at + n + 1] == texts[at..at + n] + [texts[at + n]]
    ensures |JoinLf(texts[at..at + n + 1])|
         == |JoinLf(texts[at..at + n])| + (if n == 0 then 0 else 1) + |texts[at + n]|
  {
    JoinGrows(texts[at..at + n], texts[at + n]);
    assert texts[at..at + n + 1] == texts[at..at + n] + [texts[at + n]];
  }

  /** The lines that lead from line index `at`, numbered from one. */
  predicate Numbered(lines: seq<Line>, texts: seq<string>, at: nat) {
    && at + |lines| <= |texts|
    && Texts(lines) == texts[at..at + |lines|]
    && forall i :: 0 <= i < |lines| ==> lines[i].number == at + i + 1
  }

  lemma NumberedGrows(lines: seq<Line>, texts: seq<string>, at: nat)
    requires Numbered(lines, texts, at) && at + |lines| < |texts|
    ensures Numbered(lines + [Line(at + |lines| + 1, texts[at + |lines|])], texts, at)
  {
    var line := Line(at + |lines| + 1, texts[at + |lines|]);
    TextsGrow(lines, line);
    ContentGrows(texts, at, |lines|);
  }

  /** The page the reader must give: the longest that fits, and the number of
      the first line it leaves out. */
  ghost predicate IsPage(page: Page, texts: seq<string>, at: nat, lineLimit: nat, byteLimit: nat)
  {
    && Fits(texts, at, 0, lineLimit, byteLimit)
    && Numbered(page.lines, texts, at)
    && |page.lines| == PageSize(texts, at, 0, lineLimit, byteLimit)
    && page.content == JoinLf(Texts(page.lines)) && page.bytes == |page.content|
    && page.nextOffset == (if at + |page.lines| < |texts| then at + |page.lines| + 1 else 0)
  }

  /** Between two rounds of the paging loop. */
  ghost predicate Filling(lines: seq<Line>, used: nat, texts: seq<string>, at: nat, lineLimit: nat, byteLimit: nat) {
    && Numbered(lines, texts, at)
    && Fits(texts, at, |lines|, lineLimit, byteLimit) && Fits(texts, at, 0, lineLimit, byteLimit)
    && used == |JoinLf(texts[at..at + |lines|])|
    && PageSize(texts, at, 0, lineLimit, byteLimit) == PageSize(texts, at, |lines|, lineLimit, byteLimit)
  }

  function Cost(lines: seq<Line>, text: string): nat {
    |text| + if |lines| > 0 then 1 else 0
  }

  lemma FillingStarts(texts: seq<string>, at: nat, lineLimit: nat, byteLimit: nat)
    requires at <= |texts|
    ensures Filling([], 0, texts, at, lineLimit, byteLimit)
  {
    assert texts[at..at] == [];
  }

  lemma FillingGrows(lines: seq<Line>, used: nat, texts: seq<string>, at: nat, lineLimit: nat, byteLimit: nat)
    requires Filling(lines, used, texts, at, lineLimit, byteLimit)
    requires at + |lines| < |texts| && |lines| < lineLimit
    requires used + Cost(lines, texts[at + |lines|]) <= byteLimit
    ensures Filling(lines + [Line(at + |lines| + 1, texts[at + |lines|])],
                    used + Cost(lines, texts[at + |lines|]), texts, at, lineLimit, byteLimit)
  {
    NumberedGrows(lines, texts, at);
    ContentGrows(texts, at, |lines|);
  }

  lemma FillingEnds(lines: seq<Line>, used: nat, texts: seq<string>, at: nat, lineLimit: nat, byteLimit: nat)
    requires Filling(lines, used, texts, at, lineLimit, byteLimit)
    requires at + |lines| == |texts| || |lines| >= lineLimit || used + Cost(lines, texts[at + |lines|]) > byteLimit
    ensures IsPage(Page(lines, JoinLf(Texts(lines)), used, if at + |lines| < |texts| then at + |lines| + 1 else 0),
                   texts, at, lineLimit, byteLimit)
  {
    if at + |lines| < |texts| {
      ContentGrows(texts, at, |lines|);
    }
    assert !Fits(texts, at, |lines| + 1, lineLimit, byteLimit);
  }

  /** The paging loop: an offset beyond the end gives an empty page. */
  method ReadPage(texts: seq<string>, offset: nat, lineLimit: nat, byteLimit: nat) returns (page: Page)
    requires offset >= 1
    ensures offset > |texts| ==> page == Page([], "", 0, 0)
    ensures offset <= |texts| ==> IsPage(page, texts, offset - 1, lineLimit, byteLimit)
  {
    if offset > |texts| {
      return Page([], "", 0, 0);
    }
    var lines: seq<Line> := [];
    var used: nat := 0;
    var end := offset - 1;
    ghost var at := end;
    FillingStarts(texts, at, lineLimit, byteLimit);
    while end < |texts| && |lines| < lineLimit
      invariant end == at + |lines|
      invariant Filling(lines, used, texts, at, lineLimit, byteLimit)
    {
      var cost := |texts[end]|;
      if |lines| > 0 {
        cost := cost + 1;
      }
      assert cost == Cost(lines, texts[at + |lines|]);
      if used + cost > byteLimit {
        break;
      }
      FillingGrows(lines, used, texts, at, lineLimit, byteLimit);
      lines, used, end := lines + [Line(end + 1, texts[end])], used + cost, end + 1;
    }
    FillingEnds(lines, used, texts, at, lineLimit, byteLimit);
    page := Page(lines, JoinLf(Texts(lines)), used, if end < |texts| then end + 1 else 0);
  }

  // -------------------------------------------------------------------------
  // Following the pages

  /** What a caller takes from one page: what it holds, and the offset it names
      for the next, 0 for none. */
  datatype Answer<T> = Answer(items: seq<T>, next: nat)

  /** Everything a caller collects from `offset` on by asking for the offset the
      last answer named, until one names none that lies ahead in the file. */
  function Followed<T>(answer: nat -> Answer<T>, offset: nat, last: nat): seq<T>
    decreases last - offset
  {
    var a := answer(offset);
    a.items + if offset < a.next <= last then Followed(answer, a.next, last) else []
  }

  /** Every answer holds what lies at its offset and names what comes next. */
  ghost predicate Chained<T(!new)>(items: seq<T>, answer: nat -> Answer<T>) {
    forall offset :: 1 <= offset <= |items| ==> ChainedAt(items, answer(offset), offset)
  }

  predicate ChainedAt<T(==)>(items: seq<T>, a: Answer<T>, offset: nat)
    requires offset >= 1
  {
    var end := offset - 1 + |a.items|;
    && end <= |items| && a.items == items[offset - 1..end]
    && a.next == if end < |items| then end + 1 else 0
  }

  /** The answer to from + 1 passes the item at index `at`. */
  predicate Passes<T>(answer: nat -> Answer<T>, from: nat, at: nat) {
    from <= at < from + |answer(from + 1).items|
  }

  /** Some answer of the file passes the item. */
  ghost predicate Passed<T>(items: seq<T>, answer: nat -> Answer<T>, at: nat) {
    exists from: nat :: from < |items| && Passes(answer, from, at)
  }

  lemma ItemsGoOn<T>(items: seq<T>, a: Answer<T>, offset: nat, rest: seq<T>)
    requires 1 <= offset <= |items| && ChainedAt(items, a, offset) && offset < a.next
    requires a.next - 1 + |rest| <= |items| && rest == items[a.next - 1..a.next - 1 + |rest|]
    ensures a.items + rest == items[offset - 1..offset - 1 + |a.items + rest|]
  {
  }

  /** Following chained answers delivers the items in order and once, and stops
      short of the end only in front of an answer that holds nothing. */
  lemma {:induction false} FollowedIsChained<T(!new)>(items: seq<T>, answer: nat -> Answer<T>, offset: nat)
    requires Chained(items, answer) && 1 <= offset <= |items|
    ensures var end := offset - 1 + |Followed(answer, offset, |items|)|;
            && end <= |items| && Followed(answer, offset, |items|) == items[offset - 1..end]
            && (end < |items| ==> answer(end + 1).items == [])
            && forall at :: offset - 1 <= at < end ==> Passed(items, answer, at)
    decreases |items| - offset
  {
    var a := answer(offset);
    assert ChainedAt(items, a, offset);
    forall at | offset - 1 <= at < offset - 1 + |a.items| ensures Passed(items, answer, at) {
      assert Passes(answer, offset - 1, at);
    }
    if offset < a.next {
      FollowedIsChained(items, answer, a.next);
      ItemsGoOn(items, a, offset, Followed(answer, a.next, |items|));
    }
  }

  lemma FirstLineFits(texts: seq<string>, at: nat, lineLimit: nat, byteLimit: nat)
    requires at <= |texts| && lineLimit > 0
    ensures Fits(texts, at, 1, lineLimit, byteLimit) <==> at < |texts| && |texts[at]| <= byteLimit
  {
    if at < |texts| { assert texts[at..at + 1] == [texts[at]]; }
  }

  lemma {:induction false} PagesStayShort(texts: seq<string>, at: nat, n: nat, k: nat, lineLimit: nat, byteLimit: nat)
    requires Fits(texts, at, n, lineLimit, byteLimit) && at <= k < |texts| && |texts[k]| > byteLimit
    ensures at + n <= k
  {
    if at + n > k {
      var m := k - at;
      ShorterPagesFit(texts, at, m + 1, n, lineLimit, byteLimit);
      ContentGrows(texts, at, m);
    }
  }

  lemma FollowedFromStart<T(!new)>(items: seq<T>, answer: nat -> Answer<T>)
    requires Chained(items, answer) && items != []
    ensures var got := Followed(answer, 1, |items|);
            && got <= items
            && (|got| < |items| ==> answer(|got| + 1).items == [])
            && forall at :: 0 <= at < |got| ==> Passed(items, answer, at)
  {
    FollowedIsChained(items, answer, 1);
  }

  /** A caller takes the lines of a page and its next offset. */
  function PageAnswers(page: nat -> Page): nat -> Answer<string> {
    (offset: nat) => Answer(Texts(page(offset).lines), page(offset).nextOffset)
  }

  ghost predicate ArePages(page: nat -> Page, texts: seq<string>, lineLimit: nat, byteLimit: nat) {
    forall offset :: 1 <= offset <= |texts| ==> IsPage(page(offset), texts, offset - 1, lineLimit, byteLimit)
  }

  lemma PagesAreChained(texts: seq<string>, page: nat -> Page, lineLimit: nat, byteLimit: nat)
    requires ArePages(page, texts, lineLimit, byteLimit)
    ensures Chained(texts, PageAnswers(page))
  {
    forall offset | 1 <= offset <= |texts| ensures ChainedAt(texts, PageAnswers(page)(offset), offset) {
      assert IsPage(page(offset), texts, offset - 1, lineLimit, byteLimit);
    }
  }

  lemma PageStopsOnlyAtLongLine(texts: seq<string>, page: nat -> Page, lineLimit: nat, byteLimit: nat, at: nat)
    requires lineLimit > 0 && at < |texts| && ArePages(page, texts, lineLimit, byteLimit)
    requires PageAnswers(page)(at + 1).items == []
    ensures |texts[at]| > byteLimit
  {
    assert IsPage(page(at + 1), texts, at, lineLimit, byteLimit);
    FirstLineFits(texts, at, lineLimit, byteLimit);
  }

  lemma PassedLineIsShort(texts: seq<string>, page: nat -> Page, lineLimit: nat, byteLimit: nat, at: nat)
    requires at < |texts| && ArePages(page, texts, lineLimit, byteLimit) && Passed(texts, PageAnswers(page), at)
    ensures |texts[at]| <= byteLimit
  {
    var from: nat :| from < |texts| && Passes(PageAnswers(page), from, at);
    assert IsPage(page(from + 1), texts, from, lineLimit, byteLimit);
    if |texts[at]| > byteLimit {
      PagesStayShort(texts, from, |page(from + 1).lines|, at, lineLimit, byteLimit);
    }
  }

  /** Following the next offsets of the pages from the start delivers every line,
      in order and once, exactly when every line fits the byte limit; otherwise
      it stops in front of the first line that does not. */
  lemma PagesDeliverTheFile(texts: seq<string>, page: nat -> Page, lineLimit: nat, byteLimit: nat)
    requires lineLimit > 0 && texts != [] && ArePages(page, texts, lineLimit, byteLimit)
    ensures var got := Followed(PageAnswers(page), 1, |texts|);
            && got <= texts
            && (forall i :: 0 <= i < |got| ==> |texts[i]| <= byteLimit)
            && (|got| < |texts| ==> |texts[|got|]| > byteLimit)
    ensures Followed(PageAnswers(page), 1, |texts|) == texts
       <==> forall i :: 0 <= i < |texts| ==> |texts[i]| <= byteLimit
  {
    PagesAreChained(texts, page, lineLimit, byteLimit);
    FollowedFromStart(texts, PageAnswers(page));
    var got := Followed(PageAnswers(page), 1, |texts|);
    forall i | 0 <= i < |got| ensures |texts[i]| <= byteLimit {
      PassedLineIsShort(texts, page, lineLimit, byteLimit, i);
    }
    if |got| < |texts| {
      PageStopsOnlyAtLongLine(texts, page, lineLimit, byteLimit, |got|);
    }
  }

  // -------------------------------------------------------------------------
  // Shrinking a page to a budget

  /** What the caller is told about a shortened page. */
  datatype Notice = Notice(continuation: nat, items: nat)

  datatype ReadData = ReadData(
    binary: bool, offset: nat, raw: seq<int>, lines: seq<Line>, content: string, nextOffset: nat,
    notice: Option<Notice>, returnedBytes: nat)

  const HEADROOM := 128

  /** Room is reserved for the notice, unless the budget is smaller still. */
  function Limit(budget: int): int {
    if budget > HEADROOM then budget - HEADROOM else budget
  }

  /** How many lines, or raw bytes, the page holds. */
  function Amount(data: ReadData): nat {
    if data.binary then |data.raw| else |data.lines|
  }

  /** The first k lines or bytes of the page; the next offset names the first
      one missing. */
  function Cut(data: ReadData, k: nat): ReadData
    requires k <= Amount(data)
  {
    if k == Amount(data) then data
    else if data.binary then data.(raw := data.raw[..k], nextOffset := data.offset + k)
    else
      var lines := data.lines[..k];
      data.(lines := lines, content := JoinLf(Texts(lines)), nextOffset := data.lines[k].number)
  }

  /** What one round leaves of k lines or bytes that are `over` the limit. */
  function Fewer(data: ReadData, k: nat, over: nat): (fewer: nat)
    requires 0 < k <= Amount(data) && over > 0
    ensures fewer < k
    ensures !data.binary ==> fewer == k - 1
    ensures data.binary ==> 4 * (k - fewer - 1) <= 3 * over && (fewer == 0 || 3 * over < 4 * (k - fewer))
  {
    if !data.binary then k - 1
    else
      var remove := over * 3 / 4 + 1;
      if remove > k then 0 else k - remove
  }

  /** Where shrinking from k ends: text loses line after line, binary data a
      share of what it is over the limit. */
  function ShrunkTo(data: ReadData, k: nat, limit: int, size: ReadData -> nat): (end: nat)
    requires k <= Amount(data)
    ensures end <= k
    ensures size(Cut(data, end)) <= limit || end == 0
    ensures end == k <==> size(Cut(data, k)) <= limit || k == 0
  {
    if size(Cut(data, k)) <= limit || k == 0 then k
    else ShrunkTo(data, Fewer(data, k, size(Cut(data, k)) - limit), limit, size)
  }

  /** A shortened text page is the longest that fits, or empty. */
  lemma {:induction false} TextShrinksNoFurtherThanNeeded(
    data: ReadData, k: nat, limit: int, size: ReadData -> nat, longer: nat)
    requires !data.binary && k <= Amount(data)
    requires ShrunkTo(data, k, limit, size) < longer <= k
    ensures size(Cut(data, longer)) > limit
  {
    if longer < k {
      TextShrinksNoFurtherThanNeeded(data, k - 1, limit, size, longer);
    }
  }

  lemma CutOfCut(data: ReadData, k: nat, fewer: nat)
    requires fewer < k <= Amount(data)
    ensures Amount(Cut(data, k)) == k && Cut(data, k).binary == data.binary
    ensures Cut(Cut(data, k), fewer) == Cut(data, fewer)
  {
    if data.binary {
      assert Cut(data, k).raw[..fewer] == data.raw[..fewer];
    } else {
      assert Cut(data, k).lines[..fewer] == data.lines[..fewer];
    }
  }

  /** One round of shrinking. */
  method ShrinkOnce(data: ReadData, limit: int, size: ReadData -> nat) returns (r: ReadData)
    requires size(data) > limit && Amount(data) > 0
    ensures r == Cut(data, Fewer(data, Amount(data), size(data) - limit))
  {
    if data.binary {
      var over := size(data) - limit;
      var remove := over * 3 / 4 + 1;
      if remove > |data.raw| {
        remove := |data.raw|;
      }
      var raw := data.raw[..|data.raw| - remove];
      return data.(raw := raw, nextOffset := data.offset + |raw|);
    }
    var removed := data.lines[|data.lines| - 1];
    var lines := data.lines[..|data.lines| - 1];
    return data.(lines := lines, content := JoinLf(Texts(lines)), nextOffset := removed.number);
  }

  /** The shortened page with its notice. The byte count is set for binary pages
      only; a text page keeps the one it came with. */
  function Noted(cut: ReadData): ReadData {
    cut.(notice := Some(Notice(cut.nextOffset, |cut.lines|)),
         returnedBytes := if cut.binary then |cut.raw| else cut.returnedBytes)
  }

  function Shrunk(data: ReadData, budget: int, size: ReadData -> nat): ReadData {
    Cut(data, ShrunkTo(data, Amount(data), Limit(budget), size))
  }

  function Fitted(data: ReadData, budget: int, size: ReadData -> nat): ReadData {
    if size(data) <= Limit(budget) then data else Noted(Shrunk(data, budget, size))
  }

  /** A page over the limit loses the end of its text or its bytes, says so, and
      names the first line or byte it lost; it is left as it is otherwise. */
  ghost predicate Shortened(data: ReadData, r: ReadData, limit: int, size: ReadData -> nat) {
    && r.binary == data.binary && r.offset == data.offset
    && r.lines <= data.lines && r.raw <= data.raw
    && (if data.binary then r.lines == data.lines && r.content == data.content else r.raw == data.raw)
    && (if |r.lines| < |data.lines| then
          r.nextOffset == data.lines[|r.lines|].number && r.content == JoinLf(Texts(r.lines))
        else if |r.raw| < |data.raw| then r.nextOffset == data.offset + |r.raw|
        else r.nextOffset == data.nextOffset && r.content == data.content)
    && r.notice == Some(Notice(r.nextOffset, |r.lines|))
    && r.returnedBytes == (if data.binary then |r.raw| else data.returnedBytes)
    && (size(r.(notice := data.notice, returnedBytes := data.returnedBytes)) <= limit
        || (if data.binary then r.raw == [] else r.lines == []))
  }

  lemma FittedIsShortened(data: ReadData, budget: int, size: ReadData -> nat, r: ReadData)
    requires r == Fitted(data, budget, size) && size(data) > Limit(budget)
    ensures Shortened(data, r, if budget > 128 then budget - 128 else budget, size)
  {
    assert r.(notice := data.notice, returnedBytes := data.returnedBytes) == Shrunk(data, budget, size);
  }

  /** Drops lines, or raw bytes of a binary page, from the end until the encoded
      size fits or nothing is left. */
  method ShrinkToLimit(data: ReadData, limit: int, size: ReadData -> nat) returns (r: ReadData, truncated: bool)
    ensures r == Cut(data, ShrunkTo(data, Amount(data), limit, size))
    ensures truncated <==> size(data) > limit
  {
    truncated := false;
    r := data;
    ghost var k: nat := Amount(data);
    while size(r) > limit
      invariant k <= Amount(data) && r == Cut(data, k)
      invariant ShrunkTo(data, k, limit, size) == ShrunkTo(data, Amount(data), limit, size)
      invariant if truncated then size(data) > limit else k == Amount(data)
      decreases k, !truncated
    {
      truncated := true;
      if (if r.binary then |r.raw| else |r.lines|) == 0 {
        break;
      }
      ghost var fewer := Fewer(data, k, size(r) - limit);
      CutOfCut(data, k, fewer);
      r := ShrinkOnce(r, limit, size);
      k := fewer;
    }
  }

  /** Shrinks a page to the budget and tells the caller where to go on. */
  method FitRead(data: ReadData, budget: int, size: ReadData -> nat) returns (r: ReadData, truncated: bool)
    ensures r == Fitted(data, budget, size)
    ensures truncated <==> size(data) > if budget > 128 then budget - 128 else budget
    ensures !truncated ==> r == data
    ensures truncated ==> Shortened(data, r, if budget > 128 then budget - 128 else budget, size)
  {
    r, truncated := ShrinkToLimit(data, if budget > HEADROOM then budget - HEADROOM else budget, size);
    if truncated {
      r := r.(notice := Some(Notice(r.nextOffset, |r.lines|)));
      if r.binary {
        r := r.(returnedBytes := |r.raw|);
      }
      FittedIsShortened(data, budget, size, r);
    }
  }

  // -------------------------------------------------------------------------
  // What the reserved room is worth

  /** A notice adds no more than the room reserved for it. */
  ghost predicate NoticeIsSmall(size: ReadData -> nat) {
    forall cut: ReadData :: size(Noted(cut)) <= size(cut) + HEADROOM
  }

  /** The answer fits the budget, or even the empty page did not. */
  ghost predicate KeepsBudget(data: ReadData, budget: int, size: ReadData -> nat) {
    || size(Fitted(data, budget, size)) <= budget
    || (ShrunkTo(data, Amount(data), Limit(budget), size) == 0 && size(Cut(data, 0)) > Limit(budget))
  }

  lemma LargeBudgetIsKept(data: ReadData, budget: int, size: ReadData -> nat)
    requires NoticeIsSmall(size) && (budget > HEADROOM || budget < 0)
    ensures KeepsBudget(data, budget, size)
  {
    assert size(Noted(Shrunk(data, budget, size))) <= size(Shrunk(data, budget, size)) + HEADROOM;
  }

  /** Every page carries the file's hash, which alone is longer than the room
      reserved: then every budget is kept, also one too small to reserve it. */
  lemma BudgetIsKept(data: ReadData, budget: int, size: ReadData -> nat)
    requires NoticeIsSmall(size) && forall page: ReadData :: size(page) > HEADROOM
    ensures KeepsBudget(data, budget, size)
  {
    if budget > HEADROOM || budget < 0 {
      LargeBudgetIsKept(data, budget, size);
    } else {
      assert size(Shrunk(data, budget, size)) > HEADROOM;
      assert size(Cut(data, 0)) > HEADROOM;
    }
  }

  lemma {:induction false} FewerPartsJoinShorter(parts: seq<string>, k: nat)
    requires k < |parts|
    ensures |JoinLf(parts[..k])| <= |JoinLf(parts)|
    ensures |JoinLf(parts[..k])| == |JoinLf(parts)| <==> JoinLf(parts) == ""
  {
    var front, last := parts[..|parts| - 1], parts[|parts| - 1];
    JoinGrows(front, last);
    assert parts == front + [last];
    if k < |front| {
      FewerPartsJoinShorter(front, k);
      assert front[..k] == parts[..k];
    }
  }

  /** The byte count of a shortened text page is still right exactly if the page
      had no content to lose. */
  lemma ByteCountGoesStaleExactly(data: ReadData, k: nat)
    requires !data.binary && k < |data.lines|
    requires data.content == JoinLf(Texts(data.lines)) && data.returnedBytes == |data.content|
    ensures Noted(Cut(data, k)).returnedBytes == |Noted(Cut(data, k)).content| <==> data.content == ""
  {
    FewerPartsJoinShorter(Texts(data.lines), k);
    assert Texts(data.lines[..k]) == Texts(data.lines)[..k];
  }
}
