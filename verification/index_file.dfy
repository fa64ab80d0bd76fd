// The bytes of an index file and of a record file: assembling lines from
// buffered chunks under caps, and reading back what was written
// (command/history.go).
module IndexFile {
  import opened Wrappers

  newtype byte = x: int | 0 <= x < 256

  const LF: byte := 10

  datatype ReadError = LineTooLong | Undecodable | FileTooLong

  /** Position of the first line feed, or the length when there is none. */
  function FirstLf(data: seq<byte>): (n: nat)
    ensures n <= |data| && LF !in data[..n]
    ensures n < |data| ==> data[n] == LF
  {
    if data == [] || data[0] == LF then 0
    else
      var n := FirstLf(data[1..]);
      assert data[..n + 1] == [data[0]] + data[1..][..n];
      n + 1
  }

  function Push<T>(head: T, tail: Result<seq<T>, ReadError>): Result<seq<T>, ReadError> {
    if tail.Ok? then Ok([head] + tail.value) else tail
  }

  function Prepend<T>(front: seq<T>, tail: Result<seq<T>, ReadError>): Result<seq<T>, ReadError> {
    if tail.Ok? then Ok(front + tail.value) else tail
  }

  /** Reading on after `front`; its error, if any, comes first. */
  function Followed<T>(front: Result<seq<T>, ReadError>, rest: Result<seq<T>, ReadError>): Result<seq<T>, ReadError> {
    if front.Ok? then Prepend(front.value, rest) else front
  }

  /** The rows of a file, line by line and without any buffer: blank lines are
      skipped, the last line needs no line feed, a line counts its line feed
      against the cap, and the first bad line decides the error. */
  function Rows<T>(data: seq<byte>, lineCap: nat, decode: seq<byte> -> Option<T>): Result<seq<T>, ReadError>
    decreases |data|
  {
    if data == [] then Ok([])
    else
      var n := FirstLf(data);
      var used := if n < |data| then n + 1 else n;
      if used > lineCap then Err(LineTooLong)
      else if n == 0 then Rows(data[used..], lineCap, decode)
      else
        match decode(data[..n])
        case None => Err(Undecodable)
        case Some(row) => Push(row, Rows(data[used..], lineCap, decode))
  }

  // -------------------------------------------------------------------------
  // The buffered reader

  datatype Ending = Delimited | BufferFull | EndOfFile

  /** One slice of a buffered reader: up to and including a line feed that the
      buffer reaches, else a full buffer, else what is left of the file. */
  method ReadSlice(unread: seq<byte>, buffer: nat) returns (chunk: seq<byte>, left: seq<byte>, ending: Ending)
    requires buffer > 0
    ensures unread == chunk + left && Sliced(chunk, left, ending, buffer)
  {
    var n := FirstLf(unread);
    if n < |unread| && n < buffer {
      return unread[..n + 1], unread[n + 1..], Delimited;
    }
    if |unread| >= buffer {
      return unread[..buffer], unread[buffer..], BufferFull;
    }
    return unread, [], EndOfFile;
  }

  lemma FirstLfOfPrefix(front: seq<byte>, rest: seq<byte>)
    requires LF !in front
    ensures FirstLf(front + rest) == |front| + FirstLf(rest)
  {
    if front == [] {
      assert front + rest == rest;
    } else {
      assert (front + rest)[1..] == front[1..] + rest;
      FirstLfOfPrefix(front[1..], rest);
    }
  }

  lemma PrependPush<T>(entries: seq<T>, row: T, tail: Result<seq<T>, ReadError>)
    ensures Prepend(entries, Push(row, tail)) == Prepend(entries + [row], tail)
  {
    if tail.Ok? { assert entries + ([row] + tail.value) == entries + [row] + tail.value; }
  }

  /** What the first line of the rest of a file does to the rows so far. */
  lemma ConsumeLine<T>(entries: seq<T>, rest: seq<byte>, lineCap: nat, decode: seq<byte> -> Option<T>)
    ensures var n := FirstLf(rest);
            var used := if n < |rest| then n + 1 else n;
            Prepend(entries, Rows(rest, lineCap, decode)) ==
            if used > lineCap then Err(LineTooLong)
            else if n == 0 then Prepend(entries, Rows(rest[used..], lineCap, decode))
            else if decode(rest[..n]).None? then Err(Undecodable)
            else Prepend(entries + [decode(rest[..n]).value], Rows(rest[used..], lineCap, decode))
  {
    var n := FirstLf(rest);
    var used := if n < |rest| then n + 1 else n;
    if rest == [] {
      assert rest[used..] == rest;
    } else if used <= lineCap && n > 0 && decode(rest[..n]).Some? {
      PrependPush(entries, decode(rest[..n]).value, Rows(rest[used..], lineCap, decode));
    }
  }

  /** A chunk moves from the unread data to the line under assembly. */
  lemma GrowLine(line: seq<byte>, chunk: seq<byte>, left: seq<byte>)
    requires LF !in line && |chunk| <= FirstLf(chunk + left) + 1
    ensures line + (chunk + left) == line + chunk + left
    ensures FirstLf(line + chunk + left) == |line| + FirstLf(chunk + left)
    ensures |chunk| <= FirstLf(chunk + left) ==> LF !in line + chunk
  {
    FirstLfOfPrefix(line, chunk + left);
    assert line + (chunk + left) == line + chunk + left;
    if |chunk| <= FirstLf(chunk + left) {
      assert chunk == (chunk + left)[..FirstLf(chunk + left)][..|chunk|];
    }
  }

  /** A blank line adds nothing. */
  function ParseLine<T>(entries: seq<T>, line: seq<byte>, decode: seq<byte> -> Option<T>): Option<seq<T>> {
    if line == [] then Some(entries)
    else
      match decode(line)
      case None => None
      case Some(row) => Some(entries + [row])
  }

  /** The first of at, at + buffer, at + 2 * buffer, ... over the cap. */
  function FirstOver(at: nat, buffer: nat, lineCap: nat): (over: nat)
    requires buffer > 0
    ensures at <= over && lineCap < over
    decreases lineCap + 1 - at
  {
    if at > lineCap then at else FirstOver(at + buffer, buffer, lineCap)
  }

  /** How much of a line of `used` bytes is assembled when it is found to be
      over the cap: whole buffers, or all of it. */
  function NoticedAt(used: nat, buffer: nat, lineCap: nat): nat
    requires buffer > 0
  {
    var whole := FirstOver(0, buffer, lineCap);
    if used < whole then used else whole
  }

  /** A line assembled from whole buffers. */
  predicate Whole(line: seq<byte>, buffer: nat, lineCap: nat)
    requires buffer > 0
  {
    FirstOver(|line|, buffer, lineCap) == FirstOver(0, buffer, lineCap)
  }

  function Shift(n: nat, at: Option<nat>): Option<nat> {
    if at.Some? then Some(n + at.value) else None
  }

  /** How many bytes are consumed when the first bad line is noticed. */
  function FirstBad<T>(data: seq<byte>, buffer: nat, lineCap: nat, decode: seq<byte> -> Option<T>): Option<nat>
    requires buffer > 0
    decreases |data|
  {
    if data == [] then None
    else
      var n := FirstLf(data);
      var used := if n < |data| then n + 1 else n;
      if used > lineCap then Some(NoticedAt(used, buffer, lineCap))
      else if n > 0 && decode(data[..n]).None? then Some(used)
      else Shift(used, FirstBad(data[used..], buffer, lineCap, decode))
  }

  lemma {:induction false} FirstBadIsWithinFile<T>(
    data: seq<byte>, buffer: nat, lineCap: nat, decode: seq<byte> -> Option<T>)
    requires buffer > 0
    ensures FirstBad(data, buffer, lineCap, decode).None? <==> Rows(data, lineCap, decode).Ok?
    ensures FirstBad(data, buffer, lineCap, decode).Some? ==> FirstBad(data, buffer, lineCap, decode).value <= |data|
    decreases |data|
  {
    if data != [] {
      var n := FirstLf(data);
      FirstBadIsWithinFile(data[if n < |data| then n + 1 else n..], buffer, lineCap, decode);
    }
  }

  /** `rest` is what remains after `entries`: its rows and its first bad line are
      those of the file. */
  ghost predicate Remaining<T>(data: seq<byte>, entries: seq<T>, rest: seq<byte>,
    buffer: nat, lineCap: nat, decode: seq<byte> -> Option<T>)
    requires buffer > 0
  {
    && |rest| <= |data|
    && Rows(data, lineCap, decode) == Prepend(entries, Rows(rest, lineCap, decode))
    && FirstBad(data, buffer, lineCap, decode) == Shift(|data| - |rest|, FirstBad(rest, buffer, lineCap, decode))
  }

  /** Between two slices: `line` is assembled, `unread` is left. */
  ghost predicate Reading<T>(data: seq<byte>, entries: seq<T>, line: seq<byte>, unread: seq<byte>,
    buffer: nat, lineCap: nat, decode: seq<byte> -> Option<T>)
    requires buffer > 0
  {
    && LF !in line && |line| <= lineCap && Whole(line, buffer, lineCap)
    && Remaining(data, entries, line + unread, buffer, lineCap, decode)
  }

  lemma FirstBadSteps<T>(rest: seq<byte>, buffer: nat, lineCap: nat, decode: seq<byte> -> Option<T>)
    requires buffer > 0 && LineEnd(rest) <= lineCap
    ensures FirstBad(rest, buffer, lineCap, decode)
         == if FirstLf(rest) > 0 && decode(rest[..FirstLf(rest)]).None? then Some(LineEnd(rest))
            else Shift(LineEnd(rest), FirstBad(rest[LineEnd(rest)..], buffer, lineCap, decode))
  {
    if rest == [] { assert rest[LineEnd(rest)..] == rest; }
  }

  lemma ParseIsDecode<T>(entries: seq<T>, rest: seq<byte>, decode: seq<byte> -> Option<T>)
    ensures ParseLine(entries, rest[..FirstLf(rest)], decode)
         == if FirstLf(rest) == 0 then Some(entries)
            else if decode(rest[..FirstLf(rest)]).None? then None
            else Some(entries + [decode(rest[..FirstLf(rest)]).value])
  {
  }

  lemma ShiftTwice(n: nat, m: nat, at: Option<nat>)
    ensures Shift(n, Shift(m, at)) == Shift(n + m, at)
  {
  }

  lemma RestIsParsed<T>(data: seq<byte>, entries: seq<T>, rest: seq<byte>,
    buffer: nat, lineCap: nat, decode: seq<byte> -> Option<T>)
    requires buffer > 0 && Remaining(data, entries, rest, buffer, lineCap, decode) && LineEnd(rest) <= lineCap
    ensures var parsed := ParseLine(entries, rest[..FirstLf(rest)], decode);
            if parsed.Some? then Remaining(data, parsed.value, rest[LineEnd(rest)..], buffer, lineCap, decode)
            else Rows(data, lineCap, decode) == Err(Undecodable)
                 && FirstBad(data, buffer, lineCap, decode) == Some(|data| - |rest| + LineEnd(rest))
  {
    var parsed := ParseLine(entries, rest[..FirstLf(rest)], decode);
    RowsAreParsed(entries, rest, lineCap, decode);
    BadIsShifted(|data| - |rest|, entries, rest, buffer, lineCap, decode);
    if parsed.Some? { LaterRemains(data, entries, parsed.value, rest, buffer, lineCap, decode); }
  }

  lemma LaterRemains<T>(data: seq<byte>, entries: seq<T>, parsed: seq<T>, rest: seq<byte>,
    buffer: nat, lineCap: nat, decode: seq<byte> -> Option<T>)
    requires buffer > 0 && Remaining(data, entries, rest, buffer, lineCap, decode)
    requires var later := rest[LineEnd(rest)..];
             && Prepend(entries, Rows(rest, lineCap, decode)) == Prepend(parsed, Rows(later, lineCap, decode))
             && Shift(|data| - |rest|, FirstBad(rest, buffer, lineCap, decode))
                == Shift(|data| - |rest| + LineEnd(rest), FirstBad(later, buffer, lineCap, decode))
    ensures Remaining(data, parsed, rest[LineEnd(rest)..], buffer, lineCap, decode)
  {
    assert |data| - |rest| + LineEnd(rest) == |data| - |rest[LineEnd(rest)..]|;
  }

  lemma RowsAreParsed<T>(entries: seq<T>, rest: seq<byte>, lineCap: nat, decode: seq<byte> -> Option<T>)
    requires LineEnd(rest) <= lineCap
    ensures var parsed := ParseLine(entries, rest[..FirstLf(rest)], decode);
            Prepend(entries, Rows(rest, lineCap, decode))
            == if parsed.Some? then Prepend(parsed.value, Rows(rest[LineEnd(rest)..], lineCap, decode))
               else Err(Undecodable)
  {
    ConsumeLine(entries, rest, lineCap, decode);
    ParseIsDecode(entries, rest, decode);
  }

  lemma BadIsShifted<T>(
    n: nat, entries: seq<T>, rest: seq<byte>, buffer: nat, lineCap: nat, decode: seq<byte> -> Option<T>)
    requires buffer > 0 && LineEnd(rest) <= lineCap
    ensures Shift(n, FirstBad(rest, buffer, lineCap, decode))
         == if ParseLine(entries, rest[..FirstLf(rest)], decode).None? then Some(n + LineEnd(rest))
            else Shift(n + LineEnd(rest), FirstBad(rest[LineEnd(rest)..], buffer, lineCap, decode))
  {
    FirstBadSteps(rest, buffer, lineCap, decode);
    ParseIsDecode(entries, rest, decode);
    ShiftTwice(n, LineEnd(rest), FirstBad(rest[LineEnd(rest)..], buffer, lineCap, decode));
  }

  function LineEnd(rest: seq<byte>): (used: nat)
    ensures used <= |rest|
  {
    var n := FirstLf(rest);
    if n < |rest| then n + 1 else n
  }

  /** A line without the line feed that ended it. */
  function Body(line: seq<byte>, ending: Ending): seq<byte>
    requires ending.Delimited? ==> line != []
  {
    if ending.Delimited? then line[..|line| - 1] else line
  }

  /** What one slice of a buffered reader is. */
  ghost predicate Sliced(chunk: seq<byte>, left: seq<byte>, ending: Ending, buffer: nat) {
    match ending
    case Delimited => |chunk| == FirstLf(chunk + left) + 1 && |chunk| <= buffer
    case BufferFull => |chunk| == buffer <= FirstLf(chunk + left)
    case EndOfFile => left == [] && |chunk| == FirstLf(chunk + left) < buffer
  }

  lemma ReadingStarts<T>(data: seq<byte>, buffer: nat, lineCap: nat, decode: seq<byte> -> Option<T>)
    requires buffer > 0
    ensures Reading<T>(data, [], [], data, buffer, lineCap, decode)
  {
    assert [] + data == data;
    var rows := Rows(data, lineCap, decode);
    assert rows.Ok? ==> [] + rows.value == rows.value;
  }

  lemma SliceFacts(line: seq<byte>, chunk: seq<byte>, left: seq<byte>, ending: Ending, buffer: nat)
    requires LF !in line && Sliced(chunk, left, ending, buffer)
    ensures line + (chunk + left) == line + chunk + left
    ensures ending.BufferFull? ==>
        |chunk| == buffer && LF !in line + chunk && |line + chunk| <= LineEnd(line + chunk + left)
    ensures !ending.BufferFull? ==> |line + chunk| == LineEnd(line + chunk + left)
    ensures ending.EndOfFile? ==> left == []
    ensures !ending.BufferFull? ==>
              (ending.Delimited? <==> FirstLf(line + chunk + left) < |line + chunk + left|)
  {
    GrowLine(line, chunk, left);
  }

  lemma LineIsTooLong<T>(
    data: seq<byte>, entries: seq<T>, line: seq<byte>, chunk: seq<byte>, left: seq<byte>, ending: Ending,
    buffer: nat, lineCap: nat, decode: seq<byte> -> Option<T>)
    requires buffer > 0 && Sliced(chunk, left, ending, buffer)
    requires Reading(data, entries, line, chunk + left, buffer, lineCap, decode) && |line + chunk| > lineCap
    ensures Rows(data, lineCap, decode) == Err(LineTooLong)
    ensures FirstBad(data, buffer, lineCap, decode) == Some(|data| - |left|)
  {
    var rest := line + (chunk + left);
    SliceFacts(line, chunk, left, ending, buffer);
    assert FirstOver(|line|, buffer, lineCap) == FirstOver(|line| + buffer, buffer, lineCap);
    assert NoticedAt(LineEnd(rest), buffer, lineCap) == |line + chunk|;
  }

  lemma LineGoesOn<T>(
    data: seq<byte>, entries: seq<T>, line: seq<byte>, chunk: seq<byte>, left: seq<byte>, ending: Ending,
    buffer: nat, lineCap: nat, decode: seq<byte> -> Option<T>)
    requires buffer > 0 && Sliced(chunk, left, ending, buffer) && ending.BufferFull?
    requires Reading(data, entries, line, chunk + left, buffer, lineCap, decode) && |line + chunk| <= lineCap
    ensures Reading(data, entries, line + chunk, left, buffer, lineCap, decode)
  {
    SliceFacts(line, chunk, left, ending, buffer);
  }

  lemma LineIsParsed<T>(
    data: seq<byte>, entries: seq<T>, line: seq<byte>, chunk: seq<byte>, left: seq<byte>, ending: Ending,
    buffer: nat, lineCap: nat, decode: seq<byte> -> Option<T>)
    requires buffer > 0 && Sliced(chunk, left, ending, buffer) && !ending.BufferFull?
    requires Reading(data, entries, line, chunk + left, buffer, lineCap, decode) && |line + chunk| <= lineCap
    requires ending.Delimited? ==> line + chunk != []
    ensures var parsed := ParseLine(entries, Body(line + chunk, ending), decode);
            if parsed.Some? then Reading(data, parsed.value, [], left, buffer, lineCap, decode)
            else Rows(data, lineCap, decode) == Err(Undecodable)
                 && FirstBad(data, buffer, lineCap, decode) == Some(|data| - |left|)
  {
    var rest := line + (chunk + left);
    SliceFacts(line, chunk, left, ending, buffer);
    RestIsParsed(data, entries, rest, buffer, lineCap, decode);
    LineText(line + chunk, left, ending);
    assert [] + left == left;
  }

  lemma LineText(text: seq<byte>, left: seq<byte>, ending: Ending)
    requires |text| == LineEnd(text + left) && (ending.EndOfFile? ==> left == [])
    requires ending.Delimited? <==> FirstLf(text + left) < |text + left|
    ensures (text + left)[LineEnd(text + left)..] == left
    ensures (text + left)[..FirstLf(text + left)] == if ending.Delimited? then text[..|text| - 1] else text
  {
  }

  /** Whatever the buffer size, the chunked loop yields exactly the file's rows
      or the first error; only a file without such an error is then measured
      against the total cap. `consumed` counts the bytes taken by then. */
  method ReadEntriesBounded<T>(
    data: seq<byte>, buffer: nat, lineCap: nat, totalCap: nat, decode: seq<byte> -> Option<T>)
    returns (r: Result<seq<T>, ReadError>, consumed: nat)
    requires buffer > 0
    ensures var rows := Rows(data, lineCap, decode);
            r == if rows.Ok? && |data| > totalCap then Err(FileTooLong) else rows
    ensures var bad := FirstBad(data, buffer, lineCap, decode);
            consumed == if bad.Some? then bad.value else |data|
  {
    var unread := data;
    var line: seq<byte> := [];
    var entries: seq<T> := [];
    var more := true;
    consumed := 0;
    ReadingStarts(data, buffer, lineCap, decode);
    while more
      invariant Reading(data, entries, line, unread, buffer, lineCap, decode)
      invariant consumed + |unread| == |data|
      invariant !more ==> line == [] && unread == []
      decreases more, |unread|
    {
      var chunk, left, ending := ReadSlice(unread, buffer);
      consumed := consumed + |chunk|;
      if |line + chunk| > lineCap {
        LineIsTooLong(data, entries, line, chunk, left, ending, buffer, lineCap, decode);
        return Err(LineTooLong), consumed;
      }
      if ending.BufferFull? {
        LineGoesOn(data, entries, line, chunk, left, ending, buffer, lineCap, decode);
        line, unread := line + chunk, left;
        continue;
      }
      LineIsParsed(data, entries, line, chunk, left, ending, buffer, lineCap, decode);
      var parsed := ParseLine(entries, Body(line + chunk, ending), decode);
      if parsed.None? {
        return Err(Undecodable), consumed;
      }
      entries, line, unread := parsed.value, [], left;
      more := !ending.EndOfFile?;
    }
    assert entries + [] == entries;
    if consumed > totalCap {
      return Err(FileTooLong), consumed;
    }
    return Ok(entries), consumed;
  }

  /** The bytes a read of the file takes. */
  function Consumed<T>(data: seq<byte>, buffer: nat, lineCap: nat, decode: seq<byte> -> Option<T>): nat
    requires buffer > 0
  {
    var bad := FirstBad(data, buffer, lineCap, decode);
    if bad.Some? then bad.value else |data|
  }

  /** The first bad line of the file is noticed within `cap` bytes. */
  predicate NoticedWithin<T>(data: seq<byte>, buffer: nat, lineCap: nat, cap: nat, decode: seq<byte> -> Option<T>)
    requires buffer > 0
  {
    FirstBad(data, buffer, lineCap, decode).Some? && FirstBad(data, buffer, lineCap, decode).value <= cap
  }

  /** The total cap is no read budget: a read stays within it exactly if the file
      does, or a bad line is noticed within it. */
  lemma ReadStaysWithinTotalCapExactly<T>(
    data: seq<byte>, buffer: nat, lineCap: nat, totalCap: nat, decode: seq<byte> -> Option<T>)
    requires buffer > 0
    ensures Consumed(data, buffer, lineCap, decode) <= totalCap
       <==> |data| <= totalCap || NoticedWithin(data, buffer, lineCap, totalCap, decode)
    ensures Rows(data, lineCap, decode).Ok? ==> Consumed(data, buffer, lineCap, decode) == |data|
  {
    FirstBadIsWithinFile(data, buffer, lineCap, decode);
  }

  /** Two blank lines under a total cap of one byte are read whole. */
  lemma CleanFileIsReadWhole<T>(buffer: nat, decode: seq<byte> -> Option<T>)
    requires buffer > 0
    ensures Rows([LF, LF], 1, decode) == Ok([]) && Consumed([LF, LF], buffer, 1, decode) == 2
  {
    assert [LF, LF][1..] == [LF] && [LF][1..] == [];
    assert Rows([LF], 1, decode) == Ok([]);
    FirstBadIsWithinFile([LF, LF], buffer, 1, decode);
  }

  // -------------------------------------------------------------------------
  // Reading back what was written

  /** What an append does to a file, unless the row is over the line cap. */
  function AppendLine(file: seq<byte>, encoded: seq<byte>, lineCap: nat): Option<seq<byte>> {
    if |encoded| + 1 > lineCap then None else Some(file + encoded + [LF])
  }

  predicate Terminated(file: seq<byte>) {
    file == [] || file[|file| - 1] == LF
  }

  /** The effect of one complete line in front of the rest. */
  function LineThen<T>(
    line: seq<byte>, lineCap: nat, decode: seq<byte> -> Option<T>, tail: Result<seq<T>, ReadError>)
    : Result<seq<T>, ReadError>
  {
    if |line| + 1 > lineCap then Err(LineTooLong)
    else if line == [] then tail
    else
      match decode(line)
      case None => Err(Undecodable)
      case Some(row) => Push(row, tail)
  }

  lemma RowsOfLine<T>(line: seq<byte>, rest: seq<byte>, lineCap: nat, decode: seq<byte> -> Option<T>)
    requires LF !in line
    ensures Rows(line + [LF] + rest, lineCap, decode) == LineThen(line, lineCap, decode, Rows(rest, lineCap, decode))
  {
    var data := line + [LF] + rest;
    assert data == line + ([LF] + rest);
    FirstLfOfPrefix(line, [LF] + rest);
    assert FirstLf([LF] + rest) == 0;
    assert data[..|line|] == line && data[|line| + 1..] == rest;
  }

  lemma LineThenFollowed<T>(
    line: seq<byte>, lineCap: nat, decode: seq<byte> -> Option<T>,
    front: Result<seq<T>, ReadError>, rest: Result<seq<T>, ReadError>)
    ensures LineThen(line, lineCap, decode, Followed(front, rest))
        == Followed(LineThen(line, lineCap, decode, front), rest)
  {
    if line != [] && decode(line).Some? && front.Ok? && rest.Ok? {
      var row := decode(line).value;
      assert [row] + (front.value + rest.value) == [row] + front.value + rest.value;
    }
  }

  lemma {:induction false} RowsOfConcat<T>(
    front: seq<byte>, rest: seq<byte>, lineCap: nat, decode: seq<byte> -> Option<T>)
    requires Terminated(front)
    ensures Rows(front + rest, lineCap, decode) == Followed(Rows(front, lineCap, decode), Rows(rest, lineCap, decode))
    ensures var first, second := Rows(front, lineCap, decode), Rows(rest, lineCap, decode);
            Rows(front + rest, lineCap, decode)
            == if first.Ok? && second.Ok? then Ok(first.value + second.value) else if first.Err? then first else second
    decreases |front|
  {
    if front == [] {
      assert front + rest == rest;
      var tail := Rows(rest, lineCap, decode);
      assert tail.Ok? ==> [] + tail.value == tail.value;
    } else {
      var line, others := CutLine(front);
      assert front + rest == line + [LF] + (others + rest);
      RowsOfLine(line, others, lineCap, decode);
      RowsOfLine(line, others + rest, lineCap, decode);
      RowsOfConcat(others, rest, lineCap, decode);
      LineThenFollowed(line, lineCap, decode, Rows(others, lineCap, decode), Rows(rest, lineCap, decode));
    }
  }

  /** A single line, with its line feed or without: what is read of it and what
      is wrong with it. */
  lemma SingleLine<T>(line: seq<byte>, lineCap: nat, decode: seq<byte> -> Option<T>)
    requires LF !in line
    ensures Rows(line + [LF], lineCap, decode)
         == if |line| >= lineCap then Err(LineTooLong)
            else if line == [] then Ok([])
            else if decode(line).None? then Err(Undecodable)
            else Ok([decode(line).value])
    ensures Rows(line, lineCap, decode)
         == if |line| > lineCap then Err(LineTooLong)
            else if line == [] then Ok([])
            else if decode(line).None? then Err(Undecodable)
            else Ok([decode(line).value])
  {
    RowsOfLine(line, [], lineCap, decode);
    assert line + [LF] + [] == line + [LF];
    FirstLfOfPrefix(line, []);
    assert line + [] == line && line[..|line|] == line;
    assert Rows([], lineCap, decode) == Ok([]);
    if line != [] && decode(line).Some? {
      assert [decode(line).value] + [] == [decode(line).value];
    }
  }

  lemma CutLine(file: seq<byte>) returns (line: seq<byte>, others: seq<byte>)
    requires file != [] && Terminated(file)
    ensures file == line + [LF] + others && LF !in line && Terminated(others)
  {
    var n := FirstLf(file);
    assert file[|file| - 1] in file[..|file|];
    line, others := file[..n], file[n + 1..];
  }

  /** An append takes every row that fits the line cap with its line feed, and
      the row is then read back after the rows before it, in order, under the
      same line cap. */
  lemma AppendedRowIsReadBack<T>(
    file: seq<byte>, encoded: seq<byte>, row: T, lineCap: nat, decode: seq<byte> -> Option<T>)
    requires Terminated(file) && Rows(file, lineCap, decode).Ok?
    requires encoded != [] && LF !in encoded && decode(encoded) == Some(row)
    ensures |encoded| >= lineCap ==> AppendLine(file, encoded, lineCap).None?
    ensures |encoded| < lineCap ==>
              var after := file + encoded + [LF];
              && AppendLine(file, encoded, lineCap) == Some(after)
              && Terminated(after) && Rows(after, lineCap, decode) == Ok(Rows(file, lineCap, decode).value + [row])
  {
    var line := encoded + [LF];
    assert file + encoded + [LF] == file + line;
    assert line == encoded + [LF] + [];
    RowsOfLine(encoded, [], lineCap, decode);
    assert [row] + [] == [row];
    if |encoded| < lineCap {
      assert Rows(line, lineCap, decode) == Ok([row]);
      RowsOfConcat(file, line, lineCap, decode);
    }
  }

  /** The rows a rewrite writes, one encoded line each. */
  function Written<T(!new)>(rows: seq<T>, encode: T -> seq<byte>): seq<byte> {
    if rows == [] then [] else Written(rows[..|rows| - 1], encode) + encode(rows[|rows| - 1]) + [LF]
  }

  /** Write then read is the identity within the caps. */
  lemma {:induction false} WriteThenRead<T(!new)>(
    rows: seq<T>, encode: T -> seq<byte>, lineCap: nat, decode: seq<byte> -> Option<T>)
    requires forall row :: row in rows ==>
               encode(row) != [] && LF !in encode(row) && decode(encode(row)) == Some(row)
                   && |encode(row)| + 1 <= lineCap
    ensures Terminated(Written(rows, encode)) && Rows(Written(rows, encode), lineCap, decode) == Ok(rows)
  {
    if rows != [] {
      var front, last := rows[..|rows| - 1], rows[|rows| - 1];
      WriteThenRead(front, encode, lineCap, decode);
      var file := Written(front, encode);
      assert Written(rows, encode) == AppendLine(file, encode(last), lineCap).value;
      AppendedRowIsReadBack(file, encode(last), last, lineCap, decode);
      assert rows == front + [last];
    }
  }

  /** A write torn before its line feed hides every row of the file, not just
      the torn one, as long as the fragment does not decode. */
  lemma TornTailFailsTheRead<T>(file: seq<byte>, fragment: seq<byte>, lineCap: nat, decode: seq<byte> -> Option<T>)
    requires Terminated(file) && Rows(file, lineCap, decode).Ok?
    requires fragment != [] && LF !in fragment && |fragment| <= lineCap
    ensures Rows(file + fragment, lineCap, decode).Err? <==> decode(fragment).None?
  {
    RowsOfConcat(file, fragment, lineCap, decode);
    FirstLfOfPrefix(fragment, []);
    assert fragment + [] == fragment && fragment[..|fragment|] == fragment;
  }

  /** The bytes of a record file: the put measures the encoding, the encoder
      then adds a line feed. */
  function StoreRecord(encoded: seq<byte>, cap: nat): Option<seq<byte>> {
    if |encoded| > cap then None else Some(encoded + [LF])
  }

  /** A reader takes one byte more than the cap and refuses when it gets it. */
  function FetchRecord(file: seq<byte>, cap: nat): Option<seq<byte>> {
    var data := file[..if |file| <= cap + 1 then |file| else cap + 1];
    if |data| > cap then None else Some(data)
  }

  /** The documented guarantee that every accepted record can be read back is
      missed by one byte: it holds strictly below the cap and fails at it. */
  lemma AcceptedRecordIsReadableStrictlyBelowCap(encoded: seq<byte>, cap: nat)
    ensures StoreRecord(encoded, cap) == if |encoded| <= cap then Some(encoded + [LF]) else None
    ensures FetchRecord(encoded + [LF], cap) == if |encoded| < cap then Some(encoded + [LF]) else None
  {
    var file := encoded + [LF];
    assert file[..|file|] == file;
  }
}
