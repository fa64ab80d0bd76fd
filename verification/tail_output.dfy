// The bounded tail of a command's output (command/tail_output.go).
module TailOutput {
  import opened Utf8
  import opened Sequences

  datatype Stream = Stdout | Stderr

  datatype Mark = Mark(stream: Stream, byte: Byte)

  datatype Chunk = Chunk(stream: Stream, data: seq<Byte>)

  // -------------------------------------------------------------------------
  // Output as bytes, each with its stream

  function Tag(stream: Stream, data: seq<Byte>): (r: seq<Mark>)
    ensures |r| == |data|
  {
    seq(|data|, i requires 0 <= i < |data| => Mark(stream, data[i]))
  }

  function Tagged(chunks: seq<Chunk>): seq<Mark> {
    if chunks == [] then [] else Tag(chunks[0].stream, chunks[0].data) + Tagged(chunks[1..])
  }

  /** The bytes of one stream. */
  function Only(marks: seq<Mark>, stream: Stream): seq<Byte> {
    if marks == [] then []
    else (if marks[0].stream == stream then [marks[0].byte] else []) + Only(marks[1..], stream)
  }

  function FirstRun(marks: seq<Mark>): (n: nat)
    ensures n <= |marks| && (marks != [] ==> n > 0)
    ensures forall i :: 0 <= i < n ==> marks[i].stream == marks[0].stream
    ensures n < |marks| ==> marks[n].stream != marks[0].stream
  {
    if marks == [] then 0
    else if |marks| > 1 && marks[1].stream == marks[0].stream then 1 + FirstRun(marks[1..])
    else 1
  }

  function Bytes(marks: seq<Mark>): (r: seq<Byte>)
    ensures |r| == |marks|
  {
    seq(|marks|, i requires 0 <= i < |marks| => marks[i].byte)
  }

  /** The interleaved view: each longest run of one stream redacted as one. */
  function Interleaved(marks: seq<Mark>, redact: seq<Byte> -> seq<Byte>): seq<Byte> {
    if marks == [] then []
    else
      var n := FirstRun(marks);
      redact(Bytes(marks[..n])) + Interleaved(marks[n..], redact)
  }

  lemma {:induction false} TaggedConcat(a: seq<Chunk>, b: seq<Chunk>)
    ensures Tagged(a + b) == Tagged(a) + Tagged(b)
  {
    if a == [] {
      assert a + b == b;
    } else {
      TaggedConcat(a[1..], b);
      assert (a + b)[1..] == a[1..] + b && (a + b)[0] == a[0];
      Regroup(Tag(a[0].stream, a[0].data), Tagged(a[1..]), Tagged(b));
    }
  }

  lemma TaggedOne(c: Chunk)
    ensures Tagged([c]) == Tag(c.stream, c.data)
  {
    assert Tagged([c][1..]) == [];
  }

  lemma {:induction false} OnlyConcat(a: seq<Mark>, b: seq<Mark>, stream: Stream)
    ensures Only(a + b, stream) == Only(a, stream) + Only(b, stream)
  {
    if a == [] {
      assert a + b == b;
    } else {
      OnlyConcat(a[1..], b, stream);
      assert (a + b)[1..] == a[1..] + b && (a + b)[0] == a[0];
    }
  }

  lemma {:induction false} OnlyTag(s: Stream, data: seq<Byte>, stream: Stream)
    ensures Only(Tag(s, data), stream) == if s == stream then data else []
  {
    if data != [] {
      OnlyTag(s, data[1..], stream);
      assert Tag(s, data)[1..] == Tag(s, data[1..]);
    }
  }

  /** A run that ends where another stream begins is redacted on its own. */
  lemma RunThenOther(s: Stream, run: seq<Byte>, rest: seq<Mark>, redact: seq<Byte> -> seq<Byte>)
    requires run != [] && (rest != [] ==> rest[0].stream != s)
    ensures Interleaved(Tag(s, run) + rest, redact) == redact(run) + Interleaved(rest, redact)
  {
    var marks := Tag(s, run) + rest;
    var n := FirstRun(marks);
    assert marks[0].stream == s;
    assert n < |marks| ==> marks[n].stream != s;
    assert |run| < |marks| ==> marks[|run|] == rest[0];
    assert n == |run|;
    assert Bytes(marks[..n]) == run;
    assert marks[n..] == rest;
  }

  // -------------------------------------------------------------------------
  // Eviction

  /** The first start of a character from index k on, or the end. */
  function FirstStart(data: seq<Byte>, k: nat): (start: nat)
    requires k <= |data|
    ensures k <= start <= |data| && (start < |data| ==> RuneStart(data[start]))
    decreases |data| - k
  {
    if k == |data| || RuneStart(data[k]) then k else FirstStart(data, k + 1)
  }

  /** How far a cut moves to reach the start of a character. */
  method HeadRuneCut(data: seq<Byte>, limit: nat) returns (cut: nat)
    requires limit <= |data|
    ensures cut == FirstStart(data, limit)
    ensures forall i :: limit <= i < cut ==> Tail(data[i])
    ensures Valid(data) ==> cut <= limit + 3 && Valid(data[cut..])
  {
    cut := limit;
    while cut < |data| && !RuneStart(data[cut])
      invariant limit <= cut <= |data| && FirstStart(data, cut) == FirstStart(data, limit)
      invariant forall i :: limit <= i < cut ==> Tail(data[i])
    {
      cut := cut + 1;
    }
    if Valid(data) {
      StartIsNear(data, limit, cut);
      CutAtStart(data, cut);
    }
  }

  ghost predicate Suffix(tail: seq<Mark>, all: seq<Mark>) {
    |tail| <= |all| && tail == all[|all| - |tail|..]
  }

  lemma SuffixTrans(a: seq<Mark>, b: seq<Mark>, c: seq<Mark>)
    requires Suffix(a, b) && Suffix(b, c)
    ensures Suffix(a, c)
  {
  }

  lemma SuffixGrows(tail: seq<Mark>, all: seq<Mark>, more: seq<Mark>)
    requires Suffix(tail, all)
    ensures Suffix(tail + more, all + more)
  {
  }

  /** Only the oldest chunk may have lost all its bytes. */
  predicate Packed(chunks: seq<Chunk>) {
    forall i :: 1 <= i < |chunks| ==> chunks[i].data != []
  }

  predicate AllValid(chunks: seq<Chunk>) {
    forall i :: 0 <= i < |chunks| ==> Valid(chunks[i].data)
  }

  function TrimHead(chunks: seq<Chunk>, cut: nat): seq<Chunk>
    requires chunks != [] && cut <= |chunks[0].data|
  {
    [Chunk(chunks[0].stream, chunks[0].data[cut..])] + chunks[1..]
  }

  lemma TrimmedHead(chunks: seq<Chunk>, cut: nat)
    requires chunks != [] && cut <= |chunks[0].data|
    ensures Suffix(Tagged(TrimHead(chunks, cut)), Tagged(chunks))
    ensures |Tagged(TrimHead(chunks, cut))| == |Tagged(chunks)| - cut
  {
    var c := chunks[0];
    assert TrimHead(chunks, cut)[1..] == chunks[1..];
    assert Tag(c.stream, c.data)[cut..] == Tag(c.stream, c.data[cut..]);
  }

  /** The last cut, inside the oldest chunk. */
  lemma CutHead(chunks: seq<Chunk>, over: nat, cut: nat, all: seq<Chunk>)
    requires chunks != [] && over <= cut <= |chunks[0].data| && Packed(chunks)
    requires Suffix(Tagged(chunks), Tagged(all))
    requires Valid(chunks[0].data) ==> cut <= over + 3 && Valid(chunks[0].data[cut..])
    ensures Suffix(Tagged(TrimHead(chunks, cut)), Tagged(all)) && Packed(TrimHead(chunks, cut))
    ensures |Tagged(TrimHead(chunks, cut))| == |Tagged(chunks)| - cut
    ensures AllValid(chunks) ==> AllValid(TrimHead(chunks, cut)) && cut <= over + 3
  {
    TrimmedHead(chunks, cut);
    SuffixTrans(Tagged(TrimHead(chunks, cut)), Tagged(chunks), Tagged(all));
    assert AllValid(chunks) ==> Valid(chunks[0].data);
  }

  /** Dropping the oldest chunk as a whole. */
  lemma DropHead(chunks: seq<Chunk>, all: seq<Chunk>)
    requires chunks != [] && Packed(chunks) && Suffix(Tagged(chunks), Tagged(all))
    ensures Suffix(Tagged(chunks[1..]), Tagged(all)) && Packed(chunks[1..])
    ensures |Tagged(chunks[1..])| == |Tagged(chunks)| - |chunks[0].data|
    ensures AllValid(chunks) ==> AllValid(chunks[1..])
  {
    assert Tagged(chunks)[|chunks[0].data|..] == Tagged(chunks[1..]);
    SuffixTrans(Tagged(chunks[1..]), Tagged(chunks), Tagged(all));
  }

  /** What the tail holds of everything written: the newest bytes, all of them
      while they fit the budget, and of whole text never a partial character
      at the front and at most three bytes less than the budget. */
  ghost predicate Holds(budget: nat, chunks: seq<Chunk>, truncated: bool, written: seq<Mark>, whole: bool) {
    && |Tagged(chunks)| <= budget
    && Suffix(Tagged(chunks), written)
    && (truncated <==> |written| > budget)
    && (!truncated ==> Tagged(chunks) == written)
    && Packed(chunks)
    && (whole ==> AllValid(chunks) && (truncated ==> |Tagged(chunks)| + 3 >= budget))
  }

  /** The newest bytes within budget; what is missing beyond the budget is the
      rest of a character that no longer fits. */
  ghost predicate Trimmed(budget: nat, all: seq<Mark>, tail: seq<Mark>) {
    && |tail| <= budget && Suffix(tail, all)
    && (|all| <= budget ==> tail == all)
    && (|all| > budget ==> Tails(all[|all| - budget..|all| - |tail|]))
  }

  predicate Tails(marks: seq<Mark>) {
    forall i :: 0 <= i < |marks| ==> Tail(marks[i].byte)
  }

  /** What eviction does to a list of chunks. */
  ghost predicate Evicted(budget: nat, before: seq<Chunk>, after: seq<Chunk>, dropped: bool) {
    && Trimmed(budget, Tagged(before), Tagged(after))
    && Packed(after)
    && (dropped <==> |Tagged(before)| > budget)
    && (!dropped ==> after == before)
    && (AllValid(before) ==> AllValid(after) && (dropped ==> |Tagged(after)| + 3 >= budget))
  }

  /** Cutting the oldest chunk at a character start trims as allowed. */
  lemma CutIsTrimmed(budget: nat, chunks: seq<Chunk>, cut: nat, all: seq<Chunk>)
    requires chunks != [] && Suffix(Tagged(chunks), Tagged(all)) && |Tagged(chunks)| > budget
    requires |Tagged(chunks)| - budget <= cut <= |chunks[0].data|
    requires forall i :: |Tagged(chunks)| - budget <= i < cut ==> Tail(chunks[0].data[i])
    ensures Trimmed(budget, Tagged(all), Tagged(TrimHead(chunks, cut)))
  {
    TrimmedHead(chunks, cut);
    SuffixTrans(Tagged(TrimHead(chunks, cut)), Tagged(chunks), Tagged(all));
    var over, gone := |Tagged(chunks)| - budget, |Tagged(all)| - |Tagged(chunks)|;
    var rests := Tagged(all)[|Tagged(all)| - budget..|Tagged(all)| - |Tagged(TrimHead(chunks, cut))|];
    forall i | 0 <= i < |rests| ensures Tail(rests[i].byte) {
      assert rests[i] == Tagged(all)[gone + over + i] == Tagged(chunks)[over + i];
      assert Tagged(chunks)[over + i] == Mark(chunks[0].stream, chunks[0].data[over + i]);
    }
  }

  lemma WriteKeepsTail(budget: nat, chunks: seq<Chunk>, truncated: bool, written: seq<Mark>, whole: bool,
                       stream: Stream, p: seq<Byte>, after: seq<Chunk>, dropped: bool)
    requires Holds(budget, chunks, truncated, written, whole)
    requires Evicted(budget, chunks + [Chunk(stream, p)], after, dropped)
    ensures Holds(budget, after, truncated || dropped, written + Tag(stream, p), whole && Valid(p))
  {
    var appended := chunks + [Chunk(stream, p)];
    TaggedConcat(chunks, [Chunk(stream, p)]);
    TaggedOne(Chunk(stream, p));
    SuffixGrows(Tagged(chunks), written, Tag(stream, p));
    SuffixTrans(Tagged(after), Tagged(appended), written + Tag(stream, p));
  }

  lemma NothingKept(budget: nat, chunks: seq<Chunk>, truncated: bool, written: seq<Mark>, whole: bool, stream: Stream)
    requires Holds(budget, chunks, truncated, written, whole)
    ensures Holds(budget, chunks, truncated, written + Tag(stream, []), whole && Valid([]))
    ensures Trimmed(budget, Tagged(chunks) + Tag(stream, []), Tagged(chunks))
  {
    assert written + Tag(stream, []) == written;
    assert Tagged(chunks) + Tag(stream, []) == Tagged(chunks);
  }

  lemma AppendedBytes(chunks: seq<Chunk>, stream: Stream, p: seq<Byte>)
    ensures Tagged(chunks + [Chunk(stream, p)]) == Tagged(chunks) + Tag(stream, p)
  {
    TaggedConcat(chunks, [Chunk(stream, p)]);
    TaggedOne(Chunk(stream, p));
  }

  /** The tail of whole text starts at the start of a character. */
  lemma {:induction false} StartsAtStart(chunks: seq<Chunk>)
    requires AllValid(chunks)
    ensures Tagged(chunks) != [] ==> RuneStart(Tagged(chunks)[0].byte)
  {
    if chunks != [] {
      StartsAtStart(chunks[1..]);
      var data := chunks[0].data;
      if data != [] {
        assert Valid(data);
        assert Tagged(chunks)[0] == Mark(chunks[0].stream, data[0]);
      }
    }
  }

  /** How many bytes go when the chunks hold `over` too many: whole chunks, and
      in the last one up to the start of a character. */
  function Dropped(chunks: seq<Chunk>, over: int): (gone: nat)
    ensures gone <= |Tagged(chunks)| && (over <= 0 ==> gone == 0)
  {
    if chunks == [] || over <= 0 then 0
    else if over >= |chunks[0].data| then |chunks[0].data| + Dropped(chunks[1..], over - |chunks[0].data|)
    else FirstStart(chunks[0].data, over)
  }

  lemma TrimLeaves(chunks: seq<Chunk>, over: nat, cut: nat)
    requires chunks != [] && 0 < over < |chunks[0].data| && cut == FirstStart(chunks[0].data, over)
    ensures cut == Dropped(chunks, over) && |Tagged(TrimHead(chunks, cut))| == |Tagged(chunks)| - Dropped(chunks, over)
  {
    TrimmedHead(chunks, cut);
  }

  /** All that the last cut does. */
  lemma LastCut(budget: nat, chunks: seq<Chunk>, over: nat, cut: nat, all: seq<Chunk>)
    requires chunks != [] && 0 < over < |chunks[0].data| && cut == FirstStart(chunks[0].data, over)
    requires forall i :: over <= i < cut ==> Tail(chunks[0].data[i])
    requires Valid(chunks[0].data) ==> cut <= over + 3 && Valid(chunks[0].data[cut..])
    requires Packed(chunks) && Suffix(Tagged(chunks), Tagged(all)) && |Tagged(chunks)| == budget + over
    requires AllValid(all) ==> AllValid(chunks)
    ensures var after := TrimHead(chunks, cut);
            && Evicted(budget, all, after, true)
            && |Tagged(after)| == |Tagged(chunks)| - cut && cut == Dropped(chunks, over)
  {
    TrimLeaves(chunks, over, cut);
    CutHead(chunks, over, cut, all);
    CutIsTrimmed(budget, chunks, cut, all);
  }

  // When a cut leaves part of a character

  /** Nothing is left, or a character starts what is left. */
  predicate StartsWhole(chunks: seq<Chunk>, gone: nat) {
    gone < |Tagged(chunks)| ==> RuneStart(Tagged(chunks)[gone].byte)
  }

  predicate AllStart(chunks: seq<Chunk>) {
    forall i :: 0 <= i < |chunks| && chunks[i].data != [] ==> RuneStart(chunks[i].data[0])
  }

  /** Every write but the oldest still held starts with a character. */
  predicate Joins(chunks: seq<Chunk>) {
    chunks != [] ==> if chunks[0].data == [] then Joins(chunks[1..]) else AllStart(chunks[1..])
  }

  lemma StartsLater(chunks: seq<Chunk>, gone: nat)
    requires chunks != [] && gone >= |chunks[0].data|
    ensures StartsWhole(chunks, gone) <==> StartsWhole(chunks[1..], gone - |chunks[0].data|)
  {
  }

  lemma StartsInHead(chunks: seq<Chunk>, gone: nat)
    requires chunks != [] && gone < |chunks[0].data|
    ensures StartsWhole(chunks, gone) <==> RuneStart(chunks[0].data[gone])
  {
  }

  lemma {:induction false} AllStartIsEnough(chunks: seq<Chunk>, over: int)
    requires AllStart(chunks)
    ensures StartsWhole(chunks, Dropped(chunks, over))
    decreases |chunks|
  {
    if chunks != [] {
      var n := |chunks[0].data|;
      if over >= n || n == 0 {
        AllStartIsEnough(chunks[1..], over - n);
        StartsLater(chunks, Dropped(chunks, over));
      } else {
        HeadOrRest(chunks, over);
      }
    }
  }

  /** A cut inside the oldest chunk, or no cut. */
  lemma HeadOrRest(chunks: seq<Chunk>, over: int)
    requires chunks != [] && chunks[0].data != [] && over < |chunks[0].data| && AllStart(chunks[1..])
    requires over > 0 || RuneStart(chunks[0].data[0])
    ensures StartsWhole(chunks, Dropped(chunks, over))
  {
    var gone := Dropped(chunks, over);
    if gone < |chunks[0].data| {
      StartsInHead(chunks, gone);
    } else {
      StartsLater(chunks, gone);
      FirstOfAll(chunks[1..]);
    }
  }

  lemma {:induction false} FirstOfAll(chunks: seq<Chunk>)
    requires AllStart(chunks)
    ensures StartsWhole(chunks, 0)
  {
    if chunks != [] {
      if chunks[0].data == [] {
        FirstOfAll(chunks[1..]);
        StartsLater(chunks, 0);
      } else {
        StartsInHead(chunks, 0);
      }
    }
  }

  lemma {:induction false} JoinsIsEnough(chunks: seq<Chunk>, over: int)
    requires Joins(chunks) && over > 0
    ensures StartsWhole(chunks, Dropped(chunks, over))
    decreases |chunks|
  {
    if chunks != [] {
      var n := |chunks[0].data|;
      if n == 0 {
        JoinsIsEnough(chunks[1..], over);
        StartsLater(chunks, Dropped(chunks, over));
      } else if over >= n {
        AllStartIsEnough(chunks[1..], over - n);
        StartsLater(chunks, Dropped(chunks, over));
      } else {
        HeadOrRest(chunks, over);
      }
    }
  }

  /** The write that starts inside a character, by what lies in front of it. */
  lemma {:induction false} PartialStart(chunks: seq<Chunk>) returns (over: nat)
    requires !AllStart(chunks)
    ensures over < |Tagged(chunks)| && Dropped(chunks, over) == over && !StartsWhole(chunks, over)
    decreases |chunks|
  {
    var n := |chunks[0].data|;
    if n > 0 && !RuneStart(chunks[0].data[0]) {
      StartsInHead(chunks, 0);
      return 0;
    }
    over := PartialStart(chunks[1..]);
    over := n + over;
    StartsLater(chunks, over);
  }

  lemma {:induction false} PartialJoin(chunks: seq<Chunk>) returns (over: nat)
    requires !Joins(chunks)
    ensures 0 < over < |Tagged(chunks)| && Dropped(chunks, over) == over && !StartsWhole(chunks, over)
    decreases |chunks|
  {
    var n := |chunks[0].data|;
    if n == 0 {
      over := PartialJoin(chunks[1..]);
    } else {
      over := PartialStart(chunks[1..]);
    }
    over := n + over;
    StartsLater(chunks, over);
  }

  /** Eviction keeps characters whole at the front, whatever the budget, exactly
      if every write but the oldest one held starts with a character. */
  lemma EvictionKeepsCharactersExactly(chunks: seq<Chunk>)
    ensures (forall over :: 0 < over <= |Tagged(chunks)| ==> StartsWhole(chunks, Dropped(chunks, over)))
        <==> Joins(chunks)
  {
    if Joins(chunks) {
      forall over | 0 < over <= |Tagged(chunks)| ensures StartsWhole(chunks, Dropped(chunks, over)) {
        JoinsIsEnough(chunks, over);
      }
    } else {
      var over := PartialJoin(chunks);
    }
  }

  /** Two writes that split one character: the second half is what is left. */
  lemma SplitCharacterIsCut()
    ensures var chunks := [Chunk(Stdout, [0xC3]), Chunk(Stdout, [0xA9])];
            Dropped(chunks, 1) == 1 && !StartsWhole(chunks, 1)
  {
    var chunks := [Chunk(Stdout, [0xC3]), Chunk(Stdout, [0xA9])];
    StartsLater(chunks, 1);
    assert chunks[1..] == [Chunk(Stdout, [0xA9])];
    StartsInHead(chunks[1..], 0);
    assert Dropped(chunks[1..], 0) == 0;
  }

  class OutputTail {
    const budget: nat
    const redact: seq<Byte> -> seq<Byte>
    var chunks: seq<Chunk>
    var keptBytes: nat
    var truncated: bool
    /** What each stream's digest has consumed. */
    var hashedOut: seq<Byte>
    var hashedErr: seq<Byte>
    /** Everything written so far, and whether every write was whole text. */
    ghost var written: seq<Mark>
    ghost var whole: bool

    ghost predicate Invariant()
      reads this
    {
      && keptBytes == |Tagged(chunks)|
      && Holds(budget, chunks, truncated, written, whole)
      && hashedOut == Only(written, Stdout) && hashedErr == Only(written, Stderr)
    }

    constructor (requested: int, redact: seq<Byte> -> seq<Byte>)
      ensures Invariant() && written == [] && whole && this.redact == redact
      ensures budget == if requested <= 0 then 200000 else requested
    {
      budget := if requested <= 0 then 200000 else requested;
      this.redact := redact;
      chunks, keptBytes, truncated, hashedOut, hashedErr, written, whole := [], 0, false, [], [], [], true;
    }

    /** A write keeps the newest bytes of everything written, whatever the
        stream and wherever it must cut. */
    method Write(stream: Stream, p: seq<Byte>)
      requires Invariant()
      modifies this
      ensures Invariant()
      ensures written == old(written) + Tag(stream, p) && whole == (old(whole) && Valid(p))
      ensures Trimmed(budget, Tagged(old(chunks)) + Tag(stream, p), Tagged(chunks))
    {
      HashWrite(stream, p);
      Store(stream, p);
    }

    method HashWrite(stream: Stream, p: seq<Byte>)
      requires hashedOut == Only(written, Stdout) && hashedErr == Only(written, Stderr)
      modifies this`hashedOut, this`hashedErr
      ensures hashedOut == Only(written + Tag(stream, p), Stdout)
      ensures hashedErr == Only(written + Tag(stream, p), Stderr)
    {
      HashGrows(written, stream, p);
      if stream.Stdout? {
        hashedOut := hashedOut + p;
      } else {
        hashedErr := hashedErr + p;
      }
    }

    /** An empty write stores nothing. */
    method Store(stream: Stream, p: seq<Byte>)
      requires keptBytes == |Tagged(chunks)| && Holds(budget, chunks, truncated, written, whole)
      modifies this`chunks, this`keptBytes, this`truncated, this`written, this`whole
      ensures keptBytes == |Tagged(chunks)| && Holds(budget, chunks, truncated, written, whole)
      ensures written == old(written) + Tag(stream, p) && whole == (old(whole) && Valid(p))
      ensures Trimmed(budget, Tagged(old(chunks)) + Tag(stream, p), Tagged(chunks))
    {
      if |p| > 0 {
        Keep(stream, p);
      } else {
        NothingKept(budget, chunks, truncated, written, whole, stream);
        assert p == [];
      }
      whole := whole && Valid(p);
      written := written + Tag(stream, p);
    }

    /** Appends the new bytes and drops the oldest over budget. */
    method Keep(stream: Stream, p: seq<Byte>)
      requires keptBytes == |Tagged(chunks)| && Holds(budget, chunks, truncated, written, whole) && p != []
      modifies this`chunks, this`keptBytes, this`truncated
      ensures keptBytes == |Tagged(chunks)|
      ensures Holds(budget, chunks, truncated, written + Tag(stream, p), whole && Valid(p))
      ensures Trimmed(budget, Tagged(old(chunks)) + Tag(stream, p), Tagged(chunks))
    {
      AppendedBytes(chunks, stream, p);
      Append(stream, p);
      ghost var dropped := keptBytes > budget;
      Evict();
      WriteKeepsTail(budget, old(chunks), old(truncated), written, whole, stream, p, chunks, dropped);
    }

    method Append(stream: Stream, p: seq<Byte>)
      requires keptBytes == |Tagged(chunks)| && Packed(chunks) && p != []
      modifies this`chunks, this`keptBytes
      ensures chunks == old(chunks) + [Chunk(stream, p)] && Packed(chunks)
      ensures keptBytes == |Tagged(chunks)|
    {
      AppendedBytes(chunks, stream, p);
      chunks := chunks + [Chunk(stream, p)];
      keptBytes := keptBytes + |p|;
    }

    /** Drops the oldest bytes, at the start of a character, until the rest
        fits the budget. */
    method Evict()
      requires keptBytes == |Tagged(chunks)| && Packed(chunks)
      modifies this`chunks, this`keptBytes, this`truncated
      ensures keptBytes == |Tagged(chunks)|
      ensures Evicted(budget, old(chunks), chunks, old(keptBytes) > budget)
      ensures keptBytes == old(keptBytes) - Dropped(old(chunks), old(keptBytes) - budget)
      ensures truncated == (old(truncated) || old(keptBytes) > budget)
    {
      ghost var dropped := false;
      ghost var goal := keptBytes - Dropped(chunks, keptBytes - budget);
      while keptBytes > budget && |chunks| > 0
        invariant keptBytes == |Tagged(chunks)|
        invariant Suffix(Tagged(chunks), Tagged(old(chunks))) && Packed(chunks)
        invariant AllValid(old(chunks)) ==> AllValid(chunks)
        invariant if dropped then old(keptBytes) > budget && keptBytes >= budget else chunks == old(chunks)
        invariant truncated == (old(truncated) || dropped)
        invariant keptBytes - Dropped(chunks, keptBytes - budget) == goal
      {
        var over := keptBytes - budget;
        if over < |chunks[0].data| {
          var cut := HeadRuneCut(chunks[0].data, over);
          LastCut(budget, chunks, over, cut, old(chunks));
          chunks := TrimHead(chunks, cut);
          keptBytes := keptBytes - cut;
          truncated := true;
          return;
        }
        DropHead(chunks, old(chunks));
        keptBytes := keptBytes - |chunks[0].data|;
        chunks := chunks[1..];
        truncated := true;
        dropped := true;
      }
    }

    /** Each stream's text: its bytes of the tail, redacted as one. */
    method Snapshot() returns (stdout: seq<Byte>, stderr: seq<Byte>, cut: bool)
      requires Invariant()
      ensures stdout == redact(Only(Tagged(chunks), Stdout)) && stderr == redact(Only(Tagged(chunks), Stderr))
      ensures cut <==> |written| > budget
      ensures !cut ==> stdout == redact(Only(written, Stdout)) && stderr == redact(Only(written, Stderr))
    {
      var out, err := [], [];
      for i := 0 to |chunks|
        invariant out == Only(Tagged(chunks[..i]), Stdout) && err == Only(Tagged(chunks[..i]), Stderr)
      {
        OnlyOfNext(chunks, i, Stdout);
        OnlyOfNext(chunks, i, Stderr);
        if chunks[i].stream.Stderr? {
          err := err + chunks[i].data;
        } else {
          out := out + chunks[i].data;
        }
      }
      assert chunks[..|chunks|] == chunks;
      return redact(out), redact(err), truncated;
    }

    /** The interleaved text depends on the tail's bytes alone, not on the
        chunks they came in. */
    method CombinedText() returns (combined: seq<Byte>)
      requires Invariant()
      ensures combined == Interleaved(Tagged(chunks), redact)
      ensures |written| <= budget ==> combined == Interleaved(written, redact)
    {
      combined := [];
      var run: seq<Byte> := [];
      var runStream := Stdout;
      var i := 0;
      AssemblyStarts(chunks, redact);
      while i < |chunks|
        invariant i <= |chunks| && (i == 0 ==> run == [])
        invariant Assembling(combined, runStream, run, chunks, i, redact)
      {
        AssemblyGoesOn(combined, runStream, run, chunks, i, redact);
        if chunks[i].stream != runStream {
          if |run| > 0 {
            combined := combined + redact(run);
          }
          run := [];
          runStream := chunks[i].stream;
        }
        run := run + chunks[i].data;
        i := i + 1;
      }
      AssemblyEnds(combined, runStream, run, chunks, redact);
      if |run| > 0 {
        combined := combined + redact(run);
      }
    }

    /** The digest covers everything written, however it was split and however
        much of it was dropped. */
    function ComposedSum(sum: seq<Byte> -> seq<Byte>): seq<Byte>
      reads this
    {
      sum(sum(hashedOut) + [10] + sum(hashedErr))
    }

    lemma SumCoversEverything(sum: seq<Byte> -> seq<Byte>)
      requires Invariant()
      ensures ComposedSum(sum) == sum(sum(Only(written, Stdout)) + [10] + sum(Only(written, Stderr)))
    {
    }
  }

  lemma OnlyOfNext(chunks: seq<Chunk>, i: nat, stream: Stream)
    requires i < |chunks|
    ensures Only(Tagged(chunks[..i + 1]), stream)
         == if chunks[i].stream == stream
            then Only(Tagged(chunks[..i]), stream) + chunks[i].data
            else Only(Tagged(chunks[..i]), stream)
  {
    assert chunks[..i + 1] == chunks[..i] + [chunks[i]];
    TaggedConcat(chunks[..i], [chunks[i]]);
    TaggedOne(chunks[i]);
    HashGrows(Tagged(chunks[..i]), chunks[i].stream, chunks[i].data);
  }

  lemma FlushRun(combined: seq<Byte>, stream: Stream, run: seq<Byte>, rest: seq<Chunk>, redact: seq<Byte> -> seq<Byte>)
    requires rest != [] && rest[0].stream != stream && (rest[0].data != [] || run == [])
    ensures combined + Interleaved(Tag(stream, run) + Tagged(rest), redact)
         == (if run == [] then combined else combined + redact(run))
            + Interleaved(Tag(rest[0].stream, []) + Tagged(rest), redact)
  {
    assert Tag(stream, []) + Tagged(rest) == Tagged(rest) == Tag(rest[0].stream, []) + Tagged(rest);
    if run != [] {
      RunThenOther(stream, run, Tagged(rest), redact);
    }
  }

  lemma FlushLast(stream: Stream, run: seq<Byte>, redact: seq<Byte> -> seq<Byte>)
    ensures Interleaved(Tag(stream, run) + Tagged([]), redact) == if run == [] then [] else redact(run)
  {
    if run != [] {
      RunThenOther(stream, run, [], redact);
    }
  }

  /** Between two chunks: the finished runs, the open run, and what is to come. */
  ghost predicate Assembling(combined: seq<Byte>, stream: Stream, run: seq<Byte>, chunks: seq<Chunk>, i: nat,
                             redact: seq<Byte> -> seq<Byte>)
    requires i <= |chunks|
  {
    combined + Interleaved(Tag(stream, run) + Tagged(chunks[i..]), redact) == Interleaved(Tagged(chunks), redact)
  }

  lemma AssemblyStarts(chunks: seq<Chunk>, redact: seq<Byte> -> seq<Byte>)
    ensures Assembling([], Stdout, [], chunks, 0, redact)
  {
    assert Tag(Stdout, []) + Tagged(chunks) == Tagged(chunks);
    assert chunks[0..] == chunks;
  }

  lemma AssemblyGoesOn(combined: seq<Byte>, stream: Stream, run: seq<Byte>, chunks: seq<Chunk>, i: nat,
                       redact: seq<Byte> -> seq<Byte>)
    requires i < |chunks| && Assembling(combined, stream, run, chunks, i, redact)
    requires Packed(chunks) && (i == 0 ==> run == [])
    ensures var c := chunks[i];
            if c.stream == stream then Assembling(combined, stream, run + c.data, chunks, i + 1, redact)
            else
              Assembling(if run == [] then combined else combined + redact(run),
                         c.stream, [] + c.data, chunks, i + 1, redact)
  {
    var c := chunks[i];
    var rest := chunks[i..];
    assert rest[0] == c && rest[1..] == chunks[i + 1..];
    if c.stream == stream {
      TakeChunk(run, c, Tagged(rest[1..]));
    } else {
      FlushRun(combined, stream, run, rest, redact);
      TakeChunk([], c, Tagged(rest[1..]));
    }
  }

  lemma AssemblyEnds(combined: seq<Byte>, stream: Stream, run: seq<Byte>, chunks: seq<Chunk>,
                     redact: seq<Byte> -> seq<Byte>)
    requires Assembling(combined, stream, run, chunks, |chunks|, redact)
    ensures (if run == [] then combined else combined + redact(run)) == Interleaved(Tagged(chunks), redact)
  {
    FlushLast(stream, run, redact);
    assert chunks[|chunks|..] == [];
  }

  lemma TakeChunk(run: seq<Byte>, chunk: Chunk, rest: seq<Mark>)
    ensures Tag(chunk.stream, run) + (Tag(chunk.stream, chunk.data) + rest)
        == Tag(chunk.stream, run + chunk.data) + rest
  {
  }

  lemma HashGrows(written: seq<Mark>, stream: Stream, p: seq<Byte>)
    ensures forall s ::
              Only(written + Tag(stream, p), s) == if s == stream then Only(written, s) + p else Only(written, s)
  {
    forall s
      ensures Only(written + Tag(stream, p), s) == if s == stream then Only(written, s) + p else Only(written, s)
    {
      OnlyConcat(written, Tag(stream, p), s);
      OnlyTag(stream, p, s);
    }
  }

  // -------------------------------------------------------------------------
  // Splitting a write

  /** Everything a reader of the two tails can see, or a digest can show. */
  ghost predicate LookAlike(one: OutputTail, two: OutputTail)
    reads one, two
  {
    && (forall stream :: one.redact(Only(Tagged(one.chunks), stream)) == two.redact(Only(Tagged(two.chunks), stream)))
    && Interleaved(Tagged(one.chunks), one.redact) == Interleaved(Tagged(two.chunks), two.redact)
    && one.truncated == two.truncated
    && forall sum :: one.ComposedSum(sum) == two.ComposedSum(sum)
  }

  lemma EqualHistoriesLookAlike(one: OutputTail, two: OutputTail)
    requires one.Invariant() && two.Invariant() && one.budget == two.budget && one.redact == two.redact
    requires one.written == two.written && |one.written| <= one.budget
    ensures LookAlike(one, two)
  {
  }

  /** The same output in one write and in two: while nothing is evicted, no
      view, flag or digest tells them apart. */
  method WriteWholeAndSplit(one: OutputTail, two: OutputTail, stream: Stream, a: seq<Byte>, b: seq<Byte>)
    requires one != two && one.Invariant() && two.Invariant() && one.budget == two.budget && one.redact == two.redact
    requires one.written == two.written && |one.written| + |a| + |b| <= one.budget
    modifies one, two
    ensures one.Invariant() && two.Invariant() && LookAlike(one, two)
    ensures one.written == two.written == old(one.written) + Tag(stream, a + b)
  {
    one.Write(stream, a + b);
    two.Write(stream, a);
    two.Write(stream, b);
    SplitTag(old(one.written), stream, a, b);
    EqualHistoriesLookAlike(one, two);
  }

  lemma SplitTag(written: seq<Mark>, stream: Stream, a: seq<Byte>, b: seq<Byte>)
    ensures written + Tag(stream, a + b) == written + Tag(stream, a) + Tag(stream, b)
  {
    assert Tag(stream, a + b) == Tag(stream, a) + Tag(stream, b);
  }
}
