// The directory walk under file and byte budgets (filesystem/walk.go), against
// the unbounded sorted preorder walk with the same filters.
module TreeWalk {
  import opened Sequences

  /** Leaves are regular files, with their size, and everything a walk does not
      enter; children come in whatever order the directory lists them. */
  datatype Node = Regular(size: int) | Other | Dir(children: seq<Entry>)

  datatype Entry = Entry(name: string, node: Node)

  datatype Options = Options(
    maxDepth: int, showHidden: bool, explicit: bool, scanFiles: nat, scanBytes: nat,
    ignored: (seq<string>, bool) -> bool)

  datatype Item = Item(rel: seq<string>, depth: nat, node: Node)

  const SKIPPED := {
    ".git", ".hg", ".svn", ".cache", ".mypy_cache", ".pytest_cache", ".ruff_cache", ".venv", "__pycache__",
    "build", "dist", "node_modules", "target", "vendor", "venv" }

  // -------------------------------------------------------------------------
  // Sorting by name

  predicate Le(a: string, b: string) {
    a == "" || (b != "" && (a[0] < b[0] || (a[0] == b[0] && Le(a[1..], b[1..]))))
  }

  lemma {:induction false} LeIsTotal(a: string, b: string)
    ensures Le(a, b) || Le(b, a)
  {
    if a != "" && b != "" { LeIsTotal(a[1..], b[1..]); }
  }

  /** The two names agree up to k, where the first ends or has the lower
      character. */
  predicate LowerAt(a: string, b: string, k: nat) {
    k <= |a| && k <= |b| && a[..k] == b[..k] && (k == |a| || (k < |b| && a[k] < b[k]))
  }

  /** Names ascend, as their characters do where they first differ. */
  lemma {:induction false} LeIsLexicographic(a: string, b: string)
    ensures Le(a, b) <==> exists k: nat :: LowerAt(a, b, k)
  {
    if a == "" {
      assert LowerAt(a, b, 0);
    } else if b != "" && a[0] == b[0] {
      LeIsLexicographic(a[1..], b[1..]);
      forall k: nat ensures LowerAt(a[1..], b[1..], k) <==> LowerAt(a, b, k + 1) { LowerAfterHead(a, b, k); }
      assert !LowerAt(a, b, 0);
      if k: nat :| LowerAt(a, b, k) { assert LowerAt(a[1..], b[1..], k - 1); }
    } else {
      if b != "" && a[0] < b[0] { assert LowerAt(a, b, 0); }
      if k: nat :| LowerAt(a, b, k) { assert k > 0 ==> a[..k][0] == b[..k][0]; }
    }
  }

  lemma LowerAfterHead(a: string, b: string, k: nat)
    requires a != "" && b != "" && a[0] == b[0]
    ensures LowerAt(a[1..], b[1..], k) <==> LowerAt(a, b, k + 1)
  {
    if k + 1 <= |a| && k + 1 <= |b| {
      assert a[..k + 1] == [a[0]] + a[1..][..k] && b[..k + 1] == [b[0]] + b[1..][..k];
      if a[..k + 1] == b[..k + 1] {
        assert a[1..][..k] == a[..k + 1][1..] && b[1..][..k] == b[..k + 1][1..];
      }
    }
  }

  predicate Ordered(entries: seq<Entry>) {
    forall i :: 0 <= i < |entries| - 1 ==> Le(entries[i].name, entries[i + 1].name)
  }

  function Insert(e: Entry, entries: seq<Entry>): (r: seq<Entry>)
    requires Ordered(entries)
    ensures Ordered(r) && multiset(r) == multiset(entries) + multiset{e} && |r| == |entries| + 1
    ensures r[0] == e || (entries != [] && r[0] == entries[0])
  {
    if entries == [] || Le(e.name, entries[0].name) then [e] + entries
    else
      LeIsTotal(e.name, entries[0].name);
      assert entries == [entries[0]] + entries[1..];
      [entries[0]] + Insert(e, entries[1..])
  }

  function Sorted(entries: seq<Entry>): (r: seq<Entry>)
    ensures Ordered(r) && multiset(r) == multiset(entries) && |r| == |entries|
  {
    if entries == [] then []
    else
      assert entries == [entries[0]] + entries[1..];
      Insert(entries[0], Sorted(entries[1..]))
  }

  // -------------------------------------------------------------------------
  // The unbounded walk

  predicate Filtered(o: Options, e: Entry) {
    || (!o.showHidden && "." <= e.name)
    || (e.node.Dir? && !o.explicit && e.name in SKIPPED)
  }

  predicate Enters(o: Options, e: Entry, depth: nat) {
    !Filtered(o, e) && e.node.Dir? && depth + 1 < o.maxDepth
  }

  function Size(node: Node): nat {
    if node.Regular? && node.size > 0 then node.size else 0
  }

  /** The items of one entry and everything below it: a filtered entry hides
      its subtree, an ignored one only itself. */
  function EntryItems(o: Options, rel: seq<string>, e: Entry, depth: nat): seq<Item>
    decreases o.maxDepth - depth, 0
  {
    if Filtered(o, e) then []
    else
      (if o.ignored(rel + [e.name], e.node.Dir?) then [] else [Item(rel + [e.name], depth + 1, e.node)])
      + if Enters(o, e, depth) then DirItems(o, rel + [e.name], e.node.children, depth + 1) else []
  }

  function DirItems(o: Options, rel: seq<string>, children: seq<Entry>, depth: nat): seq<Item>
    decreases o.maxDepth - depth, |children| + 2
  {
    ListItems(o, rel, Sorted(children), |children|, depth)
  }

  function ListItems(o: Options, rel: seq<string>, entries: seq<Entry>, n: nat, depth: nat): seq<Item>
    requires n <= |entries|
    decreases o.maxDepth - depth, n + 1
  {
    if n == 0 then []
    else ListItems(o, rel, entries, n - 1, depth) + EntryItems(o, rel, entries[n - 1], depth)
  }

  // -------------------------------------------------------------------------
  // The unbounded walk, item by item

  /** An entry no option hides: not a dot file, unless those are shown, and no
      directory of build output or version control, unless named explicitly. */
  predicate Shown(o: Options, e: Entry) {
    && (o.showHidden || e.name == "" || e.name[0] != '.')
    && (!e.node.Dir? || o.explicit || e.name !in {
          ".git", ".hg", ".svn", ".cache", ".mypy_cache", ".pytest_cache", ".ruff_cache", ".venv", "__pycache__",
          "build", "dist", "node_modules", "target", "vendor", "venv" })
  }

  /** Shown entries, each in the directory before it, that lead to an item. */
  ghost predicate Trail(o: Options, trail: seq<Entry>, names: seq<string>, node: Node) {
    && |trail| == |names| > 0 && trail[|trail| - 1].node == node
    && (forall k :: 0 <= k < |trail| ==> trail[k].name == names[k] && Shown(o, trail[k]))
    && forall k :: 0 <= k < |trail| - 1 ==> InDir(trail[k + 1], trail[k].node)
  }

  predicate InDir(e: Entry, dir: Node) {
    dir.Dir? && e in dir.children
  }

  lemma ShownIsUnfiltered(o: Options, e: Entry)
    ensures Shown(o, e) <==> !Filtered(o, e)
  {
    assert "." <= e.name <==> e.name != "" && e.name[0] == '.';
  }

  /** What the walk lists: an item for each trail from the start, no longer than
      the depth allows, whose last entry is not ignored; ignored or not, the
      directories on the way are entered. */
  lemma ListsExactly(o: Options, children: seq<Entry>, item: Item)
    requires o.maxDepth > 0
    ensures item in DirItems(o, [], children, 0) <==>
              && item.depth == |item.rel| <= o.maxDepth
              && !o.ignored(item.rel, item.node.Dir?)
              && exists trail :: Trail(o, trail, item.rel, item.node) && trail[0] in children
  {
    if item in DirItems(o, [], children, 0) {
      var e := ItemIsUnderEntry(o, [], children, 0, item);
      var trail := ItemHasTrail(o, [], e, 0, item);
      assert item.rel[0..] == item.rel;
    }
    if item.depth == |item.rel| <= o.maxDepth && !o.ignored(item.rel, item.node.Dir?) {
      forall trail | Trail(o, trail, item.rel, item.node) && trail[0] in children
        ensures item in DirItems(o, [], children, 0)
      {
        assert item.rel[..0] == [] && trail[0..] == trail && item.rel[0..] == item.rel;
        TrailIsListed(o, trail, item, 0);
        DirHoldsItsEntries(o, [], children, 0, trail[0]);
      }
    }
  }

  lemma {:induction false} ListItemIsUnderEntry(
    o: Options, rel: seq<string>, entries: seq<Entry>, n: nat, depth: nat, item: Item) returns (e: Entry)
    requires n <= |entries| && item in ListItems(o, rel, entries, n, depth)
    ensures e in entries && item in EntryItems(o, rel, e, depth)
  {
    if item in EntryItems(o, rel, entries[n - 1], depth) {
      e := entries[n - 1];
    } else {
      e := ListItemIsUnderEntry(o, rel, entries, n - 1, depth, item);
    }
  }

  lemma ItemIsUnderEntry(
    o: Options, rel: seq<string>, children: seq<Entry>, depth: nat, item: Item) returns (e: Entry)
    requires item in DirItems(o, rel, children, depth)
    ensures e in children && item in EntryItems(o, rel, e, depth)
  {
    e := ListItemIsUnderEntry(o, rel, Sorted(children), |children|, depth, item);
    assert e in multiset(Sorted(children)) && e in multiset(children);
  }

  lemma {:induction false} ItemHasTrail(
    o: Options, rel: seq<string>, e: Entry, depth: nat, item: Item) returns (trail: seq<Entry>)
    requires depth < o.maxDepth && |rel| == depth && item in EntryItems(o, rel, e, depth)
    ensures rel <= item.rel && item.depth == |item.rel| <= o.maxDepth && !o.ignored(item.rel, item.node.Dir?)
    ensures Trail(o, trail, item.rel[depth..], item.node) && trail[0] == e
    decreases o.maxDepth - depth
  {
    ShownIsUnfiltered(o, e);
    EntryIsOwnThenBelow(o, rel, e, depth);
    if item in OwnItems(o, rel, e, depth) {
      trail := [e];
      assert item.rel[depth..] == [e.name];
    } else {
      var child := ItemIsUnderEntry(o, rel + [e.name], e.node.children, depth + 1, item);
      var below := ItemHasTrail(o, rel + [e.name], child, depth + 1, item);
      trail := [e] + below;
      TrailGrows(o, e, below, item.rel[depth + 1..], item.node);
      assert item.rel[depth..] == [e.name] + item.rel[depth + 1..];
    }
  }

  lemma TrailGrows(o: Options, e: Entry, below: seq<Entry>, names: seq<string>, node: Node)
    requires Shown(o, e) && Trail(o, below, names, node) && InDir(below[0], e.node)
    ensures Trail(o, [e] + below, [e.name] + names, node)
  {
  }

  lemma TrailShrinks(o: Options, trail: seq<Entry>, names: seq<string>, node: Node)
    requires Trail(o, trail, names, node) && |trail| > 1
    ensures Trail(o, trail[1..], names[1..], node) && InDir(trail[1], trail[0].node)
  {
    assert InDir(trail[0 + 1], trail[0].node);
    forall k | 0 <= k < |trail| - 2 ensures InDir(trail[1..][k + 1], trail[1..][k].node) {
      assert InDir(trail[k + 1 + 1], trail[k + 1].node);
    }
  }

  lemma {:induction false} TrailIsListed(o: Options, trail: seq<Entry>, item: Item, depth: nat)
    requires depth < |item.rel| && item.depth == |item.rel| <= o.maxDepth && !o.ignored(item.rel, item.node.Dir?)
    requires Trail(o, trail, item.rel[depth..], item.node)
    ensures item in EntryItems(o, item.rel[..depth], trail[0], depth)
    decreases |item.rel| - depth
  {
    var e, rel := trail[0], item.rel[..depth];
    assert e.name == item.rel[depth];
    assert rel + [e.name] == item.rel[..depth + 1];
    ShownIsUnfiltered(o, e);
    EntryIsOwnThenBelow(o, rel, e, depth);
    if |trail| == 1 {
      assert item.rel[..depth + 1] == item.rel;
    } else {
      TrailShrinks(o, trail, item.rel[depth..], item.node);
      assert item.rel[depth..][1..] == item.rel[depth + 1..];
      TrailIsListed(o, trail[1..], item, depth + 1);
      DirHoldsItsEntries(o, rel + [e.name], e.node.children, depth + 1, trail[1]);
    }
  }

  // -------------------------------------------------------------------------
  // What the walk costs

  /** Entries looked at, bytes charged, and the file budget it takes to walk
      without a truncation report. */
  datatype Cost = Cost(files: nat, bytes: nat, demand: nat)

  function Max(a: nat, b: nat): nat { if a < b then b else a }

  /** One after the other: the second starts after the first's files. */
  function Then(a: Cost, b: Cost): Cost {
    Cost(a.files + b.files, a.bytes + b.bytes, Max(a.demand, a.files + b.demand))
  }

  function EntryCost(o: Options, e: Entry, depth: nat): Cost
    decreases o.maxDepth - depth, 0
  {
    var own := Cost(1, Size(e.node), 1);
    if Enters(o, e, depth) then Then(own, DirCost(o, e.node.children, depth + 1)) else own
  }

  function DirCost(o: Options, children: seq<Entry>, depth: nat): Cost
    decreases o.maxDepth - depth, |children| + 2
  {
    Then(Cost(0, 0, 1), ListCost(o, Sorted(children), |children|, depth))
  }

  function ListCost(o: Options, entries: seq<Entry>, n: nat, depth: nat): Cost
    requires n <= |entries|
    decreases o.maxDepth - depth, n + 1
  {
    if n == 0 then Cost(0, 0, 0)
    else Then(ListCost(o, entries, n - 1, depth), EntryCost(o, entries[n - 1], depth))
  }

  predicate Affords(o: Options, scanned: nat, bytes: nat, cost: Cost) {
    scanned + cost.demand <= o.scanFiles && bytes + cost.bytes <= o.scanBytes
  }

  lemma {:induction false} ShorterListsCostLess(o: Options, entries: seq<Entry>, m: nat, n: nat, depth: nat)
    requires m <= n <= |entries|
    ensures ListCost(o, entries, m, depth).demand <= ListCost(o, entries, n, depth).demand
    ensures ListCost(o, entries, m, depth).bytes <= ListCost(o, entries, n, depth).bytes
  {
    if m < n { ShorterListsCostLess(o, entries, m, n - 1, depth); }
  }

  /** Every file looked at needs budget. */
  predicate Bounded(c: Cost) { c.files <= c.demand }

  lemma ThenIsBounded(a: Cost, b: Cost)
    requires Bounded(a) && Bounded(b)
    ensures Bounded(Then(a, b))
  {
    assert Then(a, b).demand >= a.files + b.demand;
  }

  lemma {:induction false} EntryCostBounds(o: Options, e: Entry, depth: nat)
    ensures 1 <= EntryCost(o, e, depth).files && Bounded(EntryCost(o, e, depth))
    decreases o.maxDepth - depth, 0
  {
    if Enters(o, e, depth) {
      var list := ListCost(o, Sorted(e.node.children), |e.node.children|, depth + 1);
      ListCostBounds(o, Sorted(e.node.children), |e.node.children|, depth + 1);
      ThenIsBounded(Cost(0, 0, 1), list);
      ThenIsBounded(Cost(1, Size(e.node), 1), DirCost(o, e.node.children, depth + 1));
    }
  }

  lemma {:induction false} ListCostBounds(o: Options, entries: seq<Entry>, n: nat, depth: nat)
    requires n <= |entries|
    ensures n <= ListCost(o, entries, n, depth).files && Bounded(ListCost(o, entries, n, depth))
    decreases o.maxDepth - depth, n
  {
    if n > 0 {
      ListCostBounds(o, entries, n - 1, depth);
      EntryCostBounds(o, entries[n - 1], depth);
      ThenIsBounded(ListCost(o, entries, n - 1, depth), EntryCost(o, entries[n - 1], depth));
    }
  }

  lemma {:induction false} ListHoldsItsEntries(
    o: Options, rel: seq<string>, entries: seq<Entry>, n: nat, depth: nat, i: nat, item: Item)
    requires i < n <= |entries| && item in EntryItems(o, rel, entries[i], depth)
    ensures item in ListItems(o, rel, entries, n, depth)
  {
    if i < n - 1 { ListHoldsItsEntries(o, rel, entries, n - 1, depth, i, item); }
  }

  lemma DirHoldsItsEntries(o: Options, rel: seq<string>, children: seq<Entry>, depth: nat, e: Entry)
    requires e in children
    ensures forall item :: item in EntryItems(o, rel, e, depth) ==> item in DirItems(o, rel, children, depth)
  {
    assert e in multiset(children) && e in multiset(Sorted(children));
    var i :| 0 <= i < |children| && Sorted(children)[i] == e;
    forall item | item in EntryItems(o, rel, e, depth) ensures item in DirItems(o, rel, children, depth) {
      ListHoldsItsEntries(o, rel, Sorted(children), |children|, depth, i, item);
    }
  }

  /** What a directory read limited to `limit` entries gives, sorted. */
  lemma ReadSome(children: seq<Entry>, limit: nat)
    ensures forall e :: e in Sorted(if limit <= |children| then children[..limit] else children) ==> e in children
    ensures limit >= |children| ==>
        Sorted(if limit <= |children| then children[..limit] else children) == Sorted(children)
  {
    var read := if limit <= |children| then children[..limit] else children;
    forall e | e in Sorted(read) ensures e in children {
      assert e in multiset(Sorted(read)) && e in multiset(read);
    }
    if limit == |children| { assert children[..limit] == children; }
  }

  /** The walk's last act is to open a directory that holds nothing. */
  predicate EndsEmpty(o: Options, children: seq<Entry>, depth: nat)
    decreases o.maxDepth - depth
  {
    children == [] || EntryEndsEmpty(o, Sorted(children)[|children| - 1], depth)
  }

  predicate EntryEndsEmpty(o: Options, e: Entry, depth: nat)
    decreases o.maxDepth - depth, 0
  {
    Enters(o, e, depth) && EndsEmpty(o, e.node.children, depth + 1)
  }

  /** The demand exceeds the number of files by one, or not at all. */
  predicate Demands(c: Cost, extra: bool) {
    c.demand == c.files + if extra then 1 else 0
  }

  lemma ThenDemands(a: Cost, b: Cost, extra: bool)
    requires a.demand <= a.files + 1 && 1 <= b.demand && Demands(b, extra)
    ensures Demands(Then(a, b), extra)
  {
  }

  lemma DirDemandsLikeList(o: Options, children: seq<Entry>, depth: nat, extra: bool)
    requires children != []
    requires Demands(ListCost(o, Sorted(children), |children|, depth), extra)
    ensures Demands(DirCost(o, children, depth), extra)
  {
    var list := ListCost(o, Sorted(children), |children|, depth);
    ListCostBounds(o, Sorted(children), |children|, depth);
    ThenDemands(Cost(0, 0, 1), list, extra);
  }

  lemma EmptyDir(o: Options, depth: nat)
    ensures DirCost(o, [], depth) == Cost(0, 0, 1)
  {
  }

  lemma {:induction false} EntryDemand(o: Options, e: Entry, depth: nat)
    ensures Demands(EntryCost(o, e, depth), EntryEndsEmpty(o, e, depth))
    decreases o.maxDepth - depth, 0
  {
    if Enters(o, e, depth) {
      var below := DirCost(o, e.node.children, depth + 1);
      DirDemand(o, e.node.children, depth + 1);
      ThenDemands(Cost(1, Size(e.node), 1), below, EndsEmpty(o, e.node.children, depth + 1));
    }
  }

  lemma {:induction false} ListDemand(o: Options, entries: seq<Entry>, n: nat, depth: nat)
    requires 0 < n <= |entries|
    ensures Demands(ListCost(o, entries, n, depth), EntryEndsEmpty(o, entries[n - 1], depth))
    decreases o.maxDepth - depth, n
  {
    EntryDemand(o, entries[n - 1], depth);
    EntryCostBounds(o, entries[n - 1], depth);
    if n > 1 { ListDemand(o, entries, n - 1, depth); }
    ThenDemands(ListCost(o, entries, n - 1, depth), EntryCost(o, entries[n - 1], depth),
      EntryEndsEmpty(o, entries[n - 1], depth));
  }

  /** The budget a walk needs is the number of files it looks at, and one more
      when it ends by opening an empty directory. */
  lemma {:induction false} DirDemand(o: Options, children: seq<Entry>, depth: nat)
    ensures Demands(DirCost(o, children, depth), EndsEmpty(o, children, depth))
    ensures DirCost(o, children, depth).demand >= 1
    decreases o.maxDepth - depth, |children| + 1
  {
    if children == [] {
      EmptyDir(o, depth);
    } else {
      ListDemand(o, Sorted(children), |children|, depth);
      DirDemandsLikeList(o, children, depth, EntryEndsEmpty(o, Sorted(children)[|children| - 1], depth));
    }
  }

  datatype Reason = NoReason | FileLimit | ByteLimit

  datatype State = State(scanned: nat, bytes: nat, items: seq<Item>, truncated: bool, reason: Reason)

  predicate Within(o: Options, s: State) {
    s.scanned <= o.scanFiles && s.bytes <= o.scanBytes
  }

  /** A truncated walk says why, and blames the file limit only when it has
      looked at that many files. */
  predicate Explained(o: Options, s: State) {
    && (s.truncated <==> s.reason != NoReason)
    && (s.reason == FileLimit ==> s.scanned == o.scanFiles)
  }

  /** What part of a walk did: it is truncated exactly if the budgets left could
      not pay for it, and otherwise it listed all of it. */
  ghost predicate Outcome(o: Options, s: State, t: State, cost: Cost, all: seq<Item>) {
    && !s.truncated && Within(o, t) && Explained(o, t)
    && (t.truncated <==> !Affords(o, s.scanned, s.bytes, cost))
    && (!t.truncated ==> t == State(s.scanned + cost.files, s.bytes + cost.bytes, s.items + all, false, NoReason))
  }

  /** Whatever was added to the list belongs there. */
  ghost predicate Extends(s: State, t: State, all: seq<Item>) {
    s.items <= t.items && forall k :: |s.items| <= k < |t.items| ==> t.items[k] in all
  }

  lemma OutcomesCompose(o: Options, s: State, t: State, u: State, a: Cost, b: Cost, x: seq<Item>, y: seq<Item>)
    requires Outcome(o, s, t, a, x) && !t.truncated && Outcome(o, t, u, b, y)
    ensures Outcome(o, s, u, Then(a, b), x + y)
  {
    Regroup(s.items, x, y);
  }

  lemma ExtensionsCompose(s: State, t: State, u: State, x: seq<Item>, y: seq<Item>, all: seq<Item>)
    requires Extends(s, t, x) && Extends(t, u, y)
    requires (forall item :: item in x ==> item in all) && (forall item :: item in y ==> item in all)
    ensures Extends(s, u, all)
  {
    forall k | |s.items| <= k < |u.items| ensures u.items[k] in all {
      if k < |t.items| { assert u.items[k] == t.items[k]; }
    }
  }

  /** The entry itself, without what lies below it. */
  function OwnItems(o: Options, rel: seq<string>, e: Entry, depth: nat): seq<Item> {
    if Filtered(o, e) || o.ignored(rel + [e.name], e.node.Dir?) then [] else [Item(rel + [e.name], depth + 1, e.node)]
  }

  lemma EntryIsOwnThenBelow(o: Options, rel: seq<string>, e: Entry, depth: nat)
    ensures EntryItems(o, rel, e, depth)
         == if Enters(o, e, depth)
            then OwnItems(o, rel, e, depth) + DirItems(o, rel + [e.name], e.node.children, depth + 1)
            else OwnItems(o, rel, e, depth)
  {
  }

  lemma ListOutcomeGrows(
    o: Options, s: State, t: State, u: State, rel: seq<string>, entries: seq<Entry>, i: nat, depth: nat)
    requires i < |entries| && !t.truncated
    requires Outcome(o, s, t, ListCost(o, entries, i, depth), ListItems(o, rel, entries, i, depth))
    requires Outcome(o, t, u, EntryCost(o, entries[i], depth), EntryItems(o, rel, entries[i], depth))
    ensures Outcome(o, s, u, ListCost(o, entries, i + 1, depth), ListItems(o, rel, entries, i + 1, depth))
    ensures u.truncated ==> !Affords(o, s.scanned, s.bytes, ListCost(o, entries, |entries|, depth))
  {
    OutcomesCompose(o, s, t, u, ListCost(o, entries, i, depth), EntryCost(o, entries[i], depth),
      ListItems(o, rel, entries, i, depth), EntryItems(o, rel, entries[i], depth));
    ShorterListsCostLess(o, entries, i + 1, |entries|, depth);
  }

  /** The whole list was read: only an empty budget makes a difference. */
  lemma ListIsDir(o: Options, s: State, t: State, rel: seq<string>, children: seq<Entry>, depth: nat)
    requires s.scanned < o.scanFiles
    requires Outcome(o, s, t, ListCost(o, Sorted(children), |children|, depth),
                     ListItems(o, rel, Sorted(children), |children|, depth))
    ensures Outcome(o, s, t, DirCost(o, children, depth), DirItems(o, rel, children, depth))
  {
  }

  lemma OverflowIsTruncation(o: Options, s: State, t: State, rel: seq<string>, children: seq<Entry>, depth: nat)
    requires !s.truncated && Within(o, t) && Explained(o, t) && t.truncated && s.scanned + |children| > o.scanFiles
    ensures Outcome(o, s, t, DirCost(o, children, depth), DirItems(o, rel, children, depth))
  {
    ListCostBounds(o, Sorted(children), |children|, depth);
  }

  /** Reads one entry more than the budget allows, to notice the rest, and sorts
      what it read. */
  method ReadSorted(children: seq<Entry>, remaining: nat) returns (entries: seq<Entry>, overflow: bool)
    ensures overflow <==> |children| > remaining
    ensures !overflow ==> entries == Sorted(children)
    ensures overflow ==> |entries| == remaining
    ensures forall e :: e in entries ==> e in children
  {
    entries := Sorted(if remaining + 1 <= |children| then children[..remaining + 1] else children);
    ReadSome(children, remaining + 1);
    overflow := |entries| > remaining;
    if overflow {
      entries := entries[..remaining];
    }
  }

  class Walk {
    const o: Options
    var items: seq<Item>
    var truncated: bool
    var reason: Reason
    var scanned: nat
    var bytes: nat

    function Now(): State
      reads this
    {
      State(scanned, bytes, items, truncated, reason)
    }

    constructor (o: Options)
      ensures this.o == o && Now() == State(0, 0, [], false, NoReason)
    {
      this.o := o;
      items, truncated, reason, scanned, bytes := [], false, NoReason, 0, 0;
    }

    /** Charges one entry and lists it; returns whether to go below it. */
    method Take(rel: seq<string>, e: Entry, depth: nat) returns (enter: bool)
      requires Within(o, Now()) && !truncated && reason == NoReason
      modifies this
      ensures var size := if e.node.Regular? && e.node.size > 0 then e.node.size else 0;
              Outcome(o, old(Now()), Now(), Cost(1, size, 1), OwnItems(o, rel, e, depth))
      ensures Extends(old(Now()), Now(), OwnItems(o, rel, e, depth))
      ensures enter <==> !truncated && Enters(o, e, depth)
    {
      if scanned >= o.scanFiles {
        truncated, reason := true, FileLimit;
        return false;
      }
      scanned := scanned + 1;
      var size := if e.node.Regular? && e.node.size > 0 then e.node.size else 0;
      if bytes + size > o.scanBytes {
        truncated, reason := true, ByteLimit;
        return false;
      }
      bytes := bytes + size;
      if !o.showHidden && "." <= e.name {
        return false;
      }
      if e.node.Dir? && !o.explicit && e.name in SKIPPED {
        return false;
      }
      if !o.ignored(rel + [e.name], e.node.Dir?) {
        items := items + [Item(rel + [e.name], depth + 1, e.node)];
      }
      return e.node.Dir? && depth + 1 < o.maxDepth;
    }

    method VisitEntry(rel: seq<string>, e: Entry, depth: nat)
      requires Within(o, Now()) && !truncated && reason == NoReason
      modifies this
      decreases o.maxDepth - depth, 0
      ensures Outcome(o, old(Now()), Now(), EntryCost(o, e, depth), EntryItems(o, rel, e, depth))
      ensures Extends(old(Now()), Now(), EntryItems(o, rel, e, depth))
    {
      EntryIsOwnThenBelow(o, rel, e, depth);
      ghost var own, below := OwnItems(o, rel, e, depth), EntryItems(o, rel, e, depth);
      var enter := Take(rel, e, depth);
      if enter {
        ghost var taken := Now();
        Visit(rel + [e.name], e.node.children, depth + 1);
        below := DirItems(o, rel + [e.name], e.node.children, depth + 1);
        OutcomesCompose(o, old(Now()), taken, Now(), Cost(1, Size(e.node), 1),
            DirCost(o, e.node.children, depth + 1), own, below);
        ExtensionsCompose(old(Now()), taken, Now(), own, below, own + below);
      }
    }

    /** Visiting a directory reads at most one entry more than the budget still
        allows, so an overflow shows before anything is charged. */
    method Visit(rel: seq<string>, children: seq<Entry>, depth: nat)
      requires Within(o, Now()) && !truncated && reason == NoReason
      modifies this
      decreases o.maxDepth - depth, 2
      ensures Outcome(o, old(Now()), Now(), DirCost(o, children, depth), DirItems(o, rel, children, depth))
      ensures Extends(old(Now()), Now(), DirItems(o, rel, children, depth))
    {
      var remaining := o.scanFiles - scanned;
      if remaining < 1 {
        truncated, reason := true, FileLimit;
        return;
      }
      var entries, overflow := ReadSorted(children, remaining);
      VisitList(rel, entries, depth, children);
      if overflow && !truncated {
        ListCostBounds(o, entries, |entries|, depth);
        truncated, reason := true, FileLimit;
      }
      if overflow {
        OverflowIsTruncation(o, old(Now()), Now(), rel, children, depth);
      } else {
        ListIsDir(o, old(Now()), Now(), rel, children, depth);
      }
    }

    method VisitList(rel: seq<string>, entries: seq<Entry>, depth: nat, ghost children: seq<Entry>)
      requires Within(o, Now()) && !truncated && reason == NoReason && forall e :: e in entries ==> e in children
      modifies this
      decreases o.maxDepth - depth, 1
      ensures Outcome(o, old(Now()), Now(), ListCost(o, entries, |entries|, depth),
          ListItems(o, rel, entries, |entries|, depth))
      ensures Extends(old(Now()), Now(), DirItems(o, rel, children, depth))
    {
      ghost var all := DirItems(o, rel, children, depth);
      var i := 0;
      while i < |entries|
        invariant i <= |entries| && !truncated
        invariant Outcome(o, old(Now()), Now(), ListCost(o, entries, i, depth), ListItems(o, rel, entries, i, depth))
        invariant Extends(old(Now()), Now(), all)
      {
        ghost var before := Now();
        DirHoldsItsEntries(o, rel, children, depth, entries[i]);
        VisitEntry(rel, entries[i], depth);
        ListOutcomeGrows(o, old(Now()), before, Now(), rel, entries, i, depth);
        ExtensionsCompose(old(Now()), before, Now(), all, EntryItems(o, rel, entries[i], depth), all);
        if truncated {
          return;
        }
        i := i + 1;
      }
    }
  }

  /** The whole walk. It is truncated exactly when the unbounded walk looks at
      more files or bytes than allowed, or at exactly the allowed number of
      files and then opens an empty directory; otherwise it lists what the
      unbounded walk lists. Truncated or not, it lists nothing else. */
  method WalkTree(o: Options, start: Node) returns (r: State)
    requires o.scanFiles >= 1
    ensures Within(o, r) && Explained(o, r)
    ensures !start.Dir? ==>
              && r.scanned == 1
              && (r.truncated <==> start.Regular? && start.size > o.scanBytes)
              && r.items == if r.truncated then [] else [Item([], 0, start)]
    ensures start.Dir? && o.maxDepth <= 0 ==> r == State(0, 0, [], false, NoReason)
    ensures start.Dir? && o.maxDepth > 0 ==>
              var cost := DirCost(o, start.children, 0);
              && (r.truncated <==>
                   || cost.files > o.scanFiles || cost.bytes > o.scanBytes
                   || (cost.files == o.scanFiles && EndsEmpty(o, start.children, 0)))
              && (!r.truncated ==>
                  r == State(cost.files, cost.bytes, DirItems(o, [], start.children, 0), false, NoReason))
              && forall item :: item in r.items ==> item in DirItems(o, [], start.children, 0)
  {
    if !start.Dir? {
      var size := if start.Regular? && start.size > 0 then start.size else 0;
      if size > o.scanBytes {
        return State(1, 0, [], true, ByteLimit);
      }
      return State(1, size, [Item([], 0, start)], false, NoReason);
    }
    var walk := new Walk(o);
    if o.maxDepth > 0 {
      walk.Visit([], start.children, 0);
      DirDemand(o, start.children, 0);
    }
    r := walk.Now();
  }

  /** A walk can look at everything within its budgets and still report a
      truncation: here the start holds one empty directory. */
  lemma CompleteWalkReportedTruncated(o: Options, e: Entry)
    requires o.scanFiles == 1 && Enters(o, e, 0) && e.node.children == []
    ensures DirCost(o, [e], 0).files == o.scanFiles && DirCost(o, [e], 0).bytes == 0
    ensures !Affords(o, 0, 0, DirCost(o, [e], 0))
  {
    SortedSingleton(e);
    EmptyDir(o, 1);
    ListOfOne(o, e, 0);
    assert EndsEmpty(o, e.node.children, 1);
    assert EndsEmpty(o, [e], 0);
    DirDemand(o, [e], 0);
  }

  lemma SortedSingleton(e: Entry)
    ensures Sorted([e]) == [e]
  {
    assert Sorted([e][1..]) == [];
  }

  lemma ListOfOne(o: Options, e: Entry, depth: nat)
    requires Sorted([e]) == [e]
    ensures DirCost(o, [e], depth).files == EntryCost(o, e, depth).files
    ensures DirCost(o, [e], depth).bytes == EntryCost(o, e, depth).bytes
  {
    assert ListCost(o, [e], 1, depth) == Then(ListCost(o, [e], 0, depth), EntryCost(o, e, depth));
  }
}
