/** Walking back through what was written to a storage cell, by asking for the
    cell as it was just before each write that turns up. */
module VStorageHistory {
  import opened Wrappers

  // ------------------------------------------------------------ the store

  /** What happened to the cell at a height. */
  datatype Entry = Write(height: nat, values: seq<string>) | Clear(height: nat)

  /** How the node answers where there is no cell: with the "unknown request"
      error, with the empty string, or with another error. */
  datatype NoCell = UnknownRequest | EmptyString | Fault(message: string)

  /** A node that keeps the states from height `pruned` on.  Height 0 asks for
      the latest state, which it always has. */
  datatype Node = Node(log: seq<Entry>, pruned: nat, otherwise: NoCell)

  datatype Answer = Cell(height: nat, values: seq<string>) | Nothing(why: NoCell)

  predicate Sorted(log: seq<Entry>) {
    forall i, j | 0 <= i < j < |log| :: log[i].height < log[j].height
  }

  function CountUpTo(log: seq<Entry>, height: nat): (n: nat)
    ensures n <= |log|
  {
    if log == [] then 0
    else if log[|log| - 1].height <= height then |log|
    else CountUpTo(log[..|log| - 1], height)
  }

  /** The answer when the state has seen the first k entries. */
  function After(node: Node, k: nat): Answer
    requires k <= |node.log|
  {
    if k == 0 then Nothing(node.otherwise)
    else match node.log[k - 1]
      case Write(height, values) => Cell(height, values)
      case Clear(_) => Nothing(EmptyString)
  }

  function CellAt(node: Node, height: nat): Answer {
    if height == 0 then After(node, |node.log|)
    else if height < node.pruned then Nothing(node.otherwise)
    else After(node, CountUpTo(node.log, height))
  }

  // ------------------------------------------------------------- the walk

  /** The walk ends with this cell. */
  predicate Stops(minHeight: nat, height: nat) {
    (minHeight != 0 && height <= minHeight) || height == 0
  }

  /** All that is read when a query meets the first k entries: the chunks, with
      None for the one that an empty cell gives, and the error at the end. */
  function History(node: Node, minHeight: nat, k: nat): (seq<Option<seq<string>>>, Option<string>)
    requires k <= |node.log|
  {
    match After(node, k)
    case Nothing(why) => Ending(why)
    case Cell(height, values) =>
      var rest := if Stops(minHeight, height) then ([], None)
                  else if height - 1 < node.pruned then Ending(node.otherwise)
                  else History(node, minHeight, k - 1);
      Later([Some(values)], rest)
  }

  function Ending(why: NoCell): (seq<Option<seq<string>>>, Option<string>) {
    match why
    case UnknownRequest => ([], None)
    case EmptyString => ([None], None)
    case Fault(message) => ([], Some(message))
  }

  /** The entries from lo on are writes that the walk gets to, where it goes on
      below heights above cut only. */
  predicate Reads(node: Node, cut: nat, lo: nat) {
    && lo <= |node.log|
    && (forall i | lo <= i < |node.log| :: node.log[i].Write?)
    && (forall i | lo < i < |node.log| :: node.log[i].height > cut)
  }

  function Cut(node: Node, minHeight: nat): nat {
    if minHeight >= node.pruned then minHeight else node.pruned
  }

  /** A write at height 1 is followed by a query at height 0, for the latest
      state. */
  ghost predicate Loops(node: Node, minHeight: nat) {
    minHeight == 0 && exists i :: 0 <= i < |node.log| && node.log[i].height == 1 && Reads(node, node.pruned, i)
  }

  lemma {:induction false} CountsBelow(log: seq<Entry>, k: nat)
    requires Sorted(log) && k < |log| && log[k].height >= 1
    ensures CountUpTo(log, log[k].height - 1) == k
    decreases |log|
  {
    var init := log[..|log| - 1];
    if k < |log| - 1 {
      CountsBelow(init, k);
    } else if init != [] {
      assert init[|init| - 1].height < log[k].height;
    }
  }

  /** The query after a cell that does not stop the walk meets the entries
      before it. */
  lemma NextQuery(node: Node, k: nat)
    requires Sorted(node.log) && 0 < k <= |node.log|
    requires node.log[k - 1].height > 1
    ensures CellAt(node, node.log[k - 1].height - 1) ==
            if node.log[k - 1].height - 1 < node.pruned then Nothing(node.otherwise) else After(node, k - 1)
  {
    CountsBelow(node.log, k - 1);
  }

  /** What the height in the request header is; 0 is none. */
  function QueryHeight(blockHeight: Option<nat>): nat {
    match blockHeight
    case None => 0
    case Some(h) => if h > 0 then h - 1 else 0
  }

  function Later(chunks: seq<Option<seq<string>>>, rest: (seq<Option<seq<string>>>, Option<string>))
    : (seq<Option<seq<string>>>, Option<string>)
  {
    (chunks + rest.0, rest.1)
  }

  lemma LaterTwice(chunks: seq<Option<seq<string>>>, more: seq<Option<seq<string>>>,
                   rest: (seq<Option<seq<string>>>, Option<string>))
    ensures Later(chunks, Later(more, rest)) == Later(chunks + more, rest)
  {
    assert chunks + (more + rest.0) == chunks + more + rest.0;
  }

  lemma LaterNothing(rest: (seq<Option<seq<string>>>, Option<string>))
    ensures Later([], rest) == rest
    ensures Later(rest.0, ([], rest.1)) == rest
  {
    assert rest.0 + [] == rest.0 && [] + rest.0 == rest.0;
  }

  lemma NotAtOne(node: Node, minHeight: nat, k: nat)
    requires !Loops(node, minHeight)
    requires 0 < k <= |node.log| && Reads(node, Cut(node, minHeight), k - 1)
    ensures !(minHeight == 0 && node.log[k - 1].height == 1)
  {
    assert minHeight == 0 ==> Reads(node, node.pruned, k - 1);
  }

  method ReadHistory(node: Node, minHeight: nat) returns (chunks: seq<Option<seq<string>>>, error: Option<string>)
    requires Sorted(node.log) && !Loops(node, minHeight)
    ensures (chunks, error) == History(node, minHeight, |node.log|)
  {
    var blockHeight: Option<nat> := None;
    chunks, error := [], None;
    ghost var k: nat := |node.log|;
    ghost var pruned := false;
    ghost var all := History(node, minHeight, |node.log|);
    LaterNothing(all);
    while true
      invariant k <= |node.log|
      invariant blockHeight.Some? ==> blockHeight.value > 0
      invariant CellAt(node, QueryHeight(blockHeight)) == if pruned then Nothing(node.otherwise) else After(node, k)
      invariant !pruned ==> Reads(node, Cut(node, minHeight), k)
      invariant !pruned && k < |node.log| ==> node.log[k].height > Cut(node, minHeight)
      invariant error == None
      invariant all ==
                Later(chunks, if pruned then Ending(node.otherwise) else History(node, minHeight, k))
      decreases k, !pruned
    {
      var answer := CellAt(node, QueryHeight(blockHeight));
      match answer {
        case Nothing(why) =>
          match why {
            case UnknownRequest =>
              LaterNothing((chunks, None));
              break;
            case EmptyString =>
              chunks := chunks + [None];
              break;
            case Fault(message) =>
              error := Some(message);
              LaterNothing((chunks, error));
              break;
          }
        case Cell(height, values) =>
          ghost var rest := if Stops(minHeight, height) then ([], None)
                            else if height - 1 < node.pruned then Ending(node.otherwise)
                            else History(node, minHeight, k - 1);
          LaterTwice(chunks, [Some(values)], rest);
          LaterNothing((chunks + [Some(values)], None));
          chunks := chunks + [Some(values)];
          blockHeight := Some(height);
          if minHeight != 0 && height <= minHeight {
            break;
          }
          if !(height > 0) {
            break;
          }
          NotAtOne(node, minHeight, k);
          NextQuery(node, k);
          pruned := height - 1 < node.pruned;
          k := k - 1;
      }
    }
  }


  // ------------------------------------------------------------ the values

  function Reverse<T>(s: seq<T>): seq<T> {
    if s == [] then [] else Reverse(s[1..]) + [s[0]]
  }

  function Mapped<T>(f: string -> T, s: seq<string>): seq<T> {
    if s == [] then [] else [f(s[0])] + Mapped(f, s[1..])
  }

  /** What a consumer of the chunks gets to see, newest first. */
  function Values(chunks: seq<Option<seq<string>>>): seq<string> {
    if chunks == [] then []
    else (match chunks[0] case None => [] case Some(values) => Reverse(values)) + Values(chunks[1..])
  }

  function Flatten(log: seq<Entry>): seq<string> {
    if log == [] then []
    else (match log[0] case Write(_, values) => values case Clear(_) => []) + Flatten(log[1..])
  }

  method MapHistory<T>(f: string -> T, chunks: seq<Option<seq<string>>>) returns (out: seq<T>)
    ensures out == Mapped(f, Values(chunks))
  {
    out := [];
    assert chunks[0..] == chunks;
    for i := 0 to |chunks|
      invariant Mapped(f, Values(chunks)) == out + Mapped(f, Values(chunks[i..]))
    {
      MappedStep(f, chunks, i, out);
      if chunks[i].None? {
        continue;
      }
      out := MapChunk(f, Reverse(chunks[i].value), out);
    }
  }

  lemma MappedStep<T>(f: string -> T, chunks: seq<Option<seq<string>>>, i: nat, out: seq<T>)
    requires i < |chunks|
    ensures out + Mapped(f, Values(chunks[i..])) ==
            (if chunks[i].None? then out else out + Mapped(f, Reverse(chunks[i].value))) +
            Mapped(f, Values(chunks[i + 1..]))
  {
    assert chunks[i..] == [chunks[i]] + chunks[i + 1..];
    ValuesLater(chunks[i], chunks[i + 1..]);
    var values := if chunks[i].None? then [] else Reverse(chunks[i].value);
    MappedAppends(f, values, Values(chunks[i + 1..]));
    assert out + (Mapped(f, values) + Mapped(f, Values(chunks[i + 1..]))) ==
           out + Mapped(f, values) + Mapped(f, Values(chunks[i + 1..]));
  }

  /** The inner loop, after the chunk has been reversed. */
  method MapChunk<T>(f: string -> T, chunk: seq<string>, yielded: seq<T>) returns (out: seq<T>)
    ensures out == yielded + Mapped(f, chunk)
  {
    out := yielded;
    for j := 0 to |chunk|
      invariant yielded + Mapped(f, chunk) == out + Mapped(f, chunk[j..])
    {
      assert chunk[j..][0] == chunk[j] && chunk[j..][1..] == chunk[j + 1..];
      out := out + [f(chunk[j])];
    }
  }

  lemma {:induction false} MappedAppends<T>(f: string -> T, a: seq<string>, b: seq<string>)
    ensures Mapped(f, a + b) == Mapped(f, a) + Mapped(f, b)
    decreases |a|
  {
    if a == [] {
      assert a + b == b;
    } else {
      assert (a + b)[1..] == a[1..] + b;
      MappedAppends(f, a[1..], b);
    }
  }

  method ReadHistoryBy<T>(f: string -> T, node: Node, minHeight: nat) returns (out: seq<T>, error: Option<string>)
    requires Sorted(node.log) && !Loops(node, minHeight)
    ensures out == Mapped(f, Values(History(node, minHeight, |node.log|).0))
    ensures error == History(node, minHeight, |node.log|).1
    ensures exists lo | 0 <= lo <= |node.log| ::
              IsOldestRead(node, Cut(node, minHeight), lo) && Reversed(f, Flatten(node.log[lo..]), out)
  {
    var chunks: seq<Option<seq<string>>>;
    chunks, error := ReadHistory(node, minHeight);
    out := MapHistory(f, chunks);
    MappedAt(f, Values(chunks));
    ghost var lo := HistoryIsReversedLog(node, minHeight);
    assert Reversed(f, Flatten(node.log[lo..]), out);
  }

  /** `out` has what `f` gives for the values of `s`, the last one first. */
  ghost predicate Reversed<T>(f: string -> T, s: seq<string>, out: seq<T>) {
    |out| == |s| && forall i | 0 <= i < |s| :: out[i] == f(s[|s| - 1 - i])
  }

  lemma {:induction false} MappedAt<T>(f: string -> T, s: seq<string>)
    ensures |Mapped(f, s)| == |s| && forall i | 0 <= i < |s| :: Mapped(f, s)[i] == f(s[i])
    decreases |s|
  {
    if s != [] {
      MappedAt(f, s[1..]);
    }
  }

  lemma {:induction false} ReverseAppends<T>(a: seq<T>, b: seq<T>)
    ensures Reverse(a + b) == Reverse(b) + Reverse(a)
    decreases |a|
  {
    if a == [] {
      assert a + b == b;
    } else {
      assert (a + b)[1..] == a[1..] + b;
      ReverseAppends(a[1..], b);
      assert Reverse(b) + Reverse(a[1..]) + [a[0]] == Reverse(b) + (Reverse(a[1..]) + [a[0]]);
    }
  }

  /** `Reverse` is what its name says. */
  lemma {:induction false} ReverseAt<T>(s: seq<T>, i: nat)
    requires i < |s|
    ensures |Reverse(s)| == |s| && Reverse(s)[i] == s[|s| - 1 - i]
    decreases |s|
  {
    if |s| > 1 {
      ReverseAt(s[1..], if i < |s| - 1 then i else 0);
    }
  }

  lemma ReverseIs<T>(s: seq<T>)
    ensures |Reverse(s)| == |s| && forall i | 0 <= i < |s| :: Reverse(s)[i] == s[|s| - 1 - i]
  {
    if s != [] {
      ReverseAt(s, 0);
      forall i | 0 <= i < |s| ensures Reverse(s)[i] == s[|s| - 1 - i] {
        ReverseAt(s, i);
      }
    }
  }

  lemma ValuesLater(chunk: Option<seq<string>>, chunks: seq<Option<seq<string>>>)
    ensures Values([chunk] + chunks) == (if chunk.Some? then Reverse(chunk.value) else []) + Values(chunks)
  {
    assert ([chunk] + chunks)[1..] == chunks;
  }

  lemma ValuesOfEnding(why: NoCell)
    ensures Values(Ending(why).0) == []
  {
    ValuesLater(None, []);
  }

  lemma {:induction false} FlattenSnoc(log: seq<Entry>, e: Entry)
    ensures Flatten(log + [e]) == Flatten(log) + (if e.Write? then e.values else [])
    decreases |log|
  {
    if log == [] {
      assert ([] + [e])[1..] == [];
    } else {
      assert (log + [e])[1..] == log[1..] + [e];
      FlattenSnoc(log[1..], e);
    }
  }

  /** The least entry that the walk gets to. */
  predicate IsOldestRead(node: Node, cut: nat, lo: nat) {
    Reads(node, cut, lo) && (lo == 0 || !Reads(node, cut, lo - 1))
  }

  lemma {:induction false} OldestReadExists(node: Node, cut: nat, k: nat) returns (lo: nat)
    requires Reads(node, cut, k)
    ensures lo <= k && IsOldestRead(node, cut, lo)
    decreases k
  {
    lo := k;
    if k > 0 && Reads(node, cut, k - 1) {
      lo := OldestReadExists(node, cut, k - 1);
    }
  }

  lemma OnlyOneOldest(node: Node, cut: nat, lo: nat, k: nat)
    requires IsOldestRead(node, cut, lo) && IsOldestRead(node, cut, k)
    ensures lo == k
  {
    assert lo < k ==> Reads(node, cut, k - 1);
    assert k < lo ==> Reads(node, cut, lo - 1);
  }

  lemma NewestFirst(log: seq<Entry>, lo: nat, k: nat)
    requires lo < k <= |log| && log[k - 1].Write?
    ensures Reverse(Flatten(log[lo..k])) == Reverse(log[k - 1].values) + Reverse(Flatten(log[lo..k - 1]))
  {
    assert log[lo..k] == log[lo..k - 1] + [log[k - 1]];
    FlattenSnoc(log[lo..k - 1], log[k - 1]);
    ReverseAppends(Flatten(log[lo..k - 1]), log[k - 1].values);
  }

  /** Past the oldest entry that it gets to the walk finds nothing. */
  lemma NothingOlder(node: Node, minHeight: nat, lo: nat)
    requires IsOldestRead(node, Cut(node, minHeight), lo)
    requires lo < |node.log| ==> node.log[lo].height > Cut(node, minHeight)
    ensures Values(History(node, minHeight, lo).0) == []
  {
    assert lo > 0 ==> node.log[lo - 1].Clear?;
    ValuesOfEnding(EmptyString);
    ValuesOfEnding(node.otherwise);
  }

  lemma NoneBetween(log: seq<Entry>, k: nat)
    requires k <= |log|
    ensures Reverse(Flatten(log[k..k])) == []
  {
    assert log[k..k] == [];
  }

  /** From the first k entries on, the walk sees those from lo on, newest
      first. */
  lemma {:induction false} WalkIsReversedLog(node: Node, minHeight: nat, lo: nat, k: nat)
    requires Sorted(node.log) && !Loops(node, minHeight)
    requires IsOldestRead(node, Cut(node, minHeight), lo) && lo <= k <= |node.log|
    requires k < |node.log| ==> node.log[k].height > Cut(node, minHeight)
    ensures Values(History(node, minHeight, k).0) == Reverse(Flatten(node.log[lo..k]))
    decreases k
  {
    if k == lo {
      NothingOlder(node, minHeight, lo);
      NoneBetween(node.log, lo);
    } else {
      if node.log[k - 1].height > Cut(node, minHeight) {
        WalkIsReversedLog(node, minHeight, lo, k - 1);
      } else {
        assert lo == k - 1;
        NoneBetween(node.log, lo);
      }
      OneStepBack(node, minHeight, lo, k);
    }
  }

  lemma OneStepBack(node: Node, minHeight: nat, lo: nat, k: nat)
    requires Sorted(node.log) && !Loops(node, minHeight)
    requires Reads(node, Cut(node, minHeight), lo) && lo < k <= |node.log|
    requires k < |node.log| ==> node.log[k].height > Cut(node, minHeight)
    requires Reverse(Flatten(node.log[lo..k - 1])) ==
             if node.log[k - 1].height > Cut(node, minHeight) then Values(History(node, minHeight, k - 1).0) else []
    ensures Values(History(node, minHeight, k).0) == Reverse(Flatten(node.log[lo..k]))
  {
    NewestFirst(node.log, lo, k);
    WalkStep(node, minHeight, lo, k);
  }

  /** One cell of the walk: it goes on exactly below heights above the cut. */
  lemma WalkStep(node: Node, minHeight: nat, lo: nat, k: nat)
    requires Sorted(node.log) && !Loops(node, minHeight)
    requires Reads(node, Cut(node, minHeight), lo) && lo < k <= |node.log|
    requires k < |node.log| ==> node.log[k].height > Cut(node, minHeight)
    ensures
      var e := node.log[k - 1];
      Values(History(node, minHeight, k).0) ==
      Reverse(e.values) +
      (if e.height > Cut(node, minHeight) then Values(History(node, minHeight, k - 1).0) else [])
  {
    var e := node.log[k - 1];
    assert Reads(node, Cut(node, minHeight), k - 1);
    NotAtOne(node, minHeight, k);
    ValuesOfEnding(node.otherwise);
    var rest := if Stops(minHeight, e.height) then ([], None)
                else if e.height - 1 < node.pruned then Ending(node.otherwise)
                else History(node, minHeight, k - 1);
    ValuesLater(Some(e.values), rest.0);
  }

  /** What is read is the log from its end back to and including the first
      write at or below `minHeight`, or at or below what the node has, or up to
      where the cell was cleared, and nothing else: the last value there comes
      first. */
  lemma HistoryIsReversedLog(node: Node, minHeight: nat) returns (lo: nat)
    requires Sorted(node.log) && !Loops(node, minHeight)
    ensures lo <= |node.log| && IsOldestRead(node, Cut(node, minHeight), lo)
    ensures forall k | IsOldestRead(node, Cut(node, minHeight), k) :: k == lo
    ensures
      var kept, read := Flatten(node.log[lo..]), Values(History(node, minHeight, |node.log|).0);
      && read == Reverse(kept) && |read| == |kept|
      && forall i | 0 <= i < |read| :: read[i] == kept[|kept| - 1 - i]
  {
    lo := OldestReadExists(node, Cut(node, minHeight), |node.log|);
    forall k | IsOldestRead(node, Cut(node, minHeight), k) ensures k == lo {
      OnlyOneOldest(node, Cut(node, minHeight), lo, k);
    }
    WalkIsReversedLog(node, minHeight, lo, |node.log|);
    assert node.log[lo..|node.log|] == node.log[lo..];
    ReverseIs(Flatten(node.log[lo..]));
  }

  /** What the walk meets below the oldest write that it reads: nothing more
      to ask for, a cleared cell, or what the node answers where it has no
      cell. */
  ghost function EndAt(node: Node, minHeight: nat, lo: nat): Option<NoCell>
    requires lo <= |node.log|
  {
    var height := if lo < |node.log| then Some(node.log[lo].height) else None;
    if height.Some? && ((minHeight != 0 && height.value <= minHeight) || height.value == 0) then None
    else if height.Some? && height.value <= node.pruned then Some(node.otherwise)
    else if lo > 0 then Some(EmptyString)
    else Some(node.otherwise)
  }

  /** The writes from lo on, the last one first, then None for an empty cell at
      the end, and the error for a fault there. */
  ghost predicate InFull(log: seq<Entry>, lo: nat, k: nat, end: Option<NoCell>,
                         read: (seq<Option<seq<string>>>, Option<string>))
    requires lo <= k <= |log|
  {
    && |read.0| == k - lo + (if end == Some(EmptyString) then 1 else 0)
    && (forall j | lo <= j < k :: log[j].Write? && read.0[k - 1 - j] == Some(log[j].values))
    && (end == Some(EmptyString) ==> read.0[k - lo] == None)
    && read.1 == if end.Some? && end.value.Fault? then Some(end.value.message) else None
  }

  lemma {:induction false} WalkInFull(node: Node, minHeight: nat, lo: nat, k: nat)
    requires Sorted(node.log) && !Loops(node, minHeight)
    requires IsOldestRead(node, Cut(node, minHeight), lo) && lo <= k <= |node.log|
    requires k < |node.log| ==> node.log[k].height > Cut(node, minHeight)
    ensures InFull(node.log, lo, k, EndAt(node, minHeight, lo), History(node, minHeight, k))
    decreases k
  {
    if k == lo {
      assert lo > 0 ==> node.log[lo - 1].Clear?;
    } else if node.log[k - 1].height > Cut(node, minHeight) {
      WalkInFull(node, minHeight, lo, k - 1);
      InFullNext(node.log, lo, k, EndAt(node, minHeight, lo), History(node, minHeight, k - 1));
      assert After(node, k) == Cell(node.log[k - 1].height, node.log[k - 1].values);
      assert History(node, minHeight, k) == Later([Some(node.log[k - 1].values)], History(node, minHeight, k - 1));
    } else {
      assert lo == k - 1;
      var last := if Stops(minHeight, node.log[lo].height) then ([], None) else Ending(node.otherwise);
      InFullNext(node.log, lo, k, EndAt(node, minHeight, lo), last);
      assert After(node, k) == Cell(node.log[lo].height, node.log[lo].values);
      assert History(node, minHeight, k) == Later([Some(node.log[lo].values)], last);
    }
  }

  lemma InFullNext(log: seq<Entry>, lo: nat, k: nat, end: Option<NoCell>,
                   read: (seq<Option<seq<string>>>, Option<string>))
    requires lo < k <= |log| && log[k - 1].Write? && InFull(log, lo, k - 1, end, read)
    ensures InFull(log, lo, k, end, Later([Some(log[k - 1].values)], read))
  {
    var r := Later([Some(log[k - 1].values)], read);
    assert r.0[0] == Some(log[k - 1].values) && r.0[1..] == read.0;
    forall j | lo <= j < k ensures log[j].Write? && r.0[k - 1 - j] == Some(log[j].values) {
      if j < k - 1 {
        assert r.0[k - 1 - j] == read.0[k - 1 - 1 - j];
      }
    }
  }

  /** Everything that is read, chunk by chunk, and how it ends. */
  lemma HistoryInFull(node: Node, minHeight: nat) returns (lo: nat)
    requires Sorted(node.log) && !Loops(node, minHeight)
    ensures lo <= |node.log| && IsOldestRead(node, Cut(node, minHeight), lo)
    ensures InFull(node.log, lo, |node.log|, EndAt(node, minHeight, lo), History(node, minHeight, |node.log|))
  {
    lo := OldestReadExists(node, Cut(node, minHeight), |node.log|);
    WalkInFull(node, minHeight, lo, |node.log|);
  }

  // ---------------------------------------------------------- termination

  /** The walk between two queries: the height of the next one, or None when
      it is over. */
  function Next(node: Node, minHeight: nat, query: Option<nat>): Option<nat> {
    match query
    case None => None
    case Some(height) =>
      match CellAt(node, height)
      case Nothing(_) => None
      case Cell(found, _) => if Stops(minHeight, found) then None else Some(found - 1)
  }

  function Queries(node: Node, minHeight: nat, query: Option<nat>, n: nat): Option<nat>
    decreases n
  {
    if n == 0 then query else Queries(node, minHeight, Next(node, minHeight, query), n - 1)
  }

  lemma {:induction false} QueriesAdd(node: Node, minHeight: nat, query: Option<nat>, n: nat, m: nat)
    ensures Queries(node, minHeight, query, n + m) ==
            Queries(node, minHeight, Queries(node, minHeight, query, n), m)
    decreases n
  {
    if n == 0 {
    } else {
      QueriesAdd(node, minHeight, Next(node, minHeight, query), n - 1, m);
    }
  }

  lemma {:induction false} OverStaysOver(node: Node, minHeight: nat, n: nat)
    ensures Queries(node, minHeight, None, n) == None
    decreases n
  {
    if n == 0 {
    } else {
      OverStaysOver(node, minHeight, n - 1);
    }
  }

  /** From the latest state the walk comes to a write at height 1 and then to
      the latest state again. */
  lemma {:induction false} ComesRound(node: Node, i: nat, k: nat, query: nat) returns (n: nat)
    requires Sorted(node.log)
    requires i < k <= |node.log| && node.log[i].height == 1 && Reads(node, node.pruned, i)
    requires CellAt(node, query) == After(node, k)
    ensures n > 0 && Queries(node, 0, Some(query), n) == Some(0)
    decreases k
  {
    var found := node.log[k - 1].height;
    assert Next(node, 0, Some(query)) == Some(found - 1);
    assert Queries(node, 0, Some(found - 1), 0) == Some(found - 1);
    assert Queries(node, 0, Some(query), 1) == Some(found - 1);
    if k - 1 == i {
      n := 1;
    } else {
      assert node.log[i].height < found;
      NextQuery(node, k);
      n := ComesRound(node, i, k - 1, found - 1);
      n := n + 1;
    }
  }

  lemma {:induction false} RoundAndRound(node: Node, minHeight: nat, period: nat, n: nat)
    requires period > 0 && Queries(node, minHeight, Some(0), period) == Some(0)
    ensures Queries(node, minHeight, Some(0), n).Some?
    decreases n
  {
    if n >= period {
      QueriesAdd(node, minHeight, Some(0), period, n - period);
      RoundAndRound(node, minHeight, period, n - period);
    } else if Queries(node, minHeight, Some(0), n).None? {
      QueriesAdd(node, minHeight, Some(0), n, period - n);
      OverStaysOver(node, minHeight, period - n);
    }
  }

  lemma {:induction false} ComesToAnEnd(node: Node, minHeight: nat, k: nat, query: nat)
    requires Sorted(node.log) && !Loops(node, minHeight)
    requires k <= |node.log| && CellAt(node, query) == After(node, k)
    requires Reads(node, Cut(node, minHeight), k)
    requires k < |node.log| ==> node.log[k].height > Cut(node, minHeight)
    ensures Queries(node, minHeight, Some(query), k + 1) == None
    decreases k
  {
    var next := Next(node, minHeight, Some(query));
    assert Queries(node, minHeight, Some(query), k + 1) == Queries(node, minHeight, next, k);
    if next.None? {
      OverStaysOver(node, minHeight, k);
    } else {
      var found := node.log[k - 1].height;
      assert Reads(node, Cut(node, minHeight), k - 1);
      NotAtOne(node, minHeight, k);
      NextQuery(node, k);
      if found - 1 < node.pruned {
        var last := Next(node, minHeight, next);
        assert last == None;
        assert Queries(node, minHeight, next, k) == Queries(node, minHeight, last, k - 1);
        OverStaysOver(node, minHeight, k - 1);
      } else {
        ComesToAnEnd(node, minHeight, k - 1, found - 1);
      }
    }
  }

  /** The walk ends exactly unless it has no lower limit and comes to a write
      at height 1. */
  lemma EndsExactly(node: Node, minHeight: nat)
    requires Sorted(node.log)
    ensures (exists n :: Queries(node, minHeight, Some(0), n) == None) <==> !Loops(node, minHeight)
  {
    if Loops(node, minHeight) {
      var i :| 0 <= i < |node.log| && node.log[i].height == 1 && Reads(node, node.pruned, i);
      var period := ComesRound(node, i, |node.log|, 0);
      forall n: nat
        ensures Queries(node, minHeight, Some(0), n) != None
      {
        RoundAndRound(node, minHeight, period, n);
      }
    } else {
      ComesToAnEnd(node, minHeight, |node.log|, 0);
    }
  }

  /** It does loop: a cell that was first written at height 1, read without a
      lower limit. */
  lemma FirstBlockLoops(values: seq<string>, n: nat)
    ensures
      var node := Node([Write(1, values)], 0, UnknownRequest);
      && Sorted(node.log) && Loops(node, 0) && Queries(node, 0, Some(0), n) == Some(0)
  {
    var node := Node([Write(1, values)], 0, UnknownRequest);
    assert Reads(node, 0, 0);
    if n > 0 {
      FirstBlockLoops(values, n - 1);
      assert Next(node, 0, Some(0)) == Some(0);
    }
  }
}
