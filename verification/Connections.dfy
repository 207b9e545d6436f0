/**
Relay-style pagination.  `Build` is what `build_connection` returns; `RelayEdges` is the algorithm
of section 4.4 of the GraphQL Cursor Connections Specification.
*/
module Connections {
  import opened Integers
  import opened Wrappers
  import opened Text

  const CURSOR_PREFIX := "cursor:"

  /** The text of a cursor; its base64 wrapping is not part of this model. */
  function EncodeCursor(offset: nat): string {
    CURSOR_PREFIX + Decimal(offset)
  }

  predicate AllDigits(s: string) {
    |s| > 0 && forall k :: 0 <= k < |s| ==> IsDigit(s[k])
  }

  /** None stands for the ValueError of an invalid cursor. A client may send a negative offset. */
  function DecodeCursor(cursor: string): Option<int> {
    if !StartsWith(cursor, CURSOR_PREFIX) then None
    else
      var digits := cursor[|CURSOR_PREFIX|..];
      if AllDigits(digits) then Some(ParseDecimal(digits))
      else if |digits| > 1 && digits[0] == '-' && AllDigits(digits[1..]) then Some(0 - ParseDecimal(digits[1..]) as int)
      else None
  }

  lemma CursorRoundTrip(offset: nat)
    ensures DecodeCursor(EncodeCursor(offset)) == Some(offset)
  {
    var cursor := EncodeCursor(offset);
    assert cursor[..|CURSOR_PREFIX|] == CURSOR_PREFIX;
    assert cursor[|CURSOR_PREFIX|..] == Decimal(offset);
    ParseOfDecimal(offset);
  }

  datatype Edge<U> = Edge(node: U, cursor: string)

  datatype Connection<U> = Connection(
    edges: seq<Edge<U>>,
    nodes: seq<U>,
    hasNextPage: bool,
    hasPreviousPage: bool,
    startCursor: Option<string>,
    endCursor: Option<string>,
    totalCount: int)

  // ---------------------------------------------------------------- build_connection

  /** The half-open window the arguments select, before slicing; its end may still be negative. */
  function Window(length: nat, first: Option<int>, after: Option<int>, last: Option<int>,
                  before: Option<int>): (w: (int, int))
    ensures w.0 >= 0 && w.1 <= length
  {
    var start := if after.Some? then after.value + 1 else 0;
    var end := if before.Some? then Min(length, before.value) else length;
    var cut := if first.Some? then Min(end, start + first.value) else end;
    var from := if last.Some? then Max(start, cut - last.value) else start;
    (Max(0, from), Min(length, cut))
  }

  /** `items[start:end]`: a negative end counts from the back, and bounds that cross select nothing. */
  function Slice<T>(items: seq<T>, start: nat, end: int): seq<T> {
    var stop := if end < 0 then Max(0, end + |items|) else Min(end, |items|);
    if start < stop then items[start..stop] else []
  }

  function DecodeOptional(cursor: Option<string>): Option<Option<int>> {
    if cursor.None? then Some(None)
    else if DecodeCursor(cursor.value).None? then None
    else Some(DecodeCursor(cursor.value))
  }

  function Nodes<T, U>(sliced: seq<T>, convert: T -> U): (r: seq<U>)
    ensures |r| == |sliced|
  {
    seq(|sliced|, i requires 0 <= i < |sliced| => convert(sliced[i]))
  }

  function Edges<T, U>(sliced: seq<T>, convert: T -> U, start: nat): (r: seq<Edge<U>>)
    ensures |r| == |sliced|
  {
    seq(|sliced|, i requires 0 <= i < |sliced| => Edge(convert(sliced[i]), EncodeCursor(start + i)))
  }

  function Assemble<T, U>(items: seq<T>, convert: T -> U, total: int, start: nat, end: int): Connection<U> {
    var sliced := Slice(items, start, end);
    var edges := Edges(sliced, convert, start);
    Connection(edges, Nodes(sliced, convert), end < |items|, start > 0,
               if edges == [] then None else Some(edges[0].cursor),
               if edges == [] then None else Some(edges[|edges| - 1].cursor),
               total)
  }

  /** The window of a request, or None when a cursor in it is invalid. */
  function RequestWindow(length: nat, first: Option<int>, after: Option<string>, last: Option<int>,
                         before: Option<string>): (w: Option<(int, int)>)
    ensures w.Some? ==> w.value.0 >= 0
  {
    var a, b := DecodeOptional(after), DecodeOptional(before);
    if a.None? || b.None? then None else Some(Window(length, first, a.value, last, b.value))
  }

  function Build<T, U>(items: seq<T>, convert: T -> U, total: int, first: Option<int>, after: Option<string>,
                       last: Option<int>, before: Option<string>): Option<Connection<U>> {
    var w := RequestWindow(|items|, first, after, last, before);
    if w.None? then None else Some(Assemble(items, convert, total, w.value.0, w.value.1))
  }

  method SelectWindow(length: nat, first: Option<int>, after: Option<string>, last: Option<int>, before: Option<string>)
    returns (w: Option<(int, int)>)
    ensures w == RequestWindow(length, first, after, last, before)
  {
    var start, end := 0, length;
    if after.Some? {
      var offset := DecodeCursor(after.value);
      if offset.None? { return None; }
      start := offset.value + 1;
    }
    if before.Some? {
      var offset := DecodeCursor(before.value);
      if offset.None? { return None; }
      end := Min(end, offset.value);
    }
    if first.Some? {
      end := Min(end, start + first.value);
    }
    if last.Some? {
      start := Max(start, end - last.value);
    }
    start := Max(0, start);
    end := Min(length, end);
    w := Some((start, end));
  }

  method BuildConnection<T, U>(items: seq<T>, convert: T -> U, total: int, first: Option<int>, after: Option<string>,
                               last: Option<int>, before: Option<string>)
    returns (r: Option<Connection<U>>)
    ensures r == Build(items, convert, total, first, after, last, before)
  {
    var w := SelectWindow(|items|, first, after, last, before);
    if w.None? { return None; }
    var (start, end) := w.value;
    var nodes, edges := ConvertEdges(Slice(items, start, end), convert, start);
    var startCursor, endCursor := None, None;
    if |edges| > 0 {
      startCursor, endCursor := Some(edges[0].cursor), Some(edges[|edges| - 1].cursor);
    }
    r := Some(Connection(edges, nodes, end < |items|, start > 0, startCursor, endCursor, total));
  }

  method ConvertEdges<T, U>(sliced: seq<T>, convert: T -> U, start: nat) returns (nodes: seq<U>, edges: seq<Edge<U>>)
    ensures nodes == Nodes(sliced, convert)
    ensures edges == Edges(sliced, convert, start)
  {
    nodes, edges := [], [];
    for i := 0 to |sliced|
      invariant |edges| == |nodes| == i
      invariant forall k :: 0 <= k < i ==> nodes[k] == convert(sliced[k])
      invariant forall k :: 0 <= k < i ==> edges[k] == Edge(convert(sliced[k]), EncodeCursor(start + k))
    {
      var converted := convert(sliced[i]);
      edges := edges + [Edge(converted, EncodeCursor(start + i))];
      nodes := nodes + [converted];
    }
  }

  // ---------------------------------------------------------------- the Relay algorithm

  function Range(from: int, stop: int): (r: seq<int>)
    ensures |r| == if from < stop then stop - from else 0
    ensures forall i :: 0 <= i < |r| ==> r[i] == from + i
  {
    if from < stop then seq(stop - from, i requires 0 <= i < stop - from => from + i) else []
  }

  /** Position of the edge with the given cursor, or the number of edges if there is none. */
  function Position(edges: seq<int>, cursor: int): (k: nat)
    ensures k <= |edges| && (k < |edges| ==> edges[k] == cursor)
    ensures k == |edges| ==> cursor !in edges
  {
    if edges == [] then 0 else if edges[0] == cursor then 0 else 1 + Position(edges[1..], cursor)
  }

  function ApplyCursors(edges: seq<int>, after: Option<int>, before: Option<int>): seq<int> {
    var fromAfter :=
      if after.Some? && Position(edges, after.value) < |edges| then edges[Position(edges, after.value) + 1..]
        else edges;
    if before.Some? && Position(fromAfter, before.value) < |fromAfter|
    then fromAfter[..Position(fromAfter, before.value)] else fromAfter
  }

  function Foremost(edges: seq<int>, count: nat): seq<int> {
    if |edges| > count then edges[..count] else edges
  }

  function Hindmost(edges: seq<int>, count: nat): seq<int> {
    if |edges| > count then edges[|edges| - count..] else edges
  }

  function ApplyLimits(edges: seq<int>, first: Option<nat>, last: Option<nat>): seq<int> {
    var cut := if first.Some? then Foremost(edges, first.value) else edges;
    if last.Some? then Hindmost(cut, last.value) else cut
  }

  /** EdgesToReturn on edges named by their offsets: cursors first, then `first`, then `last`. */
  function RelayEdges(length: nat, first: Option<nat>, after: Option<int>, last: Option<nat>,
                      before: Option<int>): seq<int> {
    ApplyLimits(ApplyCursors(Range(0, length), after, before), first, last)
  }

  predicate InRange(cursor: Option<int>, length: nat) {
    cursor.Some? ==> 0 <= cursor.value < length
  }

  lemma PositionInRange(from: int, stop: int, cursor: int)
    requires from <= stop
    ensures Position(Range(from, stop), cursor) == if from <= cursor < stop then cursor - from else stop - from
  {
    var edges := Range(from, stop);
    var k := Position(edges, cursor);
    if from <= cursor < stop {
      assert edges[cursor - from] == cursor;
    }
  }

  /** What the cursors leave of all the offsets: a cursor that is not among them is ignored. */
  function CursorBounds(length: nat, after: Option<int>, before: Option<int>): (int, int) {
    var start := if after.Some? then after.value + 1 else 0;
    (start, if before.Some? && before.value >= start then before.value else length)
  }

  /** What the limits leave of the offsets from start up to stop. */
  function LimitBounds(start: int, stop: int, first: Option<nat>, last: Option<nat>): (int, int) {
    var cut := if first.Some? && stop - start > first.value then start + first.value else stop;
    (if last.Some? && cut - start > last.value then cut - last.value else start, cut)
  }

  lemma CursorsOnRange(length: nat, after: Option<int>, before: Option<int>)
    requires InRange(after, length) && InRange(before, length)
    ensures var (start, stop) := CursorBounds(length, after, before);
            ApplyCursors(Range(0, length), after, before) == Range(start, stop)
  {
    var start := if after.Some? then after.value + 1 else 0;
    if after.Some? {
      PositionInRange(0, length, after.value);
    }
    var fromAfter := Range(start, length);
    assert fromAfter == Range(0, length)[start..];
    if before.Some? {
      PositionInRange(start, length, before.value);
      if before.value >= start {
        assert fromAfter[..before.value - start] == Range(start, before.value);
      }
    }
  }

  /** The window and the algorithm differ only on crossed cursors that leave the algorithm something to return. */
  predicate CrossedWithEdges(length: nat, first: Option<nat>, after: Option<int>, last: Option<nat>,
                             before: Option<int>) {
    && after.Some? && before.Some? && before.value <= after.value
    && after.value + 1 < length
    && first != Some(0) && last != Some(0)
  }

  function Issued(offset: Option<int>): Option<string>
    requires offset.Some? ==> offset.value >= 0
  {
    if offset.None? then None else Some(EncodeCursor(offset.value))
  }

  /** The edges at some offsets, each with the cursor that names its offset. */
  function EdgesAt<T, U>(items: seq<T>, convert: T -> U, offsets: seq<int>): (r: seq<Edge<U>>)
    requires forall i :: 0 <= i < |offsets| ==> 0 <= offsets[i] < |items|
    ensures |r| == |offsets|
  {
    seq(|offsets|, i requires 0 <= i < |offsets| => Edge(convert(items[offsets[i]]), EncodeCursor(offsets[i])))
  }

  /**
  For limits that are not negative and cursors the connection issued, `build_connection` returns
  the edges of the Relay algorithm exactly when the cursors are not crossed, or the algorithm
  returns nothing either.  (Crossed, the algorithm ignores `before`; the code returns nothing.)
  */
  lemma BuildIsRelayIff<T, U>(items: seq<T>, convert: T -> U, total: int,
                              first: Option<nat>, after: Option<int>, last: Option<nat>, before: Option<int>)
    requires InRange(after, |items|) && InRange(before, |items|)
    ensures var offsets := RelayEdges(|items|, first, after, last, before);
            forall i :: 0 <= i < |offsets| ==> 0 <= offsets[i] < |items|
    ensures var c := Build(items, convert, total, first, Issued(after), last, Issued(before));
            && c.Some?
            && (c.value.edges == EdgesAt(items, convert, RelayEdges(|items|, first, after, last, before))
                <==> !CrossedWithEdges(|items|, first, after, last, before))
  {
    var w := Window(|items|, first, after, last, before);
    WindowOfIssued(|items|, first, after, last, before);
    WindowIsRelayIff(|items|, first, after, last, before);
    RelayIsItsBounds(|items|, first, after, last, before);
    var r := RelayBounds(|items|, first, after, last, before);
    SliceIsRange(items, convert, w.0, w.1);
    if CrossedWithEdges(|items|, first, after, last, before) {
      assert |Range(w.0, w.1)| == 0 < |Range(r.0, r.1)|;
    }
  }

  lemma WindowOfIssued(length: nat, first: Option<nat>, after: Option<int>, last: Option<nat>, before: Option<int>)
    requires InRange(after, length) && InRange(before, length)
    ensures RequestWindow(length, first, Issued(after), last, Issued(before))
         == Some(Window(length, first, after, last, before))
    ensures Window(length, first, after, last, before).1 >= 0
  {
    if after.Some? { CursorRoundTrip(after.value); }
    if before.Some? { CursorRoundTrip(before.value); }
  }

  lemma SliceIsRange<T, U>(items: seq<T>, convert: T -> U, start: nat, end: nat)
    requires end <= |items|
    ensures Edges(Slice(items, start, end), convert, start) == EdgesAt(items, convert, Range(start, end))
  {
  }

  lemma WindowIsRelayIff(length: nat, first: Option<nat>, after: Option<int>, last: Option<nat>, before: Option<int>)
    requires InRange(after, length) && InRange(before, length)
    ensures var w := Window(length, first, after, last, before);
            (Range(w.0, w.1) == RelayEdges(length, first, after, last, before))
              <==> !CrossedWithEdges(length, first, after, last, before)
  {
    var w := Window(length, first, after, last, before);
    var r := RelayBounds(length, first, after, last, before);
    RelayIsItsBounds(length, first, after, last, before);
    SameRange(w.0, w.1, r.0, r.1);
    WindowIsRelayBoundsIff(length, first, after, last, before);
  }

  lemma WindowIsRelayBoundsIff(length: nat, first: Option<nat>, after: Option<int>, last: Option<nat>,
                               before: Option<int>)
    requires InRange(after, length) && InRange(before, length)
    ensures var w, r := Window(length, first, after, last, before), RelayBounds(length, first, after, last, before);
            w == r || (w.0 >= w.1 && r.0 >= r.1) <==> !CrossedWithEdges(length, first, after, last, before)
  {
  }

  lemma SameRange(a: int, b: int, c: int, d: int)
    ensures Range(a, b) == Range(c, d) <==> (a == c && b == d) || (a >= b && c >= d)
  {
    if Range(a, b) == Range(c, d) && a < b {
      assert Range(a, b)[0] == Range(c, d)[0];
    }
  }

  /** The offsets the algorithm keeps are consecutive: from one bound up to the other. */
  function RelayBounds(length: nat, first: Option<nat>, after: Option<int>, last: Option<nat>,
                       before: Option<int>): (int, int) {
    var (start, stop) := CursorBounds(length, after, before);
    LimitBounds(start, stop, first, last)
  }

  lemma KeepFirst(from: int, stop: int, count: nat)
    ensures Foremost(Range(from, stop), count) == Range(from, if stop - from > count then from + count else stop)
  {
  }

  lemma KeepLast(from: int, stop: int, count: nat)
    ensures Hindmost(Range(from, stop), count) == Range(if stop - from > count then stop - count else from, stop)
  {
  }

  lemma LimitsOnRange(start: int, stop: int, first: Option<nat>, last: Option<nat>)
    ensures var (from, cut) := LimitBounds(start, stop, first, last);
            ApplyLimits(Range(start, stop), first, last) == Range(from, cut)
  {
    var cut := if first.Some? && stop - start > first.value then start + first.value else stop;
    if first.Some? {
      KeepFirst(start, stop, first.value);
    }
    if last.Some? {
      KeepLast(start, cut, last.value);
    }
  }

  lemma RelayIsItsBounds(length: nat, first: Option<nat>, after: Option<int>, last: Option<nat>, before: Option<int>)
    requires InRange(after, length) && InRange(before, length)
    ensures var r := RelayBounds(length, first, after, last, before);
            RelayEdges(length, first, after, last, before) == Range(r.0, r.1)
  {
    var (start, stop) := CursorBounds(length, after, before);
    CursorsOnRange(length, after, before);
    LimitsOnRange(start, stop, first, last);
  }

  /** Crossed cursors do occur: three items, after the last but one, before the first. */
  lemma CrossedCursorsDiffer()
    ensures RelayEdges(3, None, Some(1), None, Some(0)) == [2]
    ensures Window(3, None, Some(1), None, Some(0)) == (2, 0)
  {
    CursorsOnRange(3, Some(1), Some(0));
    assert Range(2, 3) == [2];
  }

  // ---------------------------------------------------------------- every connection

  predicate Undecodable(cursor: Option<string>) {
    cursor.Some? && DecodeCursor(cursor.value) == None
  }

  /** The edges are those of consecutive items, the first at this offset, each with the cursor of its own. */
  ghost predicate EdgesFrom<T, U>(c: Connection<U>, items: seq<T>, convert: T -> U, start: nat) {
    && start + |c.edges| <= |items|
    && forall i :: 0 <= i < |c.edges| ==> c.edges[i] == Edge(convert(items[start + i]), EncodeCursor(start + i))
  }

  /** The page says where its first and last edge are, and whether there are more items before or after them. */
  ghost predicate TellsItsPlace<T, U>(c: Connection<U>, items: seq<T>, convert: T -> U) {
    && |c.nodes| == |c.edges| && (forall i :: 0 <= i < |c.edges| ==> c.nodes[i] == c.edges[i].node)
    && if c.edges == [] then c.startCursor == None && c.endCursor == None
       else
         && c.startCursor == Some(c.edges[0].cursor) && c.endCursor == Some(c.edges[|c.edges| - 1].cursor)
         && exists start: nat ::
              && EdgesFrom(c, items, convert, start)
              && (c.hasPreviousPage <==> start > 0) && (c.hasNextPage <==> start + |c.edges| < |items|)
  }

  lemma AssembledTells<T, U>(items: seq<T>, convert: T -> U, total: int, start: nat, end: int)
    ensures TellsItsPlace(Assemble(items, convert, total, start, end), items, convert)
  {
    var c := Assemble(items, convert, total, start, end);
    if c.edges != [] {
      assert EdgesFrom(c, items, convert, start);
    }
  }

  /**
  Whatever the limits and the cursors: a request fails exactly when a cursor in it is invalid, and otherwise
  returns consecutive items, and says of them rightly where they are.
  */
  lemma ConnectionIs<T, U>(items: seq<T>, convert: T -> U, total: int, first: Option<int>, after: Option<string>,
                           last: Option<int>, before: Option<string>)
    ensures var c := Build(items, convert, total, first, after, last, before);
            && (c == None <==> Undecodable(after) || Undecodable(before))
            && (c.Some? ==> c.value.totalCount == total && TellsItsPlace(c.value, items, convert))
  {
    var w := RequestWindow(|items|, first, after, last, before);
    if w.Some? {
      AssembledTells(items, convert, total, w.value.0, w.value.1);
    }
  }

  /** A negative `first` by itself leaves that many items off the end. */
  lemma NegativeFirst<T, U>(items: seq<T>, convert: T -> U, total: int, k: nat)
    requires 0 < k <= |items|
    ensures var c := Build(items, convert, total, Some(-(k as int)), None, None, None);
            c.Some? && c.value.nodes == Nodes(items[..|items| - k], convert)
  {
  }

  /** A number after the prefix may be negative. */
  lemma NegativeDecodes(offset: nat)
    ensures DecodeCursor(CURSOR_PREFIX + ("-" + Decimal(offset))) == Some(-(offset as int))
  {
    var digits := "-" + Decimal(offset);
    var cursor := CURSOR_PREFIX + digits;
    assert cursor[..|CURSOR_PREFIX|] == CURSOR_PREFIX && cursor[|CURSOR_PREFIX|..] == digits;
    assert digits[0] == '-' && !IsDigit(digits[0]);
    assert digits[1..] == Decimal(offset);
    ParseOfDecimal(offset);
  }

  /** Nothing but the prefix and a number decodes. */
  lemma OnlyNumbersDecode(cursor: string)
    requires DecodeCursor(cursor).Some?
    ensures StartsWith(cursor, "cursor:")
    ensures AllDigits(cursor[7..]) || (|cursor| > 8 && cursor[7] == '-' && AllDigits(cursor[8..]))
  {
    assert cursor[7..][1..] == if |cursor| > 7 then cursor[8..] else [];
  }

  // ---------------------------------------------------------------- walking the pages

  function Converted<T, U>(items: seq<T>, convert: T -> U): seq<U> {
    seq(|items|, i requires 0 <= i < |items| => convert(items[i]))
  }

  function Flatten<U>(pages: seq<seq<U>>): seq<U> {
    if pages == [] then [] else pages[0] + Flatten(pages[1..])
  }

  lemma {:induction false} FlattenConcat<U>(a: seq<seq<U>>, b: seq<seq<U>>)
    ensures Flatten(a + b) == Flatten(a) + Flatten(b)
    decreases |a|
  {
    if a == [] {
      assert a + b == b;
    } else {
      assert (a + b)[0] == a[0] && (a + b)[1..] == a[1..] + b;
      FlattenConcat(a[1..], b);
    }
  }

  /** The page a window selects: its nodes, and what the window's ends say about more pages. */
  lemma PageOfWindow<T, U>(items: seq<T>, convert: T -> U, total: int, start: nat, end: nat)
    requires start <= end <= |items|
    ensures var c := Assemble(items, convert, total, start, end);
            && c.nodes == Converted(items, convert)[start..end]
            && (start < end ==>
                  c.startCursor == Some(EncodeCursor(start)) && c.endCursor == Some(EncodeCursor(end - 1)))
  {
    assert Nodes(items[start..end], convert) == Converted(items, convert)[start..end];
  }

  lemma ForwardWindow(length: nat, size: nat, from: nat)
    requires size > 0 && from <= length
    ensures var after := if from == 0 then None else Some(EncodeCursor(from - 1));
            RequestWindow(length, Some(size), after, None, None) == Some((from, Min(length, from + size)))
  {
    if from > 0 { CursorRoundTrip(from - 1); }
  }

  lemma BackwardWindow(length: nat, size: nat, stop: nat)
    requires size > 0 && stop <= length
    ensures var before := if stop == length then None else Some(EncodeCursor(stop));
            RequestWindow(length, None, None, Some(size), before) == Some((Max(0, stop - size), stop))
  {
    if stop < length { CursorRoundTrip(stop); }
  }

  /** A page asked for with `first` after offset `from - 1`. */
  lemma ForwardPage<T, U>(items: seq<T>, convert: T -> U, total: int, size: nat, from: nat)
    requires size > 0 && from <= |items|
    ensures var after := if from == 0 then None else Some(EncodeCursor(from - 1));
            var stop := Min(|items|, from + size);
            var c := Build(items, convert, total, Some(size), after, None, None);
            && c.Some?
            && c.value.nodes == Converted(items, convert)[from..stop]
            && (c.value.hasNextPage <==> stop < |items|)
            && (from < |items| ==> c.value.endCursor == Some(EncodeCursor(stop - 1)))
  {
    ForwardWindow(|items|, size, from);
    PageOfWindow(items, convert, total, from, Min(|items|, from + size));
  }

  /** A page asked for with `last` before offset `stop`. */
  lemma BackwardPage<T, U>(items: seq<T>, convert: T -> U, total: int, size: nat, stop: nat)
    requires size > 0 && stop <= |items|
    ensures var before := if stop == |items| then None else Some(EncodeCursor(stop));
            var from := Max(0, stop - size);
            var c := Build(items, convert, total, None, None, Some(size), before);
            && c.Some?
            && c.value.nodes == Converted(items, convert)[from..stop]
            && (c.value.hasPreviousPage <==> from > 0)
            && (stop > 0 ==> c.value.startCursor == Some(EncodeCursor(from)))
  {
    BackwardWindow(|items|, size, stop);
    PageOfWindow(items, convert, total, Max(0, stop - size), stop);
  }

  function PageFrom<T, U>(items: seq<T>, convert: T -> U, total: int, size: nat, from: nat): (c: Connection<U>)
    requires size > 0 && from <= |items|
    ensures c.nodes == Converted(items, convert)[from..Min(|items|, from + size)]
    ensures c.hasNextPage <==> Min(|items|, from + size) < |items|
    ensures from < |items| ==> c.endCursor == Some(EncodeCursor(Min(|items|, from + size) - 1))
  {
    ForwardPage(items, convert, total, size, from);
    Build(items, convert, total, Some(size), if from == 0 then None else Some(EncodeCursor(from - 1)), None, None).value
  }

  /**
  The pages a client collects that follows the end cursor while there is a next page, page p of any
  size it likes.
  */
  function WalkForward<T, U>(items: seq<T>, convert: T -> U, total: int, sizes: nat -> nat, page: nat,
                             from: nat): seq<seq<U>>
    requires from <= |items| && forall p :: sizes(p) > 0
    decreases |items| - from
  {
    var c := PageFrom(items, convert, total, sizes(page), from);
    if !c.hasNextPage then [c.nodes]
    else
      CursorRoundTrip(Min(|items|, from + sizes(page)) - 1);
      [c.nodes] + WalkForward(items, convert, total, sizes, page + 1, DecodeCursor(c.endCursor.value).value + 1)
  }

  /** The pages a list falls into, page p holding as many items as are asked for, or what is left. */
  function Pages<U>(all: seq<U>, sizes: nat -> nat, page: nat): seq<seq<U>>
    requires forall p :: sizes(p) > 0
    decreases |all|
  {
    if |all| <= sizes(page) then [all] else [all[..sizes(page)]] + Pages(all[sizes(page)..], sizes, page + 1)
  }

  lemma FlattenCons<U>(first: seq<U>, rest: seq<seq<U>>)
    ensures Flatten([first] + rest) == first + Flatten(rest)
  {
    assert ([first] + rest)[1..] == rest;
  }

  lemma FlattenOne<U>(only: seq<U>)
    ensures Flatten([only]) == only
  {
    assert [only][1..] == [];
  }

  /** The pages hold every item exactly once, in order, and only the last can be shorter than asked for. */
  ghost predicate Cover<U>(pages: seq<seq<U>>, all: seq<U>, sizes: nat -> nat, page: nat) {
    && Flatten(pages) == all
    && |pages| > 0
    && forall p :: 0 <= p < |pages| - 1 ==> |pages[p]| == sizes(page + p)
  }

  lemma {:induction false} PagesHoldAll<U>(all: seq<U>, sizes: nat -> nat, page: nat)
    requires forall p :: sizes(p) > 0
    ensures Cover(Pages(all, sizes, page), all, sizes, page)
    decreases |all|
  {
    var size := sizes(page);
    if |all| <= size {
      FlattenOne(all);
    } else {
      var rest := Pages(all[size..], sizes, page + 1);
      PagesHoldAll(all[size..], sizes, page + 1);
      FlattenCons(all[..size], rest);
      var pages := [all[..size]] + rest;
      forall p | 0 <= p < |pages| - 1 ensures |pages[p]| == sizes(page + p) {
        if p > 0 {
          assert pages[p] == rest[p - 1];
          assert page + p == (page + 1) + (p - 1);
        }
      }
    }
  }

  /** One step of the walk: the page that starts at `from`, then the walk from where it ends. */
  lemma WalkForwardStep<T, U>(items: seq<T>, convert: T -> U, total: int, sizes: nat -> nat, page: nat, from: nat)
    requires from <= |items| && forall p :: sizes(p) > 0
    ensures var stop := Min(|items|, from + sizes(page));
            var here := Converted(items, convert)[from..stop];
            WalkForward(items, convert, total, sizes, page, from)
              == if stop < |items| then [here] + WalkForward(items, convert, total, sizes, page + 1, stop) else [here]
  {
    var stop := Min(|items|, from + sizes(page));
    var c := PageFrom(items, convert, total, sizes(page), from);
    if c.hasNextPage {
      CursorRoundTrip(stop - 1);
      assert DecodeCursor(c.endCursor.value).value + 1 == stop;
    }
  }

  lemma PagesStep<U>(all: seq<U>, sizes: nat -> nat, page: nat, from: nat)
    requires from <= |all| && forall p :: sizes(p) > 0
    ensures var stop := Min(|all|, from + sizes(page));
            Pages(all[from..], sizes, page)
              == if stop < |all| then [all[from..stop]] + Pages(all[stop..], sizes, page + 1) else [all[from..stop]]
  {
    var stop := Min(|all|, from + sizes(page));
    var rest := all[from..];
    if stop < |all| {
      assert rest[..sizes(page)] == all[from..stop];
      assert rest[sizes(page)..] == all[stop..];
    } else {
      assert rest == all[from..stop];
    }
  }

  lemma WalkStepIsPagesStep<T, U>(items: seq<T>, convert: T -> U, total: int, sizes: nat -> nat, page: nat, from: nat)
    requires from <= |items| && forall p :: sizes(p) > 0
    requires var stop := Min(|items|, from + sizes(page));
             stop < |items| ==>
               WalkForward(items, convert, total, sizes, page + 1, stop)
               == Pages(Converted(items, convert)[stop..], sizes, page + 1)
    ensures WalkForward(items, convert, total, sizes, page, from)
         == Pages(Converted(items, convert)[from..], sizes, page)
  {
    WalkForwardStep(items, convert, total, sizes, page, from);
    PagesStep(Converted(items, convert), sizes, page, from);
  }

  /**
  Following end cursors, asking for any positive number of items each time, ends, and yields exactly
  the pages of the list from there on: every item once, in order (see `PagesHoldAll`).
  */
  lemma {:induction false} ForwardWalkIsPages<T, U>(items: seq<T>, convert: T -> U, total: int, sizes: nat -> nat,
                                                    page: nat, from: nat)
    requires from <= |items| && forall p :: sizes(p) > 0
    ensures WalkForward(items, convert, total, sizes, page, from)
         == Pages(Converted(items, convert)[from..], sizes, page)
    decreases |items| - from
  {
    var stop := Min(|items|, from + sizes(page));
    if stop < |items| {
      ForwardWalkIsPages(items, convert, total, sizes, page + 1, stop);
      WalkStepIsPagesStep(items, convert, total, sizes, page, from);
    } else {
      WalkStepIsPagesStep(items, convert, total, sizes, page, from);
    }
  }

  /** From the first item (`from` is 0) or from any other: nothing is skipped, repeated or reordered. */
  lemma ForwardWalkVisitsAll<T, U>(items: seq<T>, convert: T -> U, total: int, sizes: nat -> nat, page: nat, from: nat)
    requires from <= |items| && forall p :: sizes(p) > 0
    ensures Cover(WalkForward(items, convert, total, sizes, page, from), Converted(items, convert)[from..], sizes, page)
  {
    ForwardWalkIsPages(items, convert, total, sizes, page, from);
    PagesHoldAll(Converted(items, convert)[from..], sizes, page);
  }

  /** The mirror image: following start cursors while there is a previous page, pages collected front to back. */
  function WalkBackward<T, U>(items: seq<T>, convert: T -> U, total: int, sizes: nat -> nat, page: nat,
                              stop: nat): seq<seq<U>>
    requires stop <= |items| && forall p :: sizes(p) > 0
    decreases stop
  {
    BackwardPage(items, convert, total, sizes(page), stop);
    var before := if stop == |items| then None else Some(EncodeCursor(stop));
    var c := Build(items, convert, total, None, None, Some(sizes(page)), before).value;
    if !c.hasPreviousPage then [c.nodes]
    else
      CursorRoundTrip(Max(0, stop - sizes(page)));
      WalkBackward(items, convert, total, sizes, page + 1, DecodeCursor(c.startCursor.value).value) + [c.nodes]
  }

  /** Pages counted from the back of the list, listed front to back. */
  function PagesFromBack<U>(all: seq<U>, sizes: nat -> nat, page: nat): seq<seq<U>>
    requires forall p :: sizes(p) > 0
    decreases |all|
  {
    if |all| <= sizes(page) then [all]
    else PagesFromBack(all[..|all| - sizes(page)], sizes, page + 1) + [all[|all| - sizes(page)..]]
  }

  /** The same, the short page being the first. */
  ghost predicate CoverFromBack<U>(pages: seq<seq<U>>, all: seq<U>, sizes: nat -> nat, page: nat) {
    && Flatten(pages) == all
    && |pages| > 0
    && forall p :: 1 <= p < |pages| ==> |pages[p]| == sizes(page + (|pages| - 1 - p))
  }

  lemma CoverFromBackGrows<U>(rest: seq<seq<U>>, front: seq<U>, here: seq<U>, sizes: nat -> nat, page: nat)
    requires CoverFromBack(rest, front, sizes, page + 1) && |here| == sizes(page)
    ensures CoverFromBack(rest + [here], front + here, sizes, page)
  {
    FlattenConcat(rest, [here]);
    FlattenOne(here);
    var pages := rest + [here];
    forall p | 1 <= p < |pages| ensures |pages[p]| == sizes(page + (|pages| - 1 - p)) {
      if p < |rest| {
        assert |rest[p]| == sizes(page + 1 + (|rest| - 1 - p));
      }
    }
  }

  lemma {:induction false} PagesFromBackHoldAll<U>(all: seq<U>, sizes: nat -> nat, page: nat)
    requires forall p :: sizes(p) > 0
    ensures CoverFromBack(PagesFromBack(all, sizes, page), all, sizes, page)
    decreases |all|
  {
    if |all| <= sizes(page) {
      FlattenOne(all);
    } else {
      var front, here := all[..|all| - sizes(page)], all[|all| - sizes(page)..];
      PagesFromBackHoldAll(front, sizes, page + 1);
      CoverFromBackGrows(PagesFromBack(front, sizes, page + 1), front, here, sizes, page);
      assert front + here == all;
    }
  }

  lemma WalkBackwardStep<T, U>(items: seq<T>, convert: T -> U, total: int, sizes: nat -> nat, page: nat, stop: nat)
    requires stop <= |items| && forall p :: sizes(p) > 0
    ensures var from := Max(0, stop - sizes(page));
            var here := Converted(items, convert)[from..stop];
            WalkBackward(items, convert, total, sizes, page, stop)
              == if from > 0 then WalkBackward(items, convert, total, sizes, page + 1, from) + [here] else [here]
  {
    BackwardPage(items, convert, total, sizes(page), stop);
    var from := Max(0, stop - sizes(page));
    if from > 0 {
      CursorRoundTrip(from);
    }
  }

  lemma PagesFromBackStep<U>(all: seq<U>, sizes: nat -> nat, page: nat, stop: nat)
    requires stop <= |all| && forall p :: sizes(p) > 0
    ensures var from := Max(0, stop - sizes(page));
            PagesFromBack(all[..stop], sizes, page)
              == if from > 0 then PagesFromBack(all[..from], sizes, page + 1) + [all[from..stop]] else [all[from..stop]]
  {
    var from := Max(0, stop - sizes(page));
    var rest := all[..stop];
    if from > 0 {
      assert rest[..from] == all[..from];
      assert rest[from..] == all[from..stop];
    } else {
      assert rest == all[from..stop];
    }
  }

  lemma {:induction false} BackwardWalkIsPages<T, U>(items: seq<T>, convert: T -> U, total: int, sizes: nat -> nat,
                                                     page: nat, stop: nat)
    requires stop <= |items| && forall p :: sizes(p) > 0
    ensures WalkBackward(items, convert, total, sizes, page, stop)
         == PagesFromBack(Converted(items, convert)[..stop], sizes, page)
    decreases stop
  {
    var from := Max(0, stop - sizes(page));
    if from > 0 {
      BackwardWalkIsPages(items, convert, total, sizes, page + 1, from);
    }
    WalkBackwardStep(items, convert, total, sizes, page, stop);
    PagesFromBackStep(Converted(items, convert), sizes, page, stop);
  }

  lemma BackwardWalkVisitsAll<T, U>(items: seq<T>, convert: T -> U, total: int, sizes: nat -> nat, page: nat, stop: nat)
    requires stop <= |items| && forall p :: sizes(p) > 0
    ensures CoverFromBack(WalkBackward(items, convert, total, sizes, page, stop),
              Converted(items, convert)[..stop], sizes, page)
  {
    BackwardWalkIsPages(items, convert, total, sizes, page, stop);
    PagesFromBackHoldAll(Converted(items, convert)[..stop], sizes, page);
  }
}
