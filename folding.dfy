// Code folding for NASM files: the folds of multi-line macros, repetition
// blocks, conditional blocks and sections, the search for a conditional's
// matching %endif and for the next section among the following siblings, and
// the folding of runs of consecutive data definitions.
module Folding {
  import opened Wrappers
  import opened Documents

  // ---------------------------------------------------------------- folds

  /** A folding descriptor: the folded text range and the text shown in its place. */
  datatype Fold = Fold(start: nat, end: nat, placeholder: string)

  /** `addMacroFolding`: a macro definition folds when it spans more than one line. */
  function MacroFold(text: string, start: nat, end: nat, name: Option<string>): (r: Option<Fold>)
    ensures r.Some? <==> BreakBetween(text, start, end)
    ensures r.Some? ==> r.value.start == start && r.value.end == end
    ensures r.Some? ==> r.value.placeholder == "%macro " + name.GetOr("macro") + "..."
  {
    LineBreaks(text, start, end);
    if LineNumber(text, start) < LineNumber(text, end) then
      Some(Fold(start, end, "%macro " + name.GetOr("macro") + "..."))
    else None
  }

  /** `addRepBlockFolding`: a repetition block folds when it spans more than one line. */
  function RepFold(text: string, start: nat, end: nat): (r: Option<Fold>)
    ensures r.Some? <==> BreakBetween(text, start, end)
    ensures r.Some? ==> r == Some(Fold(start, end, "%rep..."))
  {
    LineBreaks(text, start, end);
    if LineNumber(text, start) < LineNumber(text, end) then Some(Fold(start, end, "%rep..."))
    else None
  }

  /** `take(20)` followed by `replace("\n", " ")`. */
  function ConditionHead(ifText: string): (r: string)
    ensures |r| == if |ifText| < 20 then |ifText| else 20
    ensures forall k :: 0 <= k < |r| ==> r[k] == if ifText[k] == '\n' then ' ' else ifText[k]
    ensures '\n' !in r
  {
    var head := if |ifText| < 20 then ifText else ifText[..20];
    seq(|head|, k requires 0 <= k < |head| => if head[k] == '\n' then ' ' else head[k])
  }

  /**
   * `addConditionalFolding`: a conditional block folds from the start of its
   * %if to the end of its matching %endif, when there is one and the two are
   * on different lines; the placeholder is the head of the %if text on one
   * line.
   */
  function ConditionalFold(text: string, ifStart: nat, ifText: string, endifEnd: Option<nat>): (r: Option<Fold>)
    ensures r.Some? <==> endifEnd.Some? && BreakBetween(text, ifStart, endifEnd.value)
    ensures r.Some? ==> r.value.start == ifStart && r.value.end == endifEnd.value
    ensures r.Some? ==> r.value.placeholder == ConditionHead(ifText) + "..."
  {
    match endifEnd
    case None => None
    case Some(end) =>
      LineBreaks(text, ifStart, end);
      if LineNumber(text, ifStart) < LineNumber(text, end) then
        Some(Fold(ifStart, end, ConditionHead(ifText) + "..."))
      else None
  }

  /**
   * `addSectionFolding`: a section folds from the end of its directive to
   * the start of the next section directive, or to the end of the file; it
   * folds only when that range is not empty and a line break lies before its
   * last character.
   */
  function SectionFold(text: string, directiveEnd: nat, nextSection: Option<nat>, name: Option<string>): (r: Option<Fold>)
    ensures var end := nextSection.GetOr(|text|);
      r.Some? <==> directiveEnd < end && BreakBetween(text, directiveEnd, end - 1)
    ensures r.Some? ==> r.value.start == directiveEnd && r.value.end == nextSection.GetOr(|text|)
    ensures r.Some? ==> r.value.placeholder == "section " + name.GetOr(".section") + "..."
  {
    var end := nextSection.GetOr(|text|);
    if end > directiveEnd then
      LineBreaks(text, directiveEnd, end - 1);
      if LineNumber(text, directiveEnd) < LineNumber(text, end - 1) then
        Some(Fold(directiveEnd, end, "section " + name.GetOr(".section") + "..."))
      else None
    else None
  }

  /** `getPlaceholderText`, for a node without a placeholder of its own. */
  const DefaultPlaceholder: string := "..."

  /** `isCollapsedByDefault`: no fold starts collapsed. */
  predicate CollapsedByDefault(f: Fold)
  {
    false
  }

  // ---------------------------------------------------------------- siblings

  /** The following siblings of a directive, as far as the searches tell them apart. */
  datatype Sibling = IfDir | EndifDir | SectionDir | OtherElement

  /** The %if directives in `s` less the %endif directives. */
  function Nesting(s: seq<Sibling>): int
  {
    if s == [] then 0
    else Nesting(s[..|s| - 1]) + (match s[|s| - 1] case IfDir => 1 case EndifDir => -1 case _ => 0)
  }

  /** The open conditional blocks once the siblings up to and including index k are read, starting inside one block. */
  function Depth(s: seq<Sibling>, from: nat, k: nat): int
    requires from <= k < |s|
  {
    1 + Nesting(s[from..k + 1])
  }

  lemma DepthStep(s: seq<Sibling>, from: nat, k: nat)
    requires from <= k < |s|
    ensures Depth(s, from, k) ==
      (if k == from then 1 else Depth(s, from, k - 1)) +
      (match s[k] case IfDir => 1 case EndifDir => -1 case _ => 0)
  {
    assert s[from..k + 1][..k - from] == s[from..k];
    if k == from {
      assert s[from..k] == [];
    }
  }

  /**
   * `findEndif`, over the siblings from index `from` on (the ones after the
   * %if): the %endif that closes the block, the first point where the depth,
   * one at the start, reaches zero.
   */
  method FindEndif(s: seq<Sibling>, from: nat) returns (r: Option<nat>)
    ensures r.Some? ==> from <= r.value < |s| && s[r.value] == EndifDir && Depth(s, from, r.value) == 0
    ensures r.Some? ==> forall k :: from <= k < r.value ==> Depth(s, from, k) > 0
    ensures r.None? ==> forall k :: from <= k < |s| ==> Depth(s, from, k) > 0
  {
    var current := from;
    var depth := 1;
    while current < |s| && depth > 0
      invariant from <= current && (current < |s| || current == from || current == |s|)
      invariant depth == if current == from then 1 else Depth(s, from, current - 1)
      invariant depth > 0
      invariant forall k :: from <= k < current && k < |s| ==> Depth(s, from, k) > 0
      decreases |s| - current
    {
      DepthStep(s, from, current);
      if s[current] == IfDir {
        depth := depth + 1;
      } else if s[current] == EndifDir {
        depth := depth - 1;
        if depth == 0 {
          return Some(current);
        }
      }
      current := current + 1;
    }
    return None;
  }

  /** `findNextSection`: the first section directive among the siblings from index `from` on. */
  method FindNextSection(s: seq<Sibling>, from: nat) returns (r: Option<nat>)
    ensures r.Some? ==> from <= r.value < |s| && s[r.value] == SectionDir
    ensures forall k :: from <= k < |s| && (r.None? || k < r.value) ==> s[k] != SectionDir
  {
    var current := from;
    while current < |s|
      invariant from <= current
      invariant forall k :: from <= k < current && k < |s| ==> s[k] != SectionDir
      decreases |s| - current
    {
      if s[current] == SectionDir {
        return Some(current);
      }
      current := current + 1;
    }
    return None;
  }

  // ---------------------------------------------------------------- data blocks

  /** The text range of a data definition. */
  datatype Range = Range(start: nat, end: nat)

  predicate SortedByStart(d: seq<Range>)
  {
    forall i, j :: 0 <= i < j < |d| ==> d[i].start <= d[j].start
  }

  /** Inserts `x` before the first element that does not start earlier than it. */
  function InsertByStart(x: Range, d: seq<Range>): (r: seq<Range>)
    requires SortedByStart(d)
    ensures SortedByStart(r)
    ensures multiset(r) == multiset(d) + multiset{x}
    ensures |r| == |d| + 1
  {
    if d == [] then [x]
    else if x.start <= d[0].start then [x] + d
    else
      var rest := InsertByStart(x, d[1..]);
      assert d == [d[0]] + d[1..];
      HeadBound(d[0], x, d[1..], rest);
      SortedCons(d[0], rest);
      [d[0]] + rest
  }

  /** An element starting no later than `x` and than every element of `s` starts no later than any element of `s` with `x` added. */
  lemma HeadBound(h: Range, x: Range, s: seq<Range>, r: seq<Range>)
    requires h.start <= x.start && forall k :: 0 <= k < |s| ==> h.start <= s[k].start
    requires multiset(r) == multiset(s) + multiset{x}
    ensures forall k :: 0 <= k < |r| ==> h.start <= r[k].start
  {
    forall k | 0 <= k < |r|
      ensures h.start <= r[k].start
    {
      assert r[k] in multiset(r);
      assert r[k] == x || r[k] in multiset(s);
    }
  }

  lemma SortedCons(h: Range, s: seq<Range>)
    requires SortedByStart(s)
    requires forall k :: 0 <= k < |s| ==> h.start <= s[k].start
    ensures SortedByStart([h] + s)
  {
  }

  /** `sortedBy { it.textRange.startOffset }`. */
  function SortByStart(d: seq<Range>): (r: seq<Range>)
    ensures SortedByStart(r)
    ensures multiset(r) == multiset(d)
  {
    if d == [] then []
    else
      assert d == [d[0]] + d[1..];
      InsertByStart(d[0], SortByStart(d[1..]))
  }

  /** The data definition at index k follows the one before it within one line. */
  predicate Joins(text: string, d: seq<Range>, k: nat)
    requires 0 < k < |d|
  {
    LineNumber(text, d[k].start) as int - LineNumber(text, d[k - 1].end) <= 1
  }

  /** The definitions from index i to index j each follow the previous one within one line. */
  predicate Consecutive(text: string, d: seq<Range>, i: nat, j: nat)
    requires i <= j < |d|
  {
    forall k :: i < k <= j ==> Joins(text, d, k)
  }

  /** A run of consecutive definitions that cannot be extended at either end. */
  predicate MaximalRun(text: string, d: seq<Range>, i: nat, j: nat)
    requires i <= j < |d|
  {
    Consecutive(text, d, i, j) && (i == 0 || !Joins(text, d, i)) && (j == |d| - 1 || !Joins(text, d, j + 1))
  }

  /** A data block: the indices of its first and last definition. */
  datatype Block = Block(first: nat, last: nat)

  /** Every block lies within the definitions, from index b on. */
  predicate WithinFrom(d: seq<Range>, b: nat, bs: seq<Block>)
  {
    forall k :: 0 <= k < |bs| ==> b <= bs[k].first <= bs[k].last < |d|
  }

  /** The block of definitions b..i-1, kept when it has at least three members. */
  function Closed(b: nat, i: nat): (r: seq<Block>)
    requires b < i
    ensures |r| <= 1
    ensures r != [] <==> i - b >= 3
    ensures r != [] ==> r[0] == Block(b, i - 1)
  {
    if i - b >= 3 then [Block(b, i - 1)] else []
  }

  /** The blocks found from index i on, while the block open since index b has reached i - 1. */
  function Blocks(text: string, d: seq<Range>, b: nat, i: nat): seq<Block>
    requires b < i <= |d|
    decreases |d| - i
  {
    if i == |d| then Closed(b, i)
    else if Joins(text, d, i) then Blocks(text, d, b, i + 1)
    else Closed(b, i) + Blocks(text, d, i, i + 1)
  }

  /** The data blocks of the sorted definitions. */
  function DataBlocks(text: string, d: seq<Range>): seq<Block>
  {
    if d == [] then [] else Blocks(text, d, 0, 1)
  }

  /** Where the runs start: the open block reaches back to b and no further. */
  predicate OpenRun(text: string, d: seq<Range>, b: nat, i: nat)
    requires b < i <= |d|
  {
    Consecutive(text, d, b, i - 1) && (b == 0 || !Joins(text, d, b))
  }

  /** The block closed at the end of the definitions is the last maximal run, when it is long enough. */
  lemma LastRun(text: string, d: seq<Range>, b: nat, x: nat, y: nat)
    requires b < |d| && OpenRun(text, d, b, |d|)
    ensures Block(x, y) in Closed(b, |d|) <==>
      b <= x <= y < |d| && y - x >= 2 && MaximalRun(text, d, x, y)
  {
  }

  /** The block closed before a definition that does not join it is a maximal run, when it is long enough. */
  lemma ClosedRun(text: string, d: seq<Range>, b: nat, i: nat, x: nat, y: nat)
    requires b < i < |d| && OpenRun(text, d, b, i) && !Joins(text, d, i)
    ensures Block(x, y) in Closed(b, i) <==>
      b <= x < i && x <= y < |d| && y - x >= 2 && MaximalRun(text, d, x, y)
  {
  }

  /** The blocks of Blocks(text, d, b, i) are exactly the maximal runs of three or more that start at b or later. */
  lemma {:induction false} BlocksSpec(text: string, d: seq<Range>, b: nat, i: nat, x: nat, y: nat)
    requires b < i <= |d| && OpenRun(text, d, b, i)
    ensures Block(x, y) in Blocks(text, d, b, i) <==>
      b <= x <= y < |d| && y - x >= 2 && MaximalRun(text, d, x, y)
    decreases |d| - i
  {
    if i == |d| {
      LastRun(text, d, b, x, y);
    } else if Joins(text, d, i) {
      BlocksSpec(text, d, b, i + 1, x, y);
    } else {
      ClosedRun(text, d, b, i, x, y);
      BlocksSpec(text, d, i, i + 1, x, y);
    }
  }

  /**
   * The data blocks are exactly the runs of three or more definitions, each
   * within one line of the previous, that cannot be extended at either end.
   */
  lemma DataBlocksSpec(text: string, d: seq<Range>, x: nat, y: nat)
    ensures Block(x, y) in DataBlocks(text, d) <==>
      x <= y < |d| && y - x >= 2 && MaximalRun(text, d, x, y)
  {
    if d != [] {
      BlocksSpec(text, d, 0, 1, x, y);
    }
  }

  /** The blocks come in document order, each ending before the next begins. */
  predicate InOrder(bs: seq<Block>)
  {
    forall k, m :: 0 <= k < m < |bs| ==> bs[k].last < bs[m].first
  }

  lemma {:induction false} BlocksInOrder(text: string, d: seq<Range>, b: nat, i: nat)
    requires b < i <= |d|
    ensures InOrder(Blocks(text, d, b, i))
    decreases |d| - i
  {
    if i < |d| {
      if Joins(text, d, i) {
        BlocksInOrder(text, d, b, i + 1);
      } else {
        BlocksInOrder(text, d, i, i + 1);
        BlocksInRange(text, d, i, i + 1);
        var c: seq<Block> := Closed(b, i);
        var rest := Blocks(text, d, i, i + 1);
        forall k, m | 0 <= k < m < |c + rest|
          ensures (c + rest)[k].last < (c + rest)[m].first
        {
          if k >= |c| {
            assert (c + rest)[k] == rest[k - |c|];
          }
          if m >= |c| {
            assert (c + rest)[m] == rest[m - |c|];
          }
        }
      }
    }
  }

  lemma DataBlocksInOrder(text: string, d: seq<Range>)
    ensures InOrder(DataBlocks(text, d))
  {
    if d != [] {
      BlocksInOrder(text, d, 0, 1);
    }
  }

  /**
   * `addDataBlockDescriptor`: a block folds from its first definition's start
   * to its last one's end. The blocks found always lie within the definitions
   * (BlocksInRange); the empty range stands for any other block.
   */
  function BlockFold(d: seq<Range>, blk: Block): Fold
  {
    if blk.first < |d| && blk.last < |d| then Fold(d[blk.first].start, d[blk.last].end, "data block...")
    else Fold(0, 0, "data block...")
  }

  /** Every block lies within the definitions, from index b on. */
  lemma {:induction false} BlocksInRange(text: string, d: seq<Range>, b: nat, i: nat)
    requires b < i <= |d|
    ensures WithinFrom(d, b, Blocks(text, d, b, i))
    decreases |d| - i
  {
    if i < |d| {
      if Joins(text, d, i) {
        BlocksInRange(text, d, b, i + 1);
      } else {
        BlocksInRange(text, d, i, i + 1);
        var c: seq<Block> := Closed(b, i);
        var rest := Blocks(text, d, i, i + 1);
        forall k | 0 <= k < |c + rest|
          ensures b <= (c + rest)[k].first <= (c + rest)[k].last < |d|
        {
          if k >= |c| {
            assert (c + rest)[k] == rest[k - |c|];
          }
        }
      }
    }
  }

  /** The folds of the blocks, in their order. */
  function BlockFolds(d: seq<Range>, bs: seq<Block>): (r: seq<Fold>)
    ensures |r| == |bs|
  {
    if bs == [] then [] else [BlockFold(d, bs[0])] + BlockFolds(d, bs[1..])
  }

  lemma {:induction false} BlockFoldsSpec(d: seq<Range>, bs: seq<Block>, k: nat)
    requires WithinFrom(d, 0, bs) && k < |bs|
    ensures BlockFolds(d, bs)[k] == Fold(d[bs[k].first].start, d[bs[k].last].end, "data block...")
  {
    if k > 0 {
      BlockFoldsSpec(d, bs[1..], k - 1);
    }
  }

  lemma {:induction false} BlockFoldsAppend(d: seq<Range>, xs: seq<Block>, ys: seq<Block>)
    ensures BlockFolds(d, xs + ys) == BlockFolds(d, xs) + BlockFolds(d, ys)
  {
    if xs == [] {
      assert xs + ys == ys;
    } else {
      assert (xs + ys)[0] == xs[0];
      assert (xs + ys)[1..] == xs[1..] + ys;
      BlockFoldsAppend(d, xs[1..], ys);
    }
  }

  /** The state of the scan over the sorted definitions before index i. */
  predicate ScanState(text: string, d: seq<Range>, i: nat, blockStart: Option<nat>, blockEnd: Option<nat>,
                      count: nat, folds: seq<Fold>)
    requires i <= |d|
  {
    if i == 0 then blockStart.None? && blockEnd.None? && count == 0 && folds == []
    else
      && blockStart.Some? && blockStart.value < i && blockEnd == Some(i - 1) && count == i - blockStart.value
      && folds + BlockFolds(d, Blocks(text, d, blockStart.value, i)) == BlockFolds(d, DataBlocks(text, d))
  }

  /**
   * `addDataBlockFolding`: sorts the data definitions by their start and
   * folds every data block among them.
   */
  method AddDataBlockFolding(text: string, defs: seq<Range>) returns (folds: seq<Fold>)
    ensures var d := SortByStart(defs); folds == BlockFolds(d, DataBlocks(text, d))
  {
    var d := SortByStart(defs);
    folds := FoldRuns(text, d);
  }

  /** The `forEach` over the sorted definitions and the closing of the last block. */
  method FoldRuns(text: string, d: seq<Range>) returns (folds: seq<Fold>)
    ensures folds == BlockFolds(d, DataBlocks(text, d))
  {
    var blockStart: Option<nat> := None;
    var blockEnd: Option<nat> := None;
    var count: nat := 0;
    folds := [];
    for i := 0 to |d|
      invariant ScanState(text, d, i, blockStart, blockEnd, count, folds)
    {
      blockStart, blockEnd, count, folds := ScanStep(text, d, i, blockStart, blockEnd, count, folds);
    }
    folds := LastBlock(text, d, blockStart, blockEnd, count, folds);
  }

  /** One iteration of the scan: the definition at index i joins the open block or starts a new one. */
  method ScanStep(text: string, d: seq<Range>, i: nat, blockStart: Option<nat>, blockEnd: Option<nat>,
                  count: nat, folds: seq<Fold>)
    returns (blockStart': Option<nat>, blockEnd': Option<nat>, count': nat, folds': seq<Fold>)
    requires i < |d| && ScanState(text, d, i, blockStart, blockEnd, count, folds)
    ensures ScanState(text, d, i + 1, blockStart', blockEnd', count', folds')
  {
    if blockStart.None? {
      StartScan(text, d, i, blockStart, blockEnd, count, folds);
      return Some(i), Some(i), 1, folds;
    }
    // The open block ends at the definition before i, so comparing the line
    // of its end with the line of the definition's start is `Joins`.
    if Joins(text, d, i) {
      ExtendBlock(text, d, i, blockStart, blockEnd, count, folds);
      return blockStart, Some(i), count + 1, folds;
    }
    folds' := CloseBlock(text, d, i, blockStart, blockEnd, count, folds);
    return Some(i), Some(i), 1, folds';
  }

  lemma StartScan(text: string, d: seq<Range>, i: nat, blockStart: Option<nat>, blockEnd: Option<nat>,
                  count: nat, folds: seq<Fold>)
    requires i < |d| && ScanState(text, d, i, blockStart, blockEnd, count, folds) && blockStart.None?
    ensures ScanState(text, d, i + 1, Some(i), Some(i), 1, folds)
  {
    assert [] + BlockFolds(d, Blocks(text, d, 0, 1)) == BlockFolds(d, DataBlocks(text, d));
  }

  lemma ExtendBlock(text: string, d: seq<Range>, i: nat, blockStart: Option<nat>, blockEnd: Option<nat>,
                    count: nat, folds: seq<Fold>)
    requires i < |d| && ScanState(text, d, i, blockStart, blockEnd, count, folds) && blockStart.Some?
    requires Joins(text, d, i)
    ensures ScanState(text, d, i + 1, blockStart, Some(i), count + 1, folds)
  {
    assert Blocks(text, d, blockStart.value, i) == Blocks(text, d, blockStart.value, i + 1);
  }

  /** The open block is closed before the definition at index i, which does not join it. */
  method CloseBlock(text: string, d: seq<Range>, i: nat, blockStart: Option<nat>, blockEnd: Option<nat>,
                    count: nat, folds: seq<Fold>) returns (folds': seq<Fold>)
    requires i < |d| && ScanState(text, d, i, blockStart, blockEnd, count, folds) && blockStart.Some?
    requires !Joins(text, d, i)
    ensures ScanState(text, d, i + 1, Some(i), Some(i), 1, folds')
  {
    var b := blockStart.value;
    ClosedFolds(d, b, i);
    folds' := folds;
    if count >= 3 {
      folds' := folds + [BlockFold(d, Block(b, i - 1))];
    }
    CloseRun(text, d, b, i, folds, folds');
  }

  /** Closing the run b..i-1 before index i moves its fold, if any, from the pending blocks to the folds. */
  lemma CloseRun(text: string, d: seq<Range>, b: nat, i: nat, folds: seq<Fold>, folds': seq<Fold>)
    requires b < i < |d| && !Joins(text, d, i)
    requires folds + BlockFolds(d, Blocks(text, d, b, i)) == BlockFolds(d, DataBlocks(text, d))
    requires folds' == folds + BlockFolds(d, Closed(b, i))
    ensures folds' + BlockFolds(d, Blocks(text, d, i, i + 1)) == BlockFolds(d, DataBlocks(text, d))
  {
    var closed := Closed(b, i);
    var rest := Blocks(text, d, i, i + 1);
    assert Blocks(text, d, b, i) == closed + rest;
    BlockFoldsAppend(d, closed, rest);
  }

  /** After the last definition, the open block is closed as well. */
  method LastBlock(text: string, d: seq<Range>, blockStart: Option<nat>, blockEnd: Option<nat>,
                   count: nat, folds: seq<Fold>) returns (folds': seq<Fold>)
    requires ScanState(text, d, |d|, blockStart, blockEnd, count, folds)
    ensures folds' == BlockFolds(d, DataBlocks(text, d))
  {
    folds' := folds;
    if count >= 3 && blockStart.Some? && blockEnd.Some? {
      folds' := folds + [Fold(d[blockStart.value].start, d[blockEnd.value].end, "data block...")];
    }
    if d != [] {
      var b := blockStart.value;
      ClosedFolds(d, b, |d|);
      assert folds' == folds + BlockFolds(d, Closed(b, |d|));
      assert Blocks(text, d, b, |d|) == Closed(b, |d|);
    }
  }

  lemma ClosedFolds(d: seq<Range>, b: nat, i: nat)
    requires b < i <= |d|
    ensures BlockFolds(d, Closed(b, i)) == if i - b >= 3 then [BlockFold(d, Block(b, i - 1))] else []
  {
    if i - b >= 3 {
      assert Closed(b, i)[1..] == [];
    }
  }
}
