/** The tree of entries in an L01's ltree (`_parse_l01_entries`): parsed with a stack of its own, which
    builds just what reading each entry and then its children would. */
module L01Tree {
  import opened Prelude

  // ---- lines of tab-separated fields ----

  /** Python's `line.split("\t")`. */
  function Split(line: string): (fields: seq<string>)
    ensures fields != []
  {
    if line == [] then [""]
    else
      var rest := Split(line[1..]);
      if line[0] == '\t' then [""] + rest else [[line[0]] + rest[0]] + rest[1..]
  }

  /** Python's `"\t".join(fields)`. */
  function Join(fields: seq<string>): string
    requires fields != []
  {
    if |fields| == 1 then fields[0] else fields[0] + "\t" + Join(fields[1..])
  }

  predicate NoTab(s: string) { '\t' !in s }

  lemma {:induction false} SplitField(field: string, rest: string)
    requires NoTab(field)
    ensures Split(field + "\t" + rest) == [field] + Split(rest)
    ensures Split(field) == [field]
  {
    var line := field + "\t" + rest;
    if field == [] {
      assert line[1..] == rest;
    } else {
      SplitField(field[1..], rest);
      assert line[1..] == field[1..] + "\t" + rest;
      assert field == [field[0]] + field[1..];
    }
  }

  lemma {:induction false} SplitJoin(fields: seq<string>)
    requires fields != [] && forall k :: 0 <= k < |fields| ==> NoTab(fields[k])
    ensures Split(Join(fields)) == fields
  {
    if |fields| == 1 {
      SplitField(fields[0], "");
    } else {
      SplitField(fields[0], Join(fields[1..]));
      SplitJoin(fields[1..]);
    }
  }

  type Dict = map<string, string>

  /** Python's `dict(zip(columns, values))`. */
  function Zipped(columns: seq<string>, values: seq<string>): Dict
  {
    if columns == [] || values == [] then map[]
    else
      var n := Min(|columns|, |values|) - 1;
      Zipped(columns[..n], values[..n])[columns[n] := values[n]]
  }

  /** A column that has a value is a key, with the last value it has. */
  lemma {:induction false} ZippedAt(columns: seq<string>, values: seq<string>, j: nat)
    requires j < |columns| && j < |values|
    requires forall k :: j < k < |columns| && k < |values| ==> columns[k] != columns[j]
    ensures columns[j] in Zipped(columns, values) && Zipped(columns, values)[columns[j]] == values[j]
    decreases |columns|
  {
    var n := Min(|columns|, |values|) - 1;
    if j < n {
      assert columns[n] != columns[j];
      ZippedAt(columns[..n], values[..n], j);
    }
  }

  /** And nothing else is a key. */
  lemma {:induction false} ZippedKeys(columns: seq<string>, values: seq<string>, c: string)
    ensures c in Zipped(columns, values) <==> exists j :: 0 <= j < |columns| && j < |values| && columns[j] == c
    decreases |columns|
  {
    if columns != [] && values != [] {
      var n := Min(|columns|, |values|) - 1;
      ZippedKeys(columns[..n], values[..n], c);
      if c == columns[n] {
        assert 0 <= n < |columns|;
      }
    }
  }

  /** Python's `values.get("n", "")`. */
  function NameIn(values: Dict): string { if "n" in values then values["n"] else "" }

  // ---- what the parser is given ----

  /** The lines of the ltree and the category's columns, how Python's `int` reads a count, and whether an
      entry's values make an entry. */
  datatype Source = Source(lines: seq<string>, columns: seq<string>, number: string -> Option<int>,
                           accepts: Dict -> bool)
  {
    /** The values, the child count and the next line of the entry at `pos`. */
    function ReadEntry(pos: nat): (r: Result<(Dict, int, nat)>)
      ensures r.Ok? ==> r.value.2 == pos + 2 <= |lines|
    {
      if pos + 1 >= |lines| then Raised
      else
        var fields := Split(lines[pos]);
        if |fields| != 2 || number(fields[1]).None? then Raised
        else Ok((Zipped(columns, Split(lines[pos + 1])), number(fields[1]).value, pos + 2))
    }
  }

  /** An entry as a value: its path, its values and its children. */
  datatype Tree = Node(names: seq<string>, values: Dict, children: seq<Tree>)

  // ---- reading an entry and then its children ----

  /** The next `count` entries under a path; a negative count only ends at an error. */
  function ParseChildren(s: Source, names: seq<string>, count: int, pos: nat): (r: Result<(seq<Tree>, nat)>)
    ensures r.Ok? ==> r.value.1 >= pos
    decreases |s.lines| - pos, 0
  {
    if count == 0 then Ok(([], pos))
    else
      var e := s.ReadEntry(pos);
      if e.Raised? || !s.accepts(e.value.0) then Raised
      else
        var own := names + [NameIn(e.value.0)];
        var below := ParseChildren(s, own, e.value.1, e.value.2);
        if below.Raised? then Raised
        else
          var rest := ParseChildren(s, names, count - 1, below.value.1);
          if rest.Raised? then Raised
          else Ok(([Node(own, e.value.0, below.value.0)] + rest.value.0, rest.value.1))
  }

  /** The category's tree: the root has no name of its own. */
  function ParseTree(s: Source, pos: nat): Result<(Tree, nat)>
  {
    var e := s.ReadEntry(pos);
    if e.Raised? || !s.accepts(e.value.0) then Raised
    else
      var below := ParseChildren(s, [], e.value.1, e.value.2);
      if below.Raised? then Raised else Ok((Node([], e.value.0, below.value.0), below.value.1))
  }

  // ---- the stack ----

  /** An entry under way: the children it has in full, and how many are still to come after the one
      above it on the stack. */
  datatype Frame = Frame(names: seq<string>, values: Dict, done: seq<Tree>, remaining: int)

  /** A frame's entry as a tree, once all its children are read. */
  function Whole(f: Frame): Tree { Node(f.names, f.values, f.done) }

  /** The frames without the top one, whose entry is finished. */
  function Popped(frames: seq<Frame>): seq<Frame>
    requires frames != []
  {
    var n := |frames| - 1;
    if n == 0 then [] else frames[..n - 1] + [frames[n - 1].(done := frames[n - 1].done + [Whole(frames[n])])]
  }

  /** What is left to do from a stack, one entry and then its children at a time. */
  function Resume(s: Source, stack: seq<Frame>, pos: nat): Result<(Tree, nat)>
    requires stack != []
    decreases |stack|
  {
    var n := |stack| - 1;
    var f := stack[n];
    var rest := ParseChildren(s, f.names, f.remaining, pos);
    if rest.Raised? then Raised
    else
      var tree := Node(f.names, f.values, f.done + rest.value.0);
      if n == 0 then Ok((tree, rest.value.1))
      else Resume(s, stack[..n - 1] + [stack[n - 1].(done := stack[n - 1].done + [tree])], rest.value.1)
  }

  /** A finished entry leaves the stack. */
  lemma {:induction false} PopKeeps(s: Source, stack: seq<Frame>, pos: nat)
    requires stack != [] && stack[|stack| - 1].remaining == 0
    ensures
      var n := |stack| - 1;
      Resume(s, stack, pos) == if n == 0 then Ok((Whole(stack[n]), pos)) else Resume(s, Popped(stack), pos)
  {
    assert stack[|stack| - 1].done + [] == stack[|stack| - 1].done;
  }

  /** How one entry and what follows it make up a list of entries. */
  lemma ParseOne(s: Source, names: seq<string>, count: int, pos: nat, values: Dict, own: seq<string>, children: int,
                 below: seq<Tree>, after: nat, rest: seq<Tree>, end: nat)
    requires count != 0 && s.ReadEntry(pos) == Ok((values, children, pos + 2)) && s.accepts(values)
    requires own == names + [NameIn(values)]
    requires ParseChildren(s, own, children, pos + 2) == Ok((below, after))
    requires ParseChildren(s, names, count - 1, after) == Ok((rest, end))
    ensures ParseChildren(s, names, count, pos) == Ok(([Node(own, values, below)] + rest, end))
  {
  }

  lemma ParseOneRaised(s: Source, names: seq<string>, count: int, pos: nat)
    requires count != 0
    ensures
      var e := s.ReadEntry(pos);
      e.Raised? || !s.accepts(e.value.0) ==> ParseChildren(s, names, count, pos).Raised?
    ensures
      var e := s.ReadEntry(pos);
      e.Ok? && s.accepts(e.value.0) ==>
        var below := ParseChildren(s, names + [NameIn(e.value.0)], e.value.1, e.value.2);
        below.Raised? || ParseChildren(s, names, count - 1, below.value.1).Raised? ==>
          ParseChildren(s, names, count, pos).Raised?
  {
  }

  /** The top frame with its children read. */
  function Filled(stack: seq<Frame>, children: seq<Tree>): seq<Frame>
    requires stack != []
  {
    var n := |stack| - 1;
    stack[..n] + [stack[n].(done := stack[n].done + children)]
  }

  lemma {:induction false} ResumeTop(s: Source, stack: seq<Frame>, pos: nat)
    requires stack != []
    ensures
      var n := |stack| - 1;
      var rest := ParseChildren(s, stack[n].names, stack[n].remaining, pos);
      Resume(s, stack, pos) ==
      if rest.Raised? then Raised
      else if n == 0 then Ok((Whole(Filled(stack, rest.value.0)[n]), rest.value.1))
      else Resume(s, Popped(Filled(stack, rest.value.0)), rest.value.1)
  {
    hide ParseChildren;
    var n := |stack| - 1;
    var rest := ParseChildren(s, stack[n].names, stack[n].remaining, pos);
    if rest.Ok? && n > 0 {
      assert Filled(stack, rest.value.0)[..n - 1] == stack[..n - 1];
    }
  }

  /** An entry read goes on the stack over its parent, which has one child fewer to come. */
  lemma {:induction false} PushKeeps(s: Source, stack: seq<Frame>, pos: nat)
    requires stack != [] && stack[|stack| - 1].remaining != 0
    ensures
      var n := |stack| - 1;
      var e := s.ReadEntry(pos);
      Resume(s, stack, pos) ==
      if e.Raised? || !s.accepts(e.value.0) then Raised
      else
        Resume(s, stack[..n] + [stack[n].(remaining := stack[n].remaining - 1)] +
                  [Frame(stack[n].names + [NameIn(e.value.0)], e.value.0, [], e.value.1)], e.value.2)
  {
    hide ParseChildren, Resume, NameIn;
    var n := |stack| - 1;
    var f, e := stack[n], s.ReadEntry(pos);
    ResumeTop(s, stack, pos);
    ParseOneRaised(s, f.names, f.remaining, pos);
    if e.Ok? && s.accepts(e.value.0) {
      hide Source.ReadEntry;
      var own := f.names + [NameIn(e.value.0)];
      var less := f.(remaining := f.remaining - 1);
      var pushed := stack[..n] + [less] + [Frame(own, e.value.0, [], e.value.1)];
      ResumeTop(s, pushed, e.value.2);
      var below := ParseChildren(s, own, e.value.1, e.value.2);
      if below.Ok? {
        PushedReads(s, stack, pos, e.value.0, e.value.1, e.value.2, pushed, below.value.0, below.value.1);
      }
    }
  }

  lemma {:induction false} PushedReads(s: Source, stack: seq<Frame>, pos: nat, values: Dict, count: int, next: nat,
                                       pushed: seq<Frame>, below: seq<Tree>, after: nat)
    requires stack != [] && stack[|stack| - 1].remaining != 0
    requires s.ReadEntry(pos) == Ok((values, count, next)) && s.accepts(values) && next == pos + 2
    requires
      var n := |stack| - 1;
      var own := stack[n].names + [NameIn(values)];
      && pushed == stack[..n] + [stack[n].(remaining := stack[n].remaining - 1)] + [Frame(own, values, [], count)]
      && ParseChildren(s, own, count, next) == Ok((below, after))
    ensures Resume(s, Popped(Filled(pushed, below)), after) == Resume(s, stack, pos)
  {
    hide ParseChildren, Resume, NameIn, Source.ReadEntry;
    var n := |stack| - 1;
    var f := stack[n];
    var own := f.names + [NameIn(values)];
    var tree := Node(own, values, below);
    var back := stack[..n] + [Frame(f.names, f.values, f.done + [tree], f.remaining - 1)];
    assert Popped(Filled(pushed, below)) == back by {
      assert [] + below == below;
      assert Filled(pushed, below)[..n] == stack[..n];
    }
    ResumeTop(s, stack, pos);
    ResumeTop(s, back, after);
    ParseOneRaised(s, f.names, f.remaining, pos);
    var rest := ParseChildren(s, f.names, f.remaining - 1, after);
    if rest.Ok? {
      ParseOne(s, f.names, f.remaining, pos, values, own, count, below, after, rest.value.0, rest.value.1);
      assert f.done + [tree] + rest.value.0 == f.done + ([tree] + rest.value.0);
      if n > 0 {
        assert Filled(back, rest.value.0)[..n - 1] == Filled(stack, [tree] + rest.value.0)[..n - 1];
        assert Popped(Filled(back, rest.value.0)) == Popped(Filled(stack, [tree] + rest.value.0));
      }
    }
  }

  // ---- the entries themselves ----

  class LogicalEntry {
    const names: seq<string>
    const values: Dict
    const parent: LogicalEntry?
    var children: seq<LogicalEntry>

    constructor (names: seq<string>, values: Dict, parent: LogicalEntry?)
      ensures this.names == names && this.values == values && this.parent == parent && children == []
    {
      this.names, this.values, this.parent := names, values, parent;
      children := [];
    }

    /** The first of the children are these finished entries, and know their parent. */
    ghost predicate Holds(b: map<LogicalEntry, Tree>, done: seq<Tree>)
      reads this
    {
      && |done| <= |children|
      && forall k :: 0 <= k < |done| ==>
           children[k] in b && b[children[k]] == done[k] && children[k].parent == this
    }
  }

  /** Each finished entry is its tree, and its children are its tree's. */
  ghost predicate Built(b: map<LogicalEntry, Tree>)
    reads b.Keys
  {
    forall e :: e in b ==>
      && e.names == b[e].names && e.values == b[e].values
      && |e.children| == |b[e].children| && e.Holds(b, b[e].children)
  }

  /** An unfinished entry: its frame has its finished children, and the entry above it on the stack, if
      any, is its last child so far. */
  ghost predicate Under(e: LogicalEntry, count: int, f: Frame, b: map<LogicalEntry, Tree>, above: LogicalEntry?)
    reads e
  {
    && e !in b && e.names == f.names && e.values == f.values && count == f.remaining && e.Holds(b, f.done)
    && |e.children| == |f.done| + (if above == null then 0 else 1)
    && (above != null ==> e.children[|f.done|] == above && above.parent == e)
  }

  ghost function Above(stack: seq<(LogicalEntry, int)>, i: nat): LogicalEntry?
  {
    if i + 1 < |stack| then stack[i + 1].0 else null
  }

  ghost predicate Stacked(stack: seq<(LogicalEntry, int)>, frames: seq<Frame>, b: map<LogicalEntry, Tree>)
    reads set i | 0 <= i < |stack| :: stack[i].0
  {
    && |stack| == |frames|
    && (forall i, j :: 0 <= i < j < |stack| ==> stack[i].0 != stack[j].0)
    && forall i :: 0 <= i < |stack| ==> Under(stack[i].0, stack[i].1, frames[i], b, Above(stack, i))
  }

  lemma FinishBuilt(e: LogicalEntry, count: int, f: Frame, b: map<LogicalEntry, Tree>)
    requires Built(b) && Under(e, count, f, b, null)
    ensures Built(b[e := Whole(f)])
  {
    var more := b[e := Whole(f)];
    forall c | c in b
      ensures c.Holds(more, b[c].children)
    {
      assert c.Holds(b, b[c].children);
    }
  }

  lemma StillUnder(e: LogicalEntry, count: int, f: Frame, b: map<LogicalEntry, Tree>, above: LogicalEntry?,
                   other: LogicalEntry, tree: Tree)
    requires Under(e, count, f, b, above) && other !in b && e != other
    ensures Under(e, count, f, b[other := tree], above)
    ensures above == other ==> Under(e, count, f.(done := f.done + [tree]), b[other := tree], null)
  {
  }

  /** An entry with no children to come is finished. */
  lemma PopStacked(stack: seq<(LogicalEntry, int)>, frames: seq<Frame>, b: map<LogicalEntry, Tree>)
    requires stack != [] && Built(b) && Stacked(stack, frames, b)
    ensures
      var n := |stack| - 1;
      var more := b[stack[n].0 := Whole(frames[n])];
      Built(more) && Stacked(stack[..n], Popped(frames), more) && |Popped(frames)| == n
  {
    hide Under;
    var n := |stack| - 1;
    var top := stack[n].0;
    FinishBuilt(top, stack[n].1, frames[n], b);
    var more, less, rest := b[top := Whole(frames[n])], stack[..n], Popped(frames);
    assert Under(top, stack[n].1, frames[n], b, null);
    NotBuilt(top, stack[n].1, frames[n], b, null);
    forall i | 0 <= i < n
      ensures Under(less[i].0, less[i].1, rest[i], more, Above(less, i))
    {
      assert Under(stack[i].0, stack[i].1, frames[i], b, Above(stack, i));
      StillUnder(stack[i].0, stack[i].1, frames[i], b, Above(stack, i), top, Whole(frames[n]));
    }
  }

  lemma NotBuilt(e: LogicalEntry, count: int, f: Frame, b: map<LogicalEntry, Tree>, above: LogicalEntry?)
    requires Under(e, count, f, b, above)
    ensures e !in b
  {
  }

  /** A child read goes under the entry on top of the stack, and then on top of it. */
  method AddChild(stack: seq<(LogicalEntry, int)>, ghost frames: seq<Frame>, ghost b: map<LogicalEntry, Tree>,
                  values: Dict, count: int) returns (child: LogicalEntry)
    requires stack != [] && Built(b) && Stacked(stack, frames, b)
    modifies stack[|stack| - 1].0
    ensures fresh(child)
    ensures Built(b)
    ensures Stacked(stack + [(child, count)],
                    frames + [Frame(frames[|frames| - 1].names + [NameIn(values)], values, [], count)], b)
  {
    hide Built, Stacked;
    EachUnder(stack, frames, b);
    ghost var n := |stack| - 1;
    var node := stack[|stack| - 1].0;
    assert Under(node, stack[n].1, frames[n], b, null);
    child := new LogicalEntry(node.names + [NameIn(values)], values, node);
    node.children := node.children + [child];
    assert Built(b);
    ghost var more := stack + [(child, count)];
    ghost var f := Frame(frames[n].names + [NameIn(values)], values, [], count);
    assert Under(child, count, f, b, null);
    assert Under(node, stack[n].1, frames[n], b, child);
    forall i | 0 <= i < |more|
      ensures Under(more[i].0, more[i].1, (frames + [f])[i], b, Above(more, i))
    {
      if i < n {
        assert stack[i].0 != node && old(Under(stack[i].0, stack[i].1, frames[i], b, Above(stack, i)));
      }
    }
    AllUnder(more, frames + [f], b);
  }

  lemma EachUnder(stack: seq<(LogicalEntry, int)>, frames: seq<Frame>, b: map<LogicalEntry, Tree>)
    requires Stacked(stack, frames, b)
    ensures |stack| == |frames| && forall i, j :: 0 <= i < j < |stack| ==> stack[i].0 != stack[j].0
    ensures forall i :: 0 <= i < |stack| ==> Under(stack[i].0, stack[i].1, frames[i], b, Above(stack, i))
  {
    hide Under, Above;
  }

  lemma AllUnder(stack: seq<(LogicalEntry, int)>, frames: seq<Frame>, b: map<LogicalEntry, Tree>)
    requires |stack| == |frames| && forall i, j :: 0 <= i < j < |stack| ==> stack[i].0 != stack[j].0
    requires forall i :: 0 <= i < |stack| ==> Under(stack[i].0, stack[i].1, frames[i], b, Above(stack, i))
    ensures Stacked(stack, frames, b)
  {
    hide Under, Above;
  }

  lemma TopFrame(stack: seq<(LogicalEntry, int)>, frames: seq<Frame>, b: map<LogicalEntry, Tree>)
    requires stack != [] && Stacked(stack, frames, b)
    ensures |stack| == |frames|
    ensures
      var n := |stack| - 1;
      && frames[n].remaining == stack[n].1 && frames[n].names == stack[n].0.names
      && frames[n].values == stack[n].0.values
  {
    var n := |stack| - 1;
    assert Under(stack[n].0, stack[n].1, frames[n], b, null);
  }

  /** One child fewer is to come to the top entry. */
  lemma Counted(stack: seq<(LogicalEntry, int)>, frames: seq<Frame>, b: map<LogicalEntry, Tree>)
    requires stack != [] && |stack| == |frames| && Stacked(stack, frames, b)
    ensures
      var n := |stack| - 1;
      Stacked(stack[n := (stack[n].0, stack[n].1 - 1)],
              frames[n := frames[n].(remaining := frames[n].remaining - 1)], b)
  {
    var n := |stack| - 1;
    assert Under(stack[n].0, stack[n].1, frames[n], b, null);
    var less := stack[n := (stack[n].0, stack[n].1 - 1)];
    var rest := frames[n := frames[n].(remaining := frames[n].remaining - 1)];
    forall i | 0 <= i < |less|
      ensures Under(less[i].0, less[i].1, rest[i], b, Above(less, i))
    {
      assert Under(stack[i].0, stack[i].1, frames[i], b, Above(stack, i));
    }
  }

  /** Parsing under way: what is finished, what is on the stack, and that what is left to do from there
      comes to what the whole did. */
  ghost predicate Underway(s: Source, root: LogicalEntry, stack: seq<(LogicalEntry, int)>, frames: seq<Frame>,
                           b: map<LogicalEntry, Tree>, pos: nat, spec: Result<(Tree, nat)>)
    reads b.Keys, set i | 0 <= i < |stack| :: stack[i].0
  {
    && pos <= |s.lines| && Built(b) && Stacked(stack, frames, b)
    && if stack == [] then root in b && spec == Ok((b[root], pos))
       else stack[0].0 == root && Resume(s, frames, pos) == spec
  }

  /** What is left to do stays the same when a finished entry leaves the stack. */
  lemma PopStep(s: Source, root: LogicalEntry, stack: seq<(LogicalEntry, int)>, frames: seq<Frame>,
                b: map<LogicalEntry, Tree>, pos: nat, spec: Result<(Tree, nat)>)
    requires stack != [] && Underway(s, root, stack, frames, b, pos, spec) && stack[|stack| - 1].1 == 0
    ensures |frames| == |stack|
    ensures
      var n := |stack| - 1;
      Underway(s, root, stack[..n], Popped(frames), b[stack[n].0 := Whole(frames[n])], pos, spec)
  {
    hide Stacked, Built, Resume, Popped, Whole;
    TopFrame(stack, frames, b);
    PopStacked(stack, frames, b);
    PopKeeps(s, frames, pos);
  }

  lemma IsUnderway(s: Source, root: LogicalEntry, stack: seq<(LogicalEntry, int)>, frames: seq<Frame>,
                   b: map<LogicalEntry, Tree>, pos: nat, spec: Result<(Tree, nat)>)
    requires stack != [] && frames != [] && pos <= |s.lines| && Built(b) && Stacked(stack, frames, b)
    requires stack[0].0 == root && Resume(s, frames, pos) == spec
    ensures Underway(s, root, stack, frames, b, pos, spec)
  {
  }

  /** The top entry's next child is read and put on the stack. */
  method ReadChild(s: Source, ghost root: LogicalEntry, stack: seq<(LogicalEntry, int)>, ghost frames: seq<Frame>,
                   ghost b: map<LogicalEntry, Tree>, pos: nat, ghost spec: Result<(Tree, nat)>)
      returns (r: Result<(LogicalEntry, int, nat)>, ghost more: seq<Frame>)
    requires stack != [] && Underway(s, root, stack, frames, b, pos, spec) && stack[|stack| - 1].1 != 0
    modifies stack[|stack| - 1].0
    ensures r.Raised? ==> spec.Raised?
    ensures r.Ok? ==>
      var n := |stack| - 1;
      var next := stack[n := (stack[n].0, stack[n].1 - 1)] + [(r.value.0, r.value.1)];
      fresh(r.value.0) && pos < r.value.2 <= |s.lines| && Underway(s, root, next, more, b, r.value.2, spec)
  {
    hide Resume, Source.ReadEntry, Stacked, Built, NameIn, Underway;
    more := [];
    PushStep(s, root, stack, frames, b, pos, spec);
    ghost var n := |stack| - 1;
    var less := stack[|stack| - 1 := (stack[|stack| - 1].0, stack[|stack| - 1].1 - 1)];
    ghost var f := frames[n].(remaining := frames[n].remaining - 1);
    var e :- s.ReadEntry(pos);
    if !s.accepts(e.0) {
      r := Raised;
      return;
    }
    var child := AddChild(less, frames[n := f], b, e.0, e.1);
    more := frames[n := f] + [Frame(f.names + [NameIn(e.0)], e.0, [], e.1)];
    IsUnderway(s, root, less + [(child, e.1)], more, b, e.2, spec);
    r := Ok((child, e.1, e.2));
  }

  lemma RootResumes(s: Source, pos: nat)
    ensures
      var e := s.ReadEntry(pos);
      ParseTree(s, pos) == if e.Raised? || !s.accepts(e.value.0) then Raised
                           else Resume(s, [Frame([], e.value.0, [], e.value.1)], e.value.2)
  {
    var e := s.ReadEntry(pos);
    if e.Ok? {
      var below := ParseChildren(s, [], e.value.1, e.value.2);
      if below.Ok? {
        assert [] + below.value.0 == below.value.0;
      }
    }
  }

  lemma StartUnderway(s: Source, root: LogicalEntry, count: int, start: nat)
    requires start <= |s.lines| && root.children == []
    ensures
      var frames := [Frame(root.names, root.values, [], count)];
      Underway(s, root, [(root, count)], frames, map[], start, Resume(s, frames, start))
  {
    var frames := [Frame(root.names, root.values, [], count)];
    assert Under(root, count, frames[0], map[], null);
  }

  lemma Finished(s: Source, root: LogicalEntry, frames: seq<Frame>, b: map<LogicalEntry, Tree>, pos: nat,
                 spec: Result<(Tree, nat)>)
    requires Underway(s, root, [], frames, b, pos, spec)
    ensures Built(b) && root in b && spec == Ok((b[root], pos))
  {
  }

  /** An entry read leaves less to do, and what that comes to is the same. */
  lemma PushStep(s: Source, root: LogicalEntry, stack: seq<(LogicalEntry, int)>, frames: seq<Frame>,
                 b: map<LogicalEntry, Tree>, pos: nat, spec: Result<(Tree, nat)>)
    requires stack != [] && Underway(s, root, stack, frames, b, pos, spec) && stack[|stack| - 1].1 != 0
    ensures |frames| == |stack| && Built(b) && stack[0].0 == root
    ensures
      var n := |stack| - 1;
      var f := frames[n].(remaining := frames[n].remaining - 1);
      var e := s.ReadEntry(pos);
      && f.names == stack[n].0.names
      && Stacked(stack[n := (stack[n].0, stack[n].1 - 1)], frames[n := f], b)
      && spec ==
         if e.Raised? || !s.accepts(e.value.0) then Raised
         else Resume(s, frames[n := f] + [Frame(f.names + [NameIn(e.value.0)], e.value.0, [], e.value.1)], e.value.2)
  {
    hide Stacked, Built, Resume, Source.ReadEntry, NameIn;
    TopFrame(stack, frames, b);
    PushKeeps(s, frames, pos);
    Counted(stack, frames, b);
    var n := |stack| - 1;
    var f := frames[n].(remaining := frames[n].remaining - 1);
    assert frames[n := f] == frames[..n] + [f];
  }

  /** One turn of the loop: a finished entry is dropped, or the next child of the top one read. */
  method Turn(s: Source, ghost root: LogicalEntry, stack: seq<(LogicalEntry, int)>, ghost frames: seq<Frame>,
              ghost b: map<LogicalEntry, Tree>, pos: nat, ghost spec: Result<(Tree, nat)>)
      returns (r: Result<(seq<(LogicalEntry, int)>, nat)>, ghost more: seq<Frame>, ghost built: map<LogicalEntry, Tree>)
    requires stack != [] && Underway(s, root, stack, frames, b, pos, spec)
    modifies stack[|stack| - 1].0
    ensures r.Raised? ==> spec.Raised?
    ensures r.Ok? ==>
      && Underway(s, root, r.value.0, more, built, r.value.1, spec)
      && (forall e :: e in r.value.0 ==> fresh(e.0) || exists f :: f in stack && f.0 == e.0)
      && (r.value.1 > pos || (r.value.1 == pos && |r.value.0| < |stack|))
  {
    hide Underway, Popped, Whole;
    more, built := frames, b;
    var n := |stack| - 1;
    var node, remaining := stack[n].0, stack[n].1;
    if remaining == 0 {
      PopStep(s, root, stack, frames, b, pos, spec);
      built := b[node := Whole(frames[n])];
      more := Popped(frames);
      r := Ok((stack[..n], pos));
    } else {
      var read, pushed := ReadChild(s, root, stack, frames, b, pos, spec);
      var next :- read;
      more := pushed;
      r := Ok((stack[n := (node, remaining - 1)] + [(next.0, next.1)], next.2));
    }
  }

  lemma InLines(s: Source, root: LogicalEntry, stack: seq<(LogicalEntry, int)>, frames: seq<Frame>,
                b: map<LogicalEntry, Tree>, pos: nat, spec: Result<(Tree, nat)>)
    requires Underway(s, root, stack, frames, b, pos, spec)
    ensures pos <= |s.lines|
  {
  }

  /** The loop over the stack: everything under a root whose own line is read. */
  method ReadBelow(s: Source, root: LogicalEntry, count: int, start: nat)
      returns (r: Result<nat>, ghost b: map<LogicalEntry, Tree>)
    requires start <= |s.lines| && root.children == []
    modifies root
    ensures
      var spec := Resume(s, [Frame(root.names, root.values, [], count)], start);
      && (r.Ok? <==> spec.Ok?)
      && (r.Ok? ==> Built(b) && root in b && (b[root], r.value) == spec.value)
  {
    hide Resume, Built, Underway;
    b := map[];
    var stack, pos := [(root, count)], start;
    ghost var frames := [Frame(root.names, root.values, [], count)];
    ghost var spec := Resume(s, frames, start);
    StartUnderway(s, root, count, start);
    while stack != []
      invariant Underway(s, root, stack, frames, b, pos, spec)
      invariant forall e :: e in stack ==> e.0 == root || fresh(e.0)
      decreases |s.lines| - pos, |stack|
    {
      var turned, more, built := Turn(s, root, stack, frames, b, pos, spec);
      var next :- turned;
      stack, pos, frames, b := next.0, next.1, more, built;
      InLines(s, root, stack, frames, b, pos, spec);
    }
    Finished(s, root, frames, b, pos, spec);
    r := Ok(pos);
  }

  /** `_parse_l01_entries`, from the category's line on. */
  method Parse(lines: seq<string>, start: nat, number: string -> Option<int>, accepts: Dict -> bool)
      returns (r: Result<(LogicalEntry, nat)>, ghost b: map<LogicalEntry, Tree>)
    ensures r.Ok? ==> start + 1 < |lines|
    ensures start + 1 < |lines| ==>
      var spec := ParseTree(Source(lines, Split(lines[start + 1]), number, accepts), start + 2);
      && (r.Ok? <==> spec.Ok?)
      && (r.Ok? ==> Built(b) && r.value.0 in b && r.value.0.parent == null && (b[r.value.0], r.value.1) == spec.value)
  {
    hide ParseTree, Resume, Split, Built;
    b := map[];
    if start + 1 >= |lines| {
      r := Raised;
      return;
    }
    var s := Source(lines, Split(lines[start + 1]), number, accepts);
    RootResumes(s, start + 2);
    var first :- s.ReadEntry(start + 2);
    if !s.accepts(first.0) {
      r := Raised;
      return;
    }
    var root := new LogicalEntry([], first.0, null);
    var done, built := ReadBelow(s, root, first.1, first.2);
    var pos :- done;
    r, b := Ok((root, pos)), built;
  }

  // ---- printing a tree ----

  /** An entry to be printed: what its count line says before the count, its values, its children. */
  datatype Entry = Entry(first: string, cells: seq<string>, children: seq<Entry>)

  /** How counts are written. */
  type Digits = nat -> string

  /** Lines that read back: no field holds a tab, counts read as they are written, and each entry's
      values make an entry. */
  ghost predicate Printable(e: Entry, s: Source, digits: Digits)
  {
    && NoTab(e.first) && e.cells != [] && (forall k :: 0 <= k < |e.cells| ==> NoTab(e.cells[k]))
    && NoTab(digits(|e.children|)) && s.number(digits(|e.children|)) == Some(|e.children|)
    && s.accepts(Zipped(s.columns, e.cells))
    && forall k :: 0 <= k < |e.children| ==> Printable(e.children[k], s, digits)
  }

  function Print(e: Entry, digits: Digits): (lines: seq<string>)
    ensures |lines| >= 2
  {
    [e.first + "\t" + digits(|e.children|), Join(if e.cells == [] then [""] else e.cells)]
    + PrintAll(e.children, digits)
  }

  function PrintAll(es: seq<Entry>, digits: Digits): seq<string>
  {
    if es == [] then [] else Print(es[0], digits) + PrintAll(es[1..], digits)
  }

  /** The tree an entry stands for, under a path. */
  function Meaning(e: Entry, columns: seq<string>, names: seq<string>): Tree
  {
    Node(names, Zipped(columns, e.cells), MeaningAll(e.children, columns, names))
  }

  function MeaningAll(es: seq<Entry>, columns: seq<string>, names: seq<string>): seq<Tree>
  {
    if es == [] then []
    else
      [Meaning(es[0], columns, names + [NameIn(Zipped(columns, es[0].cells))])] + MeaningAll(es[1..], columns, names)
  }

  /** The lines from `pos` on start with these. */
  ghost predicate HasAt(s: Source, pos: nat, lines: seq<string>)
  {
    pos + |lines| <= |s.lines| && s.lines[pos..pos + |lines|] == lines
  }

  lemma HasParts(s: Source, pos: nat, a: seq<string>, b: seq<string>)
    requires HasAt(s, pos, a + b)
    ensures HasAt(s, pos, a) && HasAt(s, pos + |a|, b)
  {
    var whole := s.lines[pos..pos + |a + b|];
    assert s.lines[pos..pos + |a|] == whole[..|a|] == a;
    assert s.lines[pos + |a|..pos + |a| + |b|] == whole[|a|..] == b;
  }

  lemma ReadPrinted(e: Entry, s: Source, digits: Digits, pos: nat)
    requires Printable(e, s, digits) && HasAt(s, pos, Print(e, digits))
    ensures s.ReadEntry(pos) == Ok((Zipped(s.columns, e.cells), |e.children|, pos + 2))
  {
    hide Printable, Print;
    assert s.lines[pos] == s.lines[pos..pos + |Print(e, digits)|][0];
    assert s.lines[pos + 1] == s.lines[pos..pos + |Print(e, digits)|][1];
    PrintedLines(e, s, digits);
  }

  lemma PrintedLines(e: Entry, s: Source, digits: Digits)
    requires Printable(e, s, digits)
    ensures var fields := Split(Print(e, digits)[0]); |fields| == 2 && s.number(fields[1]) == Some(|e.children|)
    ensures Split(Print(e, digits)[1]) == e.cells
  {
    SplitField(e.first, digits(|e.children|));
    SplitField(digits(|e.children|), "");
    SplitJoin(e.cells);
  }

  /** An entry's children are printed after its own two lines. */
  lemma BelowPrinted(e: Entry, s: Source, digits: Digits, pos: nat)
    requires HasAt(s, pos, Print(e, digits))
    ensures HasAt(s, pos + 2, PrintAll(e.children, digits))
    ensures |Print(e, digits)| == 2 + |PrintAll(e.children, digits)|
  {
    HasParts(s, pos, Print(e, digits)[..2], PrintAll(e.children, digits));
  }

  lemma ParseNone(s: Source, names: seq<string>, pos: nat)
    ensures ParseChildren(s, names, 0, pos) == Ok(([], pos))
  {
  }

  lemma PrintableParts(e: Entry, s: Source, digits: Digits)
    requires Printable(e, s, digits)
    ensures s.accepts(Zipped(s.columns, e.cells))
    ensures forall k :: 0 <= k < |e.children| ==> Printable(e.children[k], s, digits)
  {
  }

  /** Entries printed one after the other, each with its children, are read back as those trees, up to
      the first line after them. */
  lemma {:induction false} ParseAllPrinted(es: seq<Entry>, s: Source, digits: Digits, names: seq<string>, pos: nat)
    requires forall k :: 0 <= k < |es| ==> Printable(es[k], s, digits)
    requires HasAt(s, pos, PrintAll(es, digits))
    ensures ParseChildren(s, names, |es|, pos) == Ok((MeaningAll(es, s.columns, names), pos + |PrintAll(es, digits)|))
    decreases es
  {
    hide HasAt, Print, Source.ReadEntry, Zipped, NameIn, ParseChildren, Printable;
    ParseNone(s, names, pos);
    if es != [] {
      var e, rest := es[0], es[1..];
      var values := Zipped(s.columns, e.cells);
      var own, after := names + [NameIn(values)], pos + |Print(e, digits)|;
      PrintableParts(e, s, digits);
      HasParts(s, pos, Print(e, digits), PrintAll(rest, digits));
      ReadPrinted(e, s, digits, pos);
      BelowPrinted(e, s, digits, pos);
      ParseAllPrinted(e.children, s, digits, own, pos + 2);
      ParseAllPrinted(rest, s, digits, names, after);
      ParseOne(s, names, |es|, pos, values, own, |e.children|, MeaningAll(e.children, s.columns, own), after,
               MeaningAll(rest, s.columns, names), after + |PrintAll(rest, digits)|);
    }
  }

  lemma ParseRoot(s: Source, pos: nat, values: Dict, children: int, below: seq<Tree>, end: nat)
    requires s.ReadEntry(pos) == Ok((values, children, pos + 2)) && s.accepts(values)
    requires ParseChildren(s, [], children, pos + 2) == Ok((below, end))
    ensures ParseTree(s, pos) == Ok((Node([], values, below), end))
  {
    hide Source.ReadEntry, ParseChildren;
  }

  /** A printed tree parses to what it stands for, from wherever its lines are and whatever follows. */
  lemma RoundTrip(e: Entry, s: Source, digits: Digits, pos: nat)
    requires Printable(e, s, digits) && HasAt(s, pos, Print(e, digits))
    ensures ParseTree(s, pos) == Ok((Meaning(e, s.columns, []), pos + |Print(e, digits)|))
  {
    hide HasAt, Print, Source.ReadEntry, Zipped, NameIn, ParseChildren, ParseTree, Printable, PrintAll, MeaningAll,
      Split, Join;
    PrintableParts(e, s, digits);
    ReadPrinted(e, s, digits, pos);
    BelowPrinted(e, s, digits, pos);
    ParseAllPrinted(e.children, s, digits, [], pos + 2);
    ParseRoot(s, pos, Zipped(s.columns, e.cells), |e.children|, MeaningAll(e.children, s.columns, []),
              pos + |Print(e, digits)|);
  }

  /** What a printed tree's `k`-th child is called: its cell in the last column "n" that it has a cell for,
      or nothing. */
  lemma ChildNamed(e: Entry, columns: seq<string>, names: seq<string>, k: nat, j: nat)
    requires k < |e.children|
    ensures |Meaning(e, columns, names).children| == |e.children|
    ensures
      var own := Meaning(e, columns, names).children[k];
      && own == Meaning(e.children[k], columns, own.names)
      && (j < |columns| && j < |e.children[k].cells| && columns[j] == "n"
          && (forall i :: j < i < |columns| && i < |e.children[k].cells| ==> columns[i] != "n") ==>
            own.names == names + [e.children[k].cells[j]])
      && ((forall i :: 0 <= i < |columns| && i < |e.children[k].cells| ==> columns[i] != "n") ==>
            own.names == names + [""])
  {
    hide Zipped;
    var c := e.children[k];
    MeaningAt(e.children, columns, names, k);
    ZippedKeys(columns, c.cells, "n");
    if j < |columns| && j < |c.cells| && columns[j] == "n"
       && forall i :: j < i < |columns| && i < |c.cells| ==> columns[i] != "n" {
      ZippedAt(columns, c.cells, j);
    }
  }

  lemma {:induction false} MeaningAt(es: seq<Entry>, columns: seq<string>, names: seq<string>, k: nat)
    requires k < |es|
    ensures |MeaningAll(es, columns, names)| == |es|
    ensures MeaningAll(es, columns, names)[k]
         == Meaning(es[k], columns, names + [NameIn(Zipped(columns, es[k].cells))])
  {
    hide Zipped, NameIn, Meaning;
    MeaningLength(es, columns, names);
    if k > 0 {
      MeaningAt(es[1..], columns, names, k - 1);
    }
  }

  lemma {:induction false} MeaningLength(es: seq<Entry>, columns: seq<string>, names: seq<string>)
    ensures |MeaningAll(es, columns, names)| == |es|
  {
    hide Zipped, NameIn, Meaning;
    if es != [] {
      MeaningLength(es[1..], columns, names);
    }
  }

  /** A root and the one entry under it, in lines. */
  lemma LinesExample(s: Source, digits: Digits)
    requires s.lines == ["26\t1", "\t1", "26\t0", "dir\t2"] && s.columns == ["n", "p"]
    requires digits(0) == "0" && digits(1) == "1" && s.number("0") == Some(0) && s.number("1") == Some(1)
    requires s.accepts(map["n" := "", "p" := "1"]) && s.accepts(map["n" := "dir", "p" := "2"])
    ensures ParseTree(s, 0)
         == Ok((Node([], map["n" := "", "p" := "1"], [Node(["dir"], map["n" := "dir", "p" := "2"], [])]), 4))
  {
    hide ParseTree, Zipped, NameIn, Printable, Print, Meaning, Join, Split;
    var child := Entry("26", ["dir", "2"], []);
    var root := Entry("26", ["", "1"], [child]);
    ExampleCells("", "1");
    ExampleCells("dir", "2");
    ExampleLines(child, "26", "dir", "2", digits);
    ExampleLines(root, "26", "", "1", digits);
    assert "26" + "\t" + "0" == "26\t0" && "dir" + "\t" + "2" == "dir\t2";
    assert "26" + "\t" + "1" == "26\t1" && "" + "\t" + "1" == "\t1";
    OnlyChild(child, digits);
    assert Print(root, digits) == s.lines;
    ExamplePrintable(child, "dir", "2", s, digits);
    ExamplePrintable(root, "", "1", s, digits);
    RoundTrip(root, s, digits, 0);
    ExampleMeaning(root, child);
  }

  lemma OnlyChild(e: Entry, digits: Digits)
    ensures PrintAll([], digits) == [] && PrintAll([e], digits) == Print(e, digits)
  {
    hide Print;
  }

  lemma ExampleLines(e: Entry, first: string, a: string, b: string, digits: Digits)
    requires e.first == first && e.cells == [a, b]
    ensures Print(e, digits)
         == [first + "\t" + digits(|e.children|), a + "\t" + b] + PrintAll(e.children, digits)
  {
    assert [a, b][1..] == [b];
    assert Join([b]) == b;
  }

  lemma ExamplePrintable(e: Entry, a: string, b: string, s: Source, digits: Digits)
    requires e.first == "26" && e.cells == [a, b] && NoTab(a) && NoTab(b)
    requires NoTab(digits(|e.children|)) && s.number(digits(|e.children|)) == Some(|e.children|)
    requires s.accepts(Zipped(s.columns, e.cells))
    requires forall k :: 0 <= k < |e.children| ==> Printable(e.children[k], s, digits)
    ensures Printable(e, s, digits)
  {
    hide Zipped;
  }

  lemma ExampleMeaning(root: Entry, child: Entry)
    requires root.cells == ["", "1"] && child.cells == ["dir", "2"] && root.children == [child] && child.children == []
    ensures Meaning(root, ["n", "p"], [])
         == Node([], map["n" := "", "p" := "1"], [Node(["dir"], map["n" := "dir", "p" := "2"], [])])
  {
    hide Zipped, NameIn;
    ExampleCells("", "1");
    ExampleCells("dir", "2");
    var columns := ["n", "p"];
    assert columns[0] == "n" && "p" != "n" && columns[1] == "p";
    ChildNamed(root, columns, [], 0, 0);
    var own := Meaning(root, columns, []).children[0];
    assert own.names == [] + ["dir"] == ["dir"];
    assert own == Node(["dir"], map["n" := "dir", "p" := "2"], []);
    assert Meaning(root, columns, []).children == [own];
  }

  lemma ExampleCells(a: string, b: string)
    ensures Zipped(["n", "p"], [a, b]) == map["n" := a, "p" := b]
  {
    var columns, values := ["n", "p"], [a, b];
    assert columns[..1] == ["n"] && values[..1] == [a];
    assert Zipped(["n"], [a]) == map["n" := a];
  }

  /** A tree with a negative count anywhere it is read never parses: reading goes on to an error. */
  lemma {:induction false} NegativeCount(s: Source, names: seq<string>, count: int, pos: nat)
    requires count < 0
    ensures ParseChildren(s, names, count, pos).Raised?
    decreases |s.lines| - pos
  {
    var e := s.ReadEntry(pos);
    if e.Ok? && s.accepts(e.value.0) {
      var below := ParseChildren(s, names + [NameIn(e.value.0)], e.value.1, e.value.2);
      if below.Ok? {
        NegativeCount(s, names, count - 1, below.value.1);
      }
    }
  }
}
