/** The fork database: all blocks above the last irreversible one, as a tree below `root`, with the best validated
    block as `head`. */
module ForkDatabase {
  import opened Lists
  import opened Options

  type Id = nat

  /** `lib` is the last irreversible block number that the block implies. */
  datatype BlockState = BlockState(id: Id, previous: Id, blockNum: nat, lib: nat, validated: bool)

  type Index = map<Id, BlockState>

  // ---------- Chains of blocks ----------

  /** Blocks are stored under their ids and number one more than a stored parent. */
  ghost predicate Forest(index: Index) {
    && (forall i :: i in index ==> index[i].id == i)
    && (forall i :: i in index && index[i].previous in index ==> index[index[i].previous].blockNum + 1 == index[i].blockNum)
  }

  /** Every chain of parents ends at the root. */
  ghost predicate Tree(index: Index, root: BlockState) {
    && Forest(index)
    && root.id !in index
    && (forall i :: i in index ==> index[i].previous in index || index[i].previous == root.id)
    && (forall i :: i in index && index[i].previous == root.id ==> index[i].blockNum == root.blockNum + 1)
  }

  ghost function Height(index: Index, d: Id): (h: nat) {
    if d in index then index[d].blockNum + 1 else 0
  }

  /** `a` is `d`, or one of the blocks that the parent links lead to from `d`. */
  ghost predicate IsOn(index: Index, a: Id, d: Id)
    requires Forest(index)
    decreases Height(index, d)
  {
    a == d || (d in index && IsOn(index, a, index[d].previous))
  }

  lemma {:induction false} IsOnTransitive(index: Index, a: Id, b: Id, c: Id)
    requires Forest(index) && IsOn(index, a, b) && IsOn(index, b, c)
    ensures IsOn(index, a, c)
    decreases Height(index, c)
  {
    if b != c {
      IsOnTransitive(index, a, b, index[c].previous);
    }
  }

  lemma {:induction false} IsOnIsLower(index: Index, a: Id, d: Id)
    requires Forest(index) && IsOn(index, a, d) && a in index && a != d
    ensures d in index && index[a].blockNum < index[d].blockNum
    decreases Height(index, d)
  {
    if a != index[d].previous {
      IsOnIsLower(index, a, index[d].previous);
    }
  }

  /** Two blocks on one chain are on one another. */
  lemma {:induction false} ChainIsLinear(index: Index, a: Id, b: Id, d: Id)
    requires Forest(index) && IsOn(index, a, d) && IsOn(index, b, d)
    ensures IsOn(index, a, b) || IsOn(index, b, a)
    decreases Height(index, d)
  {
    if a != d && b != d {
      ChainIsLinear(index, a, b, index[d].previous);
    }
  }

  lemma {:induction false} RootIsOn(index: Index, root: BlockState, d: Id)
    requires Tree(index, root) && (d in index || d == root.id)
    ensures IsOn(index, root.id, d)
    ensures d in index ==> index[d].blockNum > root.blockNum
    decreases Height(index, d)
  {
    if d in index {
      RootIsOn(index, root, index[d].previous);
    }
  }

  // ---------- Removing a branch ----------

  /** The index without `gone`. */
  ghost function Less(index: Index, gone: set<Id>): (r: Index) {
    map i | i in index && i !in gone :: index[i]
  }

  ghost function Branch(index: Index, a: Id): (ids: set<Id>)
    requires Forest(index)
  {
    set d | d in index && IsOn(index, a, d)
  }

  lemma {:induction false} LessIsForest(index: Index, gone: set<Id>)
    requires Forest(index)
    ensures Forest(Less(index, gone))
  {}

  /** What stays after a branch is cut keeps its chain. */
  lemma {:induction false} ChainSurvives(index: Index, b: Id, a: Id, d: Id)
    requires Forest(index) && d in index && !IsOn(index, b, d)
    ensures Forest(Less(index, Branch(index, b)))
    ensures IsOn(Less(index, Branch(index, b)), a, d) <==> IsOn(index, a, d)
    decreases Height(index, d)
  {
    LessIsForest(index, Branch(index, b));
    var p := index[d].previous;
    if p in index {
      ChainSurvives(index, b, a, p);
    }
  }

  /** The worklist of a removal: blocks above `id`, each once; those before `i` have all their children in it. */
  ghost predicate Worklist(index: Index, id: Id, queue: seq<Id>, i: nat)
    requires Forest(index)
  {
    && i <= |queue| && queue != [] && queue[0] == id && Distinct(queue)
    && (forall k :: 0 <= k < |queue| ==> IsOn(index, id, queue[k]))
    && (forall k :: 0 < k < |queue| ==> queue[k] in index && index[queue[k]].previous in queue[..i])
    && (forall x :: x in index && index[x].previous in queue[..i] ==> x in queue)
  }

  ghost predicate AreChildren(index: Index, p: Id, kids: seq<Id>) {
    Distinct(kids) && forall x :: x in kids <==> x in index && index[x].previous == p
  }

  /** A child of the next block is not in the worklist yet. */
  lemma {:induction false} ChildIsNew(index: Index, id: Id, queue: seq<Id>, i: nat, x: Id)
    requires Forest(index) && Worklist(index, id, queue, i) && i < |queue|
    requires x in index && index[x].previous == queue[i]
    ensures x !in queue && IsOn(index, id, x)
  {
    assert IsOn(index, id, queue[i]);
    if x == id {
      IsOnIsLower(index, id, queue[i]);
    }
  }

  lemma {:induction false} WorklistStep(index: Index, id: Id, queue: seq<Id>, i: nat, kids: seq<Id>)
    requires Forest(index) && Worklist(index, id, queue, i) && i < |queue| && AreChildren(index, queue[i], kids)
    ensures Worklist(index, id, queue + kids, i + 1)
  {
    var q := queue + kids;
    assert q[..i + 1] == queue[..i] + [queue[i]];
    forall x | x in kids ensures x !in queue && IsOn(index, id, x) {
      ChildIsNew(index, id, queue, i, x);
    }
    forall a, b | 0 <= a < b < |q| ensures q[a] != q[b] {
      if a < |queue| <= b {
        assert kids[b - |queue|] in kids;
      }
    }
    forall k | 0 <= k < |q| ensures IsOn(index, id, q[k]) && (k > 0 ==> q[k] in index && index[q[k]].previous in q[..i + 1]) {
      if k >= |queue| {
        assert q[k] in kids;
        assert index[q[k]].previous == queue[i];
      }
    }
  }

  lemma {:induction false} WorklistComplete(index: Index, id: Id, queue: seq<Id>, x: Id)
    requires Forest(index) && Worklist(index, id, queue, |queue|) && IsOn(index, id, x)
    ensures x in queue
    decreases Height(index, x)
  {
    if x != id {
      WorklistComplete(index, id, queue, index[x].previous);
      assert queue[..|queue|] == queue;
    }
  }

  // ---------- Order ----------

  /** The comparison that decides which block is better. */
  predicate Preferred(a: BlockState, b: BlockState) {
    a.lib > b.lib || (a.lib == b.lib && a.blockNum > b.blockNum)
  }

  /** The order of the index: validated blocks first, then the better ones, then by id. */
  predicate Before(a: BlockState, b: BlockState) {
    if a.validated != b.validated then a.validated
    else if a.lib != b.lib then a.lib > b.lib
    else if a.blockNum != b.blockNum then a.blockNum > b.blockNum
    else a.id < b.id
  }

  /** `a` makes more blocks irreversible than `b`, or as many and is not lower. */
  ghost predicate NotWorse(a: BlockState, b: BlockState) {
    a.lib >= b.lib && (a.lib == b.lib ==> a.blockNum >= b.blockNum)
  }

  lemma {:induction false} PreferredIsWorse(a: BlockState, b: BlockState)
    ensures Preferred(a, b) <==> !NotWorse(b, a)
  {}

  /** The head is the root or a validated block, and no validated block is better. */
  ghost predicate HeadIsBest(index: Index, root: BlockState, head: Id) {
    && (head == root.id || (head in index && index[head].validated))
    && (forall x :: x in index && index[x].validated ==> NotWorse(if head in index then index[head] else root, index[x]))
  }

  /** `c` comes first in the order of the index. */
  ghost predicate First(index: Index, c: Id) {
    c in index && forall x :: x in index && x != c ==> Before(index[c], index[x])
  }

  // ---------- Advancing the root ----------

  /** Nothing that stays is built on something that goes. */
  ghost predicate Closed(index: Index, gone: set<Id>) {
    forall x :: x in index && index[x].previous in gone ==> x in gone
  }

  lemma {:induction false} ClosedSurvives(index: Index, gone: set<Id>, a: Id, d: Id)
    requires Forest(index) && Closed(index, gone) && d !in gone
    ensures Forest(Less(index, gone))
    ensures IsOn(Less(index, gone), a, d) <==> IsOn(index, a, d)
    decreases Height(index, d)
  {
    LessIsForest(index, gone);
    if d in index {
      ClosedSurvives(index, gone, a, index[d].previous);
    }
  }

  ghost predicate OnSome(index: Index, list: seq<Id>, k: nat, x: Id)
    requires Forest(index) && k <= |list|
  {
    exists m :: 0 <= m < k && IsOn(index, list[m], x)
  }

  ghost function GoneAfter(index: Index, list: seq<Id>, k: nat): (gone: set<Id>)
    requires Forest(index) && k <= |list|
  {
    set x | x in index && OnSome(index, list, k, x)
  }

  lemma {:induction false} GoneIsClosed(index: Index, list: seq<Id>, k: nat)
    requires Forest(index) && k <= |list|
    ensures Closed(index, GoneAfter(index, list, k))
  {
    forall x | x in index && index[x].previous in GoneAfter(index, list, k) ensures x in GoneAfter(index, list, k) {
      var m :| 0 <= m < k && IsOn(index, list[m], index[x].previous);
      assert IsOn(index, list[m], x);
    }
  }

  /** Cutting one branch after the others. */
  lemma {:induction false} GoneStep(index: Index, list: seq<Id>, k: nat, now: Index)
    requires Forest(index) && k < |list| && now == Less(index, GoneAfter(index, list, k))
    ensures Forest(now)
    ensures Less(now, Branch(now, list[k])) == Less(index, GoneAfter(index, list, k + 1))
  {
    LessIsForest(index, GoneAfter(index, list, k));
    GoneIsClosed(index, list, k);
    forall x | x in index ensures
      (x in now && !IsOn(now, list[k], x)) <==> x !in GoneAfter(index, list, k + 1)
    {
      if x in now {
        ClosedSurvives(index, GoneAfter(index, list, k), list[k], x);
      }
      assert OnSome(index, list, k + 1, x) <==> OnSome(index, list, k, x) || IsOn(index, list[k], x);
    }
  }

  /** With `id` taken out, a chain through `id` ends there. */
  lemma {:induction false} StopsAt(index: Index, id: Id, b: Id, x: Id)
    requires Forest(index) && Forest(Less(index, {id})) && IsOn(index, id, x) && IsOn(Less(index, {id}), b, x)
    ensures IsOn(index, id, b)
    decreases Height(index, x)
  {
    if x != id && b != x {
      StopsAt(index, id, b, index[x].previous);
    }
  }

  lemma {:induction false} ReachesRoot(index: Index, root: BlockState, id: Id, x: Id)
    requires Tree(index, root) && Forest(Less(index, {id})) && (x in index || x == root.id) && !IsOn(index, id, x)
    ensures IsOn(Less(index, {id}), root.id, x)
    decreases Height(index, x)
  {
    if x in index {
      ReachesRoot(index, root, id, index[x].previous);
    }
  }

  /** The blocks that `id` is built on, down to the root. */
  ghost predicate Ancestors(index: Index, root: BlockState, id: Id, list: seq<Id>)
    requires Forest(index)
  {
    root.id in list && forall b :: b in list ==> b != id && IsOn(index, b, id)
  }

  /** Without `id`, exactly what is not built on `id` is still built on one of its ancestors. */
  lemma {:induction false} CutDecides(index: Index, root: BlockState, id: Id, list: seq<Id>, x: Id)
    requires Tree(index, root) && id in index && Ancestors(index, root, id, list) && (x in index || x == root.id)
    ensures Forest(Less(index, {id}))
    ensures OnSome(Less(index, {id}), list, |list|, x) <==> !IsOn(index, id, x)
  {
    var cut := Less(index, {id});
    LessIsForest(index, {id});
    if !IsOn(index, id, x) {
      ReachesRoot(index, root, id, x);
      var m :| 0 <= m < |list| && list[m] == root.id;
      assert IsOn(cut, list[m], x);
    } else {
      forall m | 0 <= m < |list| ensures !IsOn(cut, list[m], x) {
        if IsOn(cut, list[m], x) {
          StopsAt(index, id, list[m], x);
          NotBothWays(index, id, list[m]);
        }
      }
    }
  }

  lemma {:induction false} NotBothWays(index: Index, a: Id, b: Id)
    requires Forest(index) && a in index && IsOn(index, a, b) && IsOn(index, b, a)
    ensures a == b
  {
    if a != b {
      IsOnIsLower(index, a, b);
      IsOnIsLower(index, b, a);
    }
  }

  /** What an advanced root leaves: everything built on it. */
  ghost function Above(index: Index, id: Id): (r: Index)
    requires Forest(index)
  {
    map x | x in index && x != id && IsOn(index, id, x) :: index[x]
  }

  lemma {:induction false} AboveIsTree(index: Index, root: BlockState, id: Id)
    requires Tree(index, root) && id in index
    ensures Tree(Above(index, id), index[id])
  {
    var above := Above(index, id);
    forall i | i in above ensures above[i].previous in above || above[i].previous == id {
      assert IsOn(index, id, index[i].previous);
    }
  }

  lemma {:induction false} AboveKeepsBest(index: Index, root: BlockState, head: Id, id: Id)
    requires Tree(index, root) && HeadIsBest(index, root, head) && id in index && IsOn(index, id, head)
    ensures HeadIsBest(Above(index, id), index[id], head)
  {}

  /** The blocks that `d` is built on, its parent first and the root last. */
  ghost function Lineage(index: Index, root: BlockState, d: Id): (list: seq<Id>)
    requires Tree(index, root) && (d in index || d == root.id)
    decreases Height(index, d)
  {
    if d == root.id then [] else [index[d].previous] + Lineage(index, root, index[d].previous)
  }

  lemma {:induction false} LineageStep(index: Index, root: BlockState, id: Id, list: seq<Id>, b: Id)
    requires Tree(index, root) && id in index && b in index && Lineage(index, root, id) == list + Lineage(index, root, b)
    ensures index[b].previous in index || index[b].previous == root.id
    ensures Lineage(index, root, id) == list + [index[b].previous] + Lineage(index, root, index[b].previous)
  {}

  /** `k` is the first place of the list whose branch holds the head. */
  ghost predicate FirstWithHead(index: Index, list: seq<Id>, k: nat, head: Id)
    requires Forest(index) && k < |list|
  {
    IsOn(index, list[k], head) && !OnSome(index, list, k, head)
  }

  /** What is left if the branches of the list are removed up to the first one that holds the head. */
  ghost predicate StoppedAtHead(index: Index, list: seq<Id>, head: Id, left: Index)
    requires Forest(index)
  {
    exists k: nat :: k < |list| && FirstWithHead(index, list, k, head) && left == Less(index, GoneAfter(index, list, k))
  }

  lemma {:induction false} CutLeavesAbove(index: Index, root: BlockState, id: Id, list: seq<Id>, head: Id)
    requires Tree(index, root) && id in index && Ancestors(index, root, id, list) && Known(index, root, head)
    ensures Forest(Less(index, {id}))
    ensures OnSome(Less(index, {id}), list, |list|, head) <==> !IsOn(index, id, head)
    ensures Less(Less(index, {id}), GoneAfter(Less(index, {id}), list, |list|)) == Above(index, id)
  {
    LessIsForest(index, {id});
    forall x | Known(index, root, x) ensures OnSome(Less(index, {id}), list, |list|, x) <==> !IsOn(index, id, x) {
      CutDecides(index, root, id, list, x);
    }
  }

  // ---------- Branches ----------

  predicate Known(index: Index, root: BlockState, d: Id) {
    d in index || d == root.id
  }

  function StateOf(index: Index, root: BlockState, d: Id): (b: BlockState)
    requires Known(index, root, d)
  {
    if d == root.id then root else index[d]
  }

  /** The blocks from `d` down to the root, the root not included. */
  ghost function Path(index: Index, root: BlockState, d: Id): (blocks: seq<BlockState>)
    requires Tree(index, root) && Known(index, root, d)
    decreases Height(index, d)
  {
    if d == root.id then [] else [index[d]] + Path(index, root, index[d].previous)
  }

  ghost predicate Disjoint(a: seq<BlockState>, b: seq<BlockState>) {
    forall i, j :: 0 <= i < |a| && 0 <= j < |b| ==> a[i] != b[j]
  }

  /** `a` and `b` lead from `first` and `second` down to `common`, and share no block. */
  ghost predicate Meeting(index: Index, root: BlockState, first: Id, second: Id, a: seq<BlockState>, b: seq<BlockState>, common: Id)
    requires Tree(index, root) && Known(index, root, first) && Known(index, root, second)
  {
    && Known(index, root, common)
    && Path(index, root, first) == a + Path(index, root, common)
    && Path(index, root, second) == b + Path(index, root, common)
    && Disjoint(a, b)
  }

  lemma {:induction false} StepDown(index: Index, root: BlockState, d: Id)
    requires Tree(index, root) && d in index
    ensures Known(index, root, index[d].previous)
    ensures StateOf(index, root, index[d].previous).blockNum + 1 == index[d].blockNum
    ensures Path(index, root, d) == [index[d]] + Path(index, root, index[d].previous)
  {}

  /** A cursor that left `passed` behind on its way down takes one more step. */
  lemma {:induction false} PassOne(index: Index, root: BlockState, start: Id, passed: seq<BlockState>, d: Id)
    requires Tree(index, root) && Known(index, root, start) && d in index
    requires Path(index, root, start) == passed + Path(index, root, d)
    ensures Known(index, root, index[d].previous)
    ensures Path(index, root, start) == passed + [index[d]] + Path(index, root, index[d].previous)
  {
    StepDown(index, root, d);
  }

  /** Two walks in step: at each height two different blocks. */
  ghost predicate Ladder(a: seq<BlockState>, b: seq<BlockState>, top: nat) {
    && |a| == |b|
    && forall i :: 0 <= i < |a| ==> a[i] != b[i] && a[i].blockNum + i == top && b[i].blockNum + i == top
  }

  ghost predicate Higher(a: seq<BlockState>, top: nat) {
    forall i :: 0 <= i < |a| ==> a[i].blockNum > top
  }

  lemma {:induction false} LadderIsDisjoint(a: seq<BlockState>, b: seq<BlockState>, c: seq<BlockState>, d: seq<BlockState>, top: nat)
    requires Higher(a, top) && Higher(b, top) && (a == [] || b == []) && Ladder(c, d, top)
    ensures Disjoint(a + c, b + d)
  {}

  /** Two cursors that go down side by side, with what they left behind. */
  ghost predicate Together(index: Index, root: BlockState, f0: Id, s0: Id, top: nat,
                           a: seq<BlockState>, b: seq<BlockState>, f: Id, s: Id)
    requires Tree(index, root) && f0 in index && s0 in index
  {
    && f in index && s in index && f != s
    && index[f].blockNum == index[s].blockNum && index[f].blockNum + |a| == top && Ladder(a, b, top)
    && Path(index, root, f0) == a + Path(index, root, f)
    && Path(index, root, s0) == b + Path(index, root, s)
  }

  lemma {:induction false} TogetherStart(index: Index, root: BlockState, f: Id, s: Id)
    requires Tree(index, root) && f in index && s in index && f != s && index[f].blockNum == index[s].blockNum
    ensures Together(index, root, f, s, index[f].blockNum, [], [], f, s)
  {}

  /** Two walks that end above their common parent. */
  ghost predicate Parted(index: Index, root: BlockState, f0: Id, s0: Id, top: nat,
                         a: seq<BlockState>, b: seq<BlockState>, common: Id)
    requires Tree(index, root) && f0 in index && s0 in index
  {
    && Known(index, root, common) && Ladder(a, b, top)
    && Path(index, root, f0) == a + Path(index, root, common)
    && Path(index, root, s0) == b + Path(index, root, common)
  }

  lemma {:induction false} TogetherStep(index: Index, root: BlockState, f0: Id, s0: Id, top: nat,
                                        a: seq<BlockState>, b: seq<BlockState>, f: Id, s: Id)
    requires Tree(index, root) && f0 in index && s0 in index && Together(index, root, f0, s0, top, a, b, f, s)
    ensures var p, q := index[f].previous, index[s].previous;
      if p == q then Parted(index, root, f0, s0, top, a + [index[f]], b + [index[s]], p)
      else Together(index, root, f0, s0, top, a + [index[f]], b + [index[s]], p, q) && index[p].blockNum < index[f].blockNum
  {
    SideBySide(index, root, f, s);
    PassOne(index, root, f0, a, f);
    PassOne(index, root, s0, b, s);
    LadderStep(a, b, top, index[f], index[s]);
  }

  lemma {:induction false} LadderStep(a: seq<BlockState>, b: seq<BlockState>, top: nat, x: BlockState, y: BlockState)
    requires Ladder(a, b, top) && x != y && x.blockNum + |a| == top && y.blockNum + |a| == top
    ensures Ladder(a + [x], b + [y], top)
  {}

  /** Different blocks of the same height are both above the root, and so are their parents if those differ. */
  lemma {:induction false} SideBySide(index: Index, root: BlockState, f: Id, s: Id)
    requires Tree(index, root) && Known(index, root, f) && Known(index, root, s) && f != s
    requires StateOf(index, root, f).blockNum == StateOf(index, root, s).blockNum
    ensures f in index && s in index
    ensures index[f].previous != index[s].previous ==> index[f].previous in index && index[s].previous in index
  {
    RootIsOn(index, root, f);
    RootIsOn(index, root, s);
    if f in index && s in index {
      RootIsOn(index, root, index[f].previous);
      RootIsOn(index, root, index[s].previous);
    }
  }

  lemma {:induction false} MeetingFrom(index: Index, root: BlockState, first: Id, second: Id, f: Id, s: Id, common: Id,
                                       a: seq<BlockState>, b: seq<BlockState>, c: seq<BlockState>, d: seq<BlockState>)
    requires Tree(index, root) && Known(index, root, first) && Known(index, root, second)
    requires Known(index, root, f) && Known(index, root, s) && Known(index, root, common)
    requires Path(index, root, first) == a + Path(index, root, f) && Path(index, root, f) == c + Path(index, root, common)
    requires Path(index, root, second) == b + Path(index, root, s) && Path(index, root, s) == d + Path(index, root, common)
    requires Disjoint(a + c, b + d)
    ensures Meeting(index, root, first, second, a + c, b + d, common)
  {
    Associates(a, c, Path(index, root, common));
    Associates(b, d, Path(index, root, common));
  }

  lemma {:induction false} Associates(a: seq<BlockState>, b: seq<BlockState>, c: seq<BlockState>)
    ensures a + (b + c) == (a + b) + c
  {}

  /** Nothing deeper is common: a block on both paths is on the path of `common`. */
  lemma {:induction false} MeetingIsDeepest(index: Index, root: BlockState, first: Id, second: Id,
                                            a: seq<BlockState>, b: seq<BlockState>, common: Id, x: BlockState)
    requires Tree(index, root) && Known(index, root, first) && Known(index, root, second)
    requires Meeting(index, root, first, second, a, b, common)
    requires x in Path(index, root, first) && x in Path(index, root, second)
    ensures x in Path(index, root, common)
  {
    var shared := Path(index, root, common);
    var i :| 0 <= i < |a + shared| && (a + shared)[i] == x;
    if i < |a| {
      var j :| 0 <= j < |b + shared| && (b + shared)[j] == x;
      assert j >= |b|;
    }
  }

  // ---------- Adding and validating ----------

  lemma {:induction false} AddedIsTree(index: Index, root: BlockState, n: BlockState)
    requires Tree(index, root) && n.id !in index && n.id != root.id && Known(index, root, n.previous)
    requires n.blockNum == StateOf(index, root, n.previous).blockNum + 1
    ensures Tree(index[n.id := n], root)
  {}

  /** If the first block of the index is not validated, none is. */
  lemma {:induction false} FirstDecides(index: Index, root: BlockState, head: Id, n: BlockState, c: Id)
    requires n.id !in index && HeadIsBest(index, root, head) && First(index[n.id := n], c)
    ensures HeadIsBest(index[n.id := n], root, if index[n.id := n][c].validated then c else head)
  {}

  function Validated(index: Index, d: Id): (r: Index)
    requires d in index
  {
    index[d := index[d].(validated := true)]
  }

  lemma {:induction false} ValidatedIsTree(index: Index, root: BlockState, d: Id)
    requires Tree(index, root) && d in index
    ensures Tree(Validated(index, d), root)
  {}

  lemma {:induction false} FirstBeats(index: Index, c: Id, x: Id)
    requires First(index, c) && x in index && index[x].validated
    ensures index[c].validated && !Preferred(index[x], index[c])
  {}

  lemma {:induction false} ValidatedKeepsBest(index: Index, root: BlockState, head: Id, d: Id, c: Id)
    requires HeadIsBest(index, root, head) && d in index && First(Validated(index, d), c)
    ensures HeadIsBest(Validated(index, d), root,
      if Preferred(Validated(index, d)[c], if head in index then index[head] else root) then c else head)
  {
    var now := Validated(index, d);
    FirstBeats(now, c, d);
    forall x | x in now && now[x].validated ensures !Preferred(now[x], now[c]) {
      FirstBeats(now, c, x);
    }
  }

  ghost function StateAt(index: Index, root: BlockState, head: Id): (b: BlockState) {
    if head in index then index[head] else root
  }

  /** A validated block on the head, with no smaller irreversible number, comes first. */
  lemma {:induction false} AddedChild(index: Index, root: BlockState, head: Id, n: BlockState, c: Id)
    requires n.id !in index && HeadIsBest(index, root, head) && First(index[n.id := n], c)
    requires n.validated && n.previous == head && n.lib >= StateAt(index, root, head).lib ==>
      n.blockNum == StateAt(index, root, head).blockNum + 1
    ensures n.validated && n.previous == head && n.lib >= StateAt(index, root, head).lib ==> c == n.id
  {
    assert n.id in index[n.id := n];
  }

  lemma {:induction false} ChildIsAhead(b: BlockState, n: BlockState, x: BlockState)
    requires n.validated && n.lib >= b.lib && n.blockNum == b.blockNum + 1
    requires x.validated ==> NotWorse(b, x)
    ensures !Before(x, n)
  {}

  lemma {:induction false} ValidatedChild(index: Index, root: BlockState, head: Id, d: Id, c: Id)
    requires Tree(index, root) && HeadIsBest(index, root, head) && d in index && First(Validated(index, d), c)
    ensures index[d].previous == head && index[d].lib >= StateAt(index, root, head).lib ==>
      c == d && Preferred(Validated(index, d)[c], StateAt(index, root, head))
  {
    var now, b := Validated(index, d), StateAt(index, root, head);
    if index[d].previous == head && index[d].lib >= b.lib {
      assert index[d].blockNum == b.blockNum + 1;
      forall x | x in index && x != d ensures !Before(now[x], now[d]) {
        ChildIsAhead(b, now[d], index[x]);
      }
    }
  }

  ghost predicate IsFirstPending(index: Index, c: Option<BlockState>) {
    && (c.Some? ==> c.value.id in index && index[c.value.id] == c.value && !c.value.validated)
    && (forall x :: x in index && !index[x].validated ==> c.Some? && (index[x] == c.value || Before(c.value, index[x])))
  }

  lemma {:induction false} PendingIsBest(index: Index, root: BlockState, head: Id, c: Option<BlockState>)
    requires HeadIsBest(index, root, head) && IsFirstPending(index, c)
    ensures var b := StateAt(index, root, head);
      var best := if c.Some? && Preferred(c.value, b) then c.value else b;
      forall x :: x in index ==> NotWorse(best, index[x])
  {
    var b := StateAt(index, root, head);
    if c.Some? {
      PreferredIsWorse(c.value, b);
    }
  }

  /** The index with no block validated. */
  ghost function Cleared(index: Index): (r: Index) {
    map i | i in index :: index[i].(validated := false)
  }

  lemma {:induction false} ClearedIsValid(index: Index, root: BlockState)
    requires Tree(index, root)
    ensures Tree(Cleared(index), root) && HeadIsBest(Cleared(index), root, root.id)
  {
    var r := Cleared(index);
    forall i | i in r ensures r[i].previous == index[i].previous && r[i].blockNum == index[i].blockNum && !r[i].validated {}
  }

  // ---------- The database ----------

  class ForkDb {
    var index: Index
    var root: BlockState
    var head: Id

    ghost predicate Valid()
      reads this
    {
      Tree(index, root) && HeadIsBest(index, root, head)
    }

    function HeadState(): (b: BlockState)
      reads this
    {
      if head in index then index[head] else root
    }

    method ChildrenOf(p: Id) returns (kids: seq<Id>)
      ensures AreChildren(index, p, kids)
    {
      kids := [];
      var left := index.Keys;
      while left != {}
        invariant left <= index.Keys && Distinct(kids)
        invariant forall x :: x in kids <==> x in index && x !in left && index[x].previous == p
        decreases left
      {
        var x :| x in left;
        left := left - {x};
        if index[x].previous == p {
          kids := kids + [x];
        }
      }
    }

    /** The block and everything built on it, breadth first; given up if the head is among it. */
    method CollectBranch(id: Id) returns (ok: bool, queue: seq<Id>)
      requires Forest(index)
      ensures ok <==> !IsOn(index, id, head)
      ensures ok ==> forall x :: x in queue <==> IsOn(index, id, x)
    {
      queue := [id];
      var i := 0;
      ghost var all := index.Keys + {id};
      while i < |queue|
        invariant 0 <= i <= |queue| && Worklist(index, id, queue, i)
        invariant head !in queue[..i]
        decreases all - Elements(queue[..i])
      {
        assert queue[i] in all && queue[i] !in queue[..i];
        if queue[i] == head {
          return false, queue;
        }
        var kids := ChildrenOf(queue[i]);
        WorklistStep(index, id, queue, i, kids);
        OneMoreDone(all, queue, i, kids);
        queue := queue + kids;
        i := i + 1;
      }
      assert queue[..i] == queue;
      forall x ensures x in queue <==> IsOn(index, id, x) {
        if IsOn(index, id, x) {
          WorklistComplete(index, id, queue, x);
        }
      }
      return true, queue;
    }

    /** Remove a block and everything built on it; nothing happens if that would remove the head. */
    method Remove(id: Id) returns (ok: bool)
      requires Forest(index)
      modifies this`index
      ensures ok <==> !IsOn(old(index), id, head)
      ensures index == if ok then Less(old(index), Branch(old(index), id)) else old(index)
    {
      var queue;
      ok, queue := CollectBranch(id);
      if !ok {
        return false;
      }
      ghost var before := index;
      var j := 0;
      while j < |queue|
        invariant 0 <= j <= |queue| && index == Less(before, Elements(queue[..j]))
      {
        assert queue[..j + 1] == queue[..j] + [queue[j]];
        index := index - {queue[j]};
        j := j + 1;
      }
      assert queue[..j] == queue;
    }

    /** A database that holds nothing but its root. */
    constructor (rootState: BlockState)
      ensures Valid() && index == map[] && root == rootState.(validated := true) && head == root.id
    {
      index, root, head := map[], rootState.(validated := true), rootState.id;
    }

    method FindFirst() returns (c: Id)
      requires index != map[] && Forest(index)
      ensures First(index, c)
    {
      c :| c in index;
      var left := index.Keys - {c};
      while left != {}
        invariant left <= index.Keys && c in index && c !in left
        invariant forall x :: x in index && x !in left && x != c ==> Before(index[c], index[x])
        decreases left
      {
        var x :| x in left;
        left := left - {x};
        if Before(index[x], index[c]) {
          c := x;
        }
      }
    }

    /** Add a block that links to a known one.  The block's number is its parent's plus one, and its id is not
        that of the root, because an id determines its block. */
    method Add(n: BlockState, ignoreDuplicate: bool) returns (result: AddResult)
      requires Valid() && n.id != root.id
      requires Known(index, root, n.previous) ==> n.blockNum == StateOf(index, root, n.previous).blockNum + 1
      modifies this`index, this`head
      ensures Valid()
      ensures result ==
        if !Known(old(index), root, n.previous) then Unlinkable
        else if n.id in old(index) then (if ignoreDuplicate then Ignored else Duplicate)
        else Added
      ensures index == if result.Added? then old(index)[n.id := n] else old(index)
      ensures !result.Added? ==> head == old(head)
      ensures result.Added? ==> exists c: Id :: First(index, c) && head == if index[c].validated then c else old(head)
      ensures result.Added? ==> forall x :: x in index && index[x].validated ==>
        && index[x].lib <= HeadState().lib
        && (index[x].lib == HeadState().lib ==> index[x].blockNum <= HeadState().blockNum)
        && (index[x].lib == HeadState().lib && index[x].blockNum == HeadState().blockNum ==> head in index && head <= x)
      ensures result.Added? && n.validated && n.previous == old(head) && n.lib >= old(HeadState()).lib ==> head == n.id
    {
      if !(n.previous in index || n.previous == root.id) {
        return Unlinkable;
      }
      if n.id in index {
        return if ignoreDuplicate then Ignored else Duplicate;
      }
      ghost var before := index;
      AddedIsTree(before, root, n);
      index := index[n.id := n];
      assert n.id in index;
      var candidate := FindFirst();
      FirstDecides(before, root, head, n, candidate);
      AddedChild(before, root, head, n, candidate);
      if index[candidate].validated {
        head := candidate;
      }
      return Added;
    }

    method MarkValid(h: BlockState) returns (ok: bool)
      requires Valid()
      modifies this`index, this`head
      ensures Valid()
      ensures ok <==> h.validated || h.id in old(index)
      ensures index == if h.validated || !ok then old(index) else Validated(old(index), h.id)
      ensures head != old(head) ==> Preferred(HeadState(), old(HeadState()))
      ensures forall x :: x in index && index[x].validated ==>
        index[x].lib <= HeadState().lib && (index[x].lib == HeadState().lib ==> index[x].blockNum <= HeadState().blockNum)
      ensures ok && !h.validated && old(index)[h.id].previous == old(head) && old(index)[h.id].lib >= old(HeadState()).lib
        ==> head == h.id
    {
      if h.validated {
        return true;
      }
      if h.id !in index {
        return false;
      }
      ghost var before := index;
      ValidatedIsTree(before, root, h.id);
      index := Validated(index, h.id);
      assert h.id in index;
      var candidate := FindFirst();
      ValidatedKeepsBest(before, root, head, h.id, candidate);
      ValidatedChild(before, root, head, h.id, candidate);
      if Preferred(index[candidate], HeadState()) {
        head := candidate;
      }
      return true;
    }

    method RollbackHeadToRoot()
      requires Valid()
      modifies this`index, this`head
      ensures Valid() && head == root.id
      ensures index == Cleared(old(index))
    {
      ghost var before := index;
      ClearedIsValid(before, root);
      var left := index.Keys;
      while left != {}
        invariant left <= index.Keys == before.Keys
        invariant forall i :: i in before ==> index[i] == if i in left then before[i] else before[i].(validated := false)
        decreases left
      {
        var i :| i in left;
        index := index[i := index[i].(validated := false)];
        left := left - {i};
      }
      assert index == Cleared(before);
      head := root.id;
    }

    /** The best block of all, validated or not. */
    method PendingHead() returns (best: BlockState)
      requires Valid()
      ensures best == HeadState() || (best.id in index && index[best.id] == best && !best.validated && Preferred(best, HeadState()))
      ensures forall x :: x in index ==> index[x].lib <= best.lib && (index[x].lib == best.lib ==> index[x].blockNum <= best.blockNum)
    {
      best := HeadState();
      var c := FirstPending();
      PendingIsBest(index, root, head, c);
      if c.Some? && Preferred(c.value, best) {
        best := c.value;
      }
    }

    /** The first block of the index order that is not validated. */
    method FirstPending() returns (c: Option<BlockState>)
      requires Forest(index)
      ensures IsFirstPending(index, c)
    {
      var left := index.Keys;
      c := None;
      while left != {}
        invariant left <= index.Keys
        invariant c.Some? ==> c.value.id in index && index[c.value.id] == c.value && !c.value.validated
        invariant forall x :: x in index && x !in left && !index[x].validated ==>
          c.Some? && (index[x] == c.value || Before(c.value, index[x]))
        decreases left
      {
        var x :| x in left;
        left := left - {x};
        if !index[x].validated && (c.None? || Before(index[x], c.value)) {
          c := Some(index[x]);
        }
      }
    }

    /** Make a validated block the new root.  It works exactly for the blocks that the head is built on; what stays is
        what is built on the new root.  Otherwise the call fails half way: the block itself is lost. */
    method AdvanceRoot(id: Id) returns (ok: bool)
      requires Valid()
      modifies this`index, this`root
      ensures ok <==> id in old(index) && old(index)[id].validated && IsOn(old(index), id, head)
      ensures ok ==> Valid() && root == old(index)[id] && index == Above(old(index), id)
      ensures !ok ==> root == old(root)
      ensures !ok && (id !in old(index) || !old(index)[id].validated) ==> index == old(index)
      ensures !ok && id in old(index) && old(index)[id].validated ==>
        Forest(Less(old(index), {id})) && StoppedAtHead(Less(old(index), {id}), Lineage(old(index), root, id), head, index)
    {
      if id !in index || !index[id].validated {
        return false;
      }
      var newRoot := index[id];
      AboveIsTree(index, root, id);
      ok := KeepAbove(id);
      if ok {
        AboveKeepsBest(old(index), root, head, id);
        root := newRoot;
      }
    }

    /** Remove a block, the blocks it is built on and the branches off those. */
    method KeepAbove(id: Id) returns (ok: bool)
      requires Valid() && id in index
      modifies this`index
      ensures ok <==> IsOn(old(index), id, head)
      ensures ok ==> index == Above(old(index), id)
      ensures !ok ==>
        Forest(Less(old(index), {id})) && StoppedAtHead(Less(old(index), {id}), Lineage(old(index), root, id), head, index)
    {
      var list := ListAncestors(id);
      ghost var whole := index;
      CutLeavesAbove(whole, root, id, list, head);
      index := index - {id};
      ghost var cut := Less(whole, {id});
      assert index == cut;
      ok := RemoveAll(list);
      assert !ok ==> StoppedAtHead(cut, list, head, index);
    }

    /** Remove one branch after the other until one of them holds the head. */
    method RemoveAll(list: seq<Id>) returns (ok: bool)
      requires Forest(index)
      modifies this`index
      ensures ok <==> !OnSome(old(index), list, |list|, head)
      ensures ok ==> index == Less(old(index), GoneAfter(old(index), list, |list|))
      ensures !ok ==> StoppedAtHead(old(index), list, head, index)
    {
      ghost var before := index;
      assert GoneAfter(before, list, 0) == {};
      var k := 0;
      while k < |list|
        invariant 0 <= k <= |list|
        invariant index == Less(before, GoneAfter(before, list, k))
        invariant !OnSome(before, list, k, head)
      {
        GoneStep(before, list, k, index);
        GoneIsClosed(before, list, k);
        ClosedSurvives(before, GoneAfter(before, list, k), list[k], head);
        var removed := Remove(list[k]);
        if !removed {
          assert FirstWithHead(before, list, k, head);
          return false;
        }
        k := k + 1;
      }
      return true;
    }

    method ListAncestors(id: Id) returns (list: seq<Id>)
      requires Tree(index, root) && id in index
      ensures Ancestors(index, root, id, list) && list == Lineage(index, root, id)
    {
      list := [];
      var b := id;
      while b in index
        invariant Known(index, root, b) && IsOn(index, b, id) && (b == id || b in list)
        invariant forall x :: x in list ==> x != id && IsOn(index, x, id)
        invariant Lineage(index, root, id) == list + Lineage(index, root, b)
        decreases Height(index, b)
      {
        var previous := index[b].previous;
        assert IsOn(index, previous, b);
        IsOnTransitive(index, previous, b, id);
        if previous == id {
          NotBothWays(index, id, b);
        }
        LineageStep(index, root, id, list, b);
        list := list + [previous];
        b := previous;
      }
    }

    /** Go down from `start` to a block not higher than `num`. */
    method WalkDown(start: BlockState, num: nat) returns (passed: seq<BlockState>, stop: BlockState)
      requires Valid() && num >= root.blockNum
      requires Known(index, root, start.id) && start == StateOf(index, root, start.id)
      ensures Known(index, root, stop.id) && stop == StateOf(index, root, stop.id)
      ensures Path(index, root, start.id) == passed + Path(index, root, stop.id)
      ensures stop.blockNum == if start.blockNum < num then start.blockNum else num
      ensures Higher(passed, num) && (start.blockNum <= num ==> passed == [])
    {
      passed, stop := [], start;
      while stop.blockNum > num
        invariant Known(index, root, stop.id) && stop == StateOf(index, root, stop.id)
        invariant Path(index, root, start.id) == passed + Path(index, root, stop.id)
        invariant if start.blockNum <= num then stop == start && passed == [] else stop.blockNum >= num
        invariant Higher(passed, num)
      {
        PassOne(index, root, start.id, passed, stop.id);
        StepDown(index, root, stop.id);
        passed := passed + [stop];
        stop := StateOf(index, root, stop.previous);
      }
    }

    /** Go down from two different blocks of one height until their parents are the same. */
    method WalkTogether(f0: BlockState, s0: BlockState)
      returns (a: seq<BlockState>, b: seq<BlockState>, ghost common: Id)
      requires Valid() && f0.id in index && s0.id in index && f0 == index[f0.id] && s0 == index[s0.id]
      requires f0.id != s0.id && f0.blockNum == s0.blockNum
      ensures Parted(index, root, f0.id, s0.id, f0.blockNum, a, b, common)
    {
      var f, s := f0.id, s0.id;
      TogetherStart(index, root, f, s);
      a, b := [], [];
      while index[f].previous != index[s].previous
        invariant Together(index, root, f0.id, s0.id, f0.blockNum, a, b, f, s)
        decreases index[f].blockNum
      {
        TogetherStep(index, root, f0.id, s0.id, f0.blockNum, a, b, f, s);
        a, b := a + [index[f]], b + [index[s]];
        f, s := index[f].previous, index[s].previous;
      }
      TogetherStep(index, root, f0.id, s0.id, f0.blockNum, a, b, f, s);
      a, b, common := a + [index[f]], b + [index[s]], index[f].previous;
    }

    /** Two branches that lead from the given blocks down to their deepest common ancestor. */
    method FetchBranchFrom(first: Id, second: Id)
      returns (ok: bool, a: seq<BlockState>, b: seq<BlockState>, ghost common: Id)
      requires Valid()
      ensures ok <==> Known(index, root, first) && Known(index, root, second)
      ensures ok ==> Meeting(index, root, first, second, a, b, common)
    {
      if !(Known(index, root, first) && Known(index, root, second)) {
        return false, [], [], first;
      }
      var f, s := StateOf(index, root, first), StateOf(index, root, second);
      RootIsOn(index, root, first);
      RootIsOn(index, root, second);
      a, f := WalkDown(f, s.blockNum);
      RootIsOn(index, root, f.id);
      b, s := WalkDown(s, f.blockNum);
      if f.id == s.id {
        return true, a, b, f.id;
      }
      SideBySide(index, root, f.id, s.id);
      var c, d;
      c, d, common := WalkTogether(f, s);
      LadderIsDisjoint(a, b, c, d, f.blockNum);
      MeetingFrom(index, root, first, second, f.id, s.id, common, a, b, c, d);
      return true, a + c, b + d, common;
    }
  }

  datatype AddResult = Added | Unlinkable | Ignored | Duplicate

  lemma {:induction false} OneMoreDone(all: set<Id>, queue: seq<Id>, i: nat, kids: seq<Id>)
    requires i < |queue| && queue[i] in all && queue[i] !in queue[..i]
    ensures (queue + kids)[..i + 1] == queue[..i] + [queue[i]]
    ensures all - Elements((queue + kids)[..i + 1]) < all - Elements(queue[..i])
  {
    assert (queue + kids)[..i + 1] == queue[..i] + [queue[i]];
    assert queue[i] in Elements(queue[..i] + [queue[i]]);
    assert queue[i] in all - Elements(queue[..i]);
  }
}
