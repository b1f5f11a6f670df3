/** The skip list under one writer and any number of readers that take no lock.  Nodes live in an
    arena and are named by their index: node 0 is the head, NULL ends a level.  Every load and store of
    a link is one atomic step. */
module SkipLists {
  const MAX_HEIGHT := 12
  const NULL := -1

  /** Shared memory: keys never change, links do. */
  datatype Memory = Memory(keys: seq<real>, next: seq<seq<int>>, maxHeight: nat)

  /** The nodes linked at each level. */
  type Levels = seq<set<nat>>

  /** Node a comes before node b; the head comes before all. */
  ghost predicate Before(m: Memory, a: nat, b: nat)
    requires a < |m.keys| && b < |m.keys|
  {
    b != 0 && (a == 0 || m.keys[a] < m.keys[b])
  }

  ghost predicate IsNode(m: Memory, n: nat, level: nat) {
    n < |m.keys| == |m.next| && level < |m.next[n]|
  }

  ghost predicate NodesOf(m: Memory, nodes: set<nat>, level: nat) {
    forall n :: n in nodes ==> n != 0 && IsNode(m, n, level)
  }

  /** The link of n at a level is its successor among the nodes of the level. */
  ghost predicate LinkOk(m: Memory, nodes: set<nat>, level: nat, n: nat)
    requires NodesOf(m, nodes, level) && IsNode(m, n, level)
  {
    var t := m.next[n][level];
    if t == NULL then forall o :: o in nodes ==> !Before(m, n, o)
    else
      && t >= 0 && t in nodes && Before(m, n, t)
      && forall o :: o in nodes && Before(m, n, o) ==> o == t || Before(m, t, o)
  }

  /** The links of a level form a list of its nodes in key order. */
  ghost predicate LevelOk(m: Memory, nodes: set<nat>, level: nat) {
    && NodesOf(m, nodes, level) && IsNode(m, 0, level)
    && LinkOk(m, nodes, level, 0)
    && forall n :: n in nodes ==> LinkOk(m, nodes, level, n)
  }

  ghost predicate DistinctKeys(m: Memory, nodes: set<nat>) {
    && (forall n :: n in nodes ==> n < |m.keys|)
    && forall a, b :: a in nodes && b in nodes && m.keys[a] == m.keys[b] ==> a == b
  }

  ghost predicate Ok(m: Memory, levels: Levels) {
    && |levels| == MAX_HEIGHT && 1 <= m.maxHeight <= MAX_HEIGHT
    && (forall l :: 0 <= l < MAX_HEIGHT ==> LevelOk(m, levels[l], l))
    && DistinctKeys(m, levels[0])
    && (forall a, b :: 0 <= a <= b < MAX_HEIGHT ==> levels[b] <= levels[a])
    && (forall l :: m.maxHeight <= l < MAX_HEIGHT ==> levels[l] == {})
  }

  // ----- The writer -----

  /** Where the writer is in an insertion. */
  datatype Writer =
    | Idle
    | Found(key: real, height: nat, prev: seq<nat>)
    | Raised(key: real, height: nat, prev: seq<nat>)
    | Linking(node: nat, height: nat, prev: seq<nat>, level: nat, copied: bool)

  /** p is the last node of the level before the key. */
  ghost predicate IsPrev(m: Memory, nodes: set<nat>, key: real, p: nat) {
    && p < |m.keys| && (p == 0 || p in nodes)
    && (p != 0 ==> m.keys[p] < key)
    && forall o :: o in nodes && o < |m.keys| && m.keys[o] < key ==> o == p || Before(m, o, p)
  }

  ghost predicate KeyAbsent(m: Memory, nodes: set<nat>, key: real) {
    forall o :: o in nodes && o < |m.keys| ==> m.keys[o] != key
  }

  ghost predicate PrevsOk(m: Memory, levels: Levels, key: real, prev: seq<nat>, from: nat, height: nat) {
    && |prev| == |levels| == MAX_HEIGHT && 1 <= height <= MAX_HEIGHT
    && forall l :: from <= l < height ==> IsPrev(m, levels[l], key, prev[l]) && KeyAbsent(m, levels[l], key)
  }

  ghost predicate WriterOk(m: Memory, levels: Levels, w: Writer)
    requires Ok(m, levels)
  {
    match w
    case Idle => true
    case Found(key, height, prev) => PrevsOk(m, levels, key, prev, 0, height)
    case Raised(key, height, prev) => PrevsOk(m, levels, key, prev, 0, height) && height <= m.maxHeight
    case Linking(node, height, prev, level, copied) =>
      && 0 < node < |m.keys| && |m.next[node]| == height && level < height <= m.maxHeight
      && PrevsOk(m, levels, m.keys[node], prev, level, height)
      && (forall l :: 0 <= l < level ==> node in levels[l])
      && (copied ==> m.next[node][level] == m.next[prev[level]][level])
  }

  function SetNext(m: Memory, n: nat, level: nat, t: int): Memory
    requires n < |m.next| && level < |m.next[n]|
  {
    m.(next := m.next[n := m.next[n][level := t]])
  }

  /** One step of the writer: an insertion is a search, a possible rise of the height of the list,
      a new node, and two stores for each level. */
  ghost predicate WriterStep(m: Memory, levels: Levels, w: Writer, m': Memory, levels': Levels, w': Writer)
    requires Ok(m, levels) && WriterOk(m, levels, w)
  {
    match w
    case Idle =>
      m' == m && levels' == levels && w'.Found? && PrevsOk(m, levels, w'.key, w'.prev, 0, w'.height)
    case Found(key, height, prev) =>
      && levels' == levels && w' == Raised(key, height, prev)
      && m' == m.(maxHeight := if height > m.maxHeight then height else m.maxHeight)
    case Raised(key, height, prev) =>
      && levels' == levels && w' == Linking(|m.keys|, height, prev, 0, false)
      && m'.keys == m.keys + [key] && m'.maxHeight == m.maxHeight
      && |m'.next| == |m.next| + 1 && m'.next[..|m.next|] == m.next && |m'.next[|m.next|]| == height
    case Linking(node, height, prev, level, false) =>
      && levels' == levels && w' == w.(copied := true)
      && m' == SetNext(m, node, level, m.next[prev[level]][level])
    case Linking(node, height, prev, level, true) =>
      && m' == SetNext(m, prev[level], level, node)
      && levels' == levels[level := levels[level] + {node}]
      && w' == if level + 1 < height then Linking(node, height, prev, level + 1, false) else Idle
  }

  // ----- The readers -----

  datatype Op =
    | AtOrAfter(key: real)   // FindGreaterOrEqual
    | LastBefore(key: real)  // FindLessThan
    | LastOfAll              // FindLast
    | After(node: nat)       // Iterator::Next

  datatype Phase = Searching(x: nat, level: nat) | Done(result: int, seen: set<nat>)

  /** A read in progress: `started` is what the list held when it began, `seen` what it held at the
      step that found the result. */
  datatype Reader = Reader(op: Op, started: set<nat>, phase: Phase)

  ghost predicate KnownNodes(m: Memory, nodes: set<nat>) {
    forall n :: n in nodes ==> n < |m.keys|
  }

  ghost predicate IsFirstFrom(m: Memory, nodes: set<nat>, key: real, result: int)
    requires KnownNodes(m, nodes)
  {
    if result == NULL then (forall o :: o in nodes ==> m.keys[o] < key)
    else
      && result >= 0 && result in nodes && m.keys[result] >= key
      && (forall o :: o in nodes && m.keys[o] >= key ==> m.keys[result] <= m.keys[o])
  }

  ghost predicate IsLastBefore(m: Memory, nodes: set<nat>, key: real, result: int)
    requires KnownNodes(m, nodes)
  {
    if result == 0 then (forall o :: o in nodes ==> m.keys[o] >= key)
    else
      && result >= 0 && result in nodes && m.keys[result] < key
      && (forall o :: o in nodes && m.keys[o] < key ==> m.keys[o] <= m.keys[result])
  }

  ghost predicate IsLast(m: Memory, nodes: set<nat>, result: int)
    requires KnownNodes(m, nodes)
  {
    if result == 0 then nodes == {}
    else result >= 0 && result in nodes && (forall o :: o in nodes ==> m.keys[o] <= m.keys[result])
  }

  ghost predicate IsAfter(m: Memory, nodes: set<nat>, n: nat, result: int)
    requires KnownNodes(m, nodes) && n in nodes
  {
    if result == NULL then (forall o :: o in nodes ==> m.keys[o] <= m.keys[n])
    else
      && result >= 0 && result in nodes && m.keys[result] > m.keys[n]
      && (forall o :: o in nodes && m.keys[o] > m.keys[n] ==> m.keys[result] <= m.keys[o])
  }

  /** The answer to a read over the nodes of a list. */
  ghost predicate Answer(m: Memory, nodes: set<nat>, op: Op, result: int)
    requires KnownNodes(m, nodes)
  {
    match op
    case AtOrAfter(key) => IsFirstFrom(m, nodes, key, result)
    case LastBefore(key) => IsLastBefore(m, nodes, key, result)
    case LastOfAll => IsLast(m, nodes, result)
    case After(n) => n in nodes && IsAfter(m, nodes, n, result)
  }

  /** The search goes on past a node. */
  predicate Passes(m: Memory, op: Op, n: int)
    requires n == NULL || 0 <= n < |m.keys|
  {
    n != NULL &&
    match op
    case AtOrAfter(key) => m.keys[n] < key
    case LastBefore(key) => m.keys[n] < key
    case LastOfAll => true
    case After(_) => false
  }

  ghost predicate ReaderOk(m: Memory, levels: Levels, r: Reader)
    requires Ok(m, levels)
  {
    && r.started <= levels[0]
    && match r.phase
       case Searching(x, level) =>
         && level < MAX_HEIGHT
         && (r.op.After? ==> level == 0 && x == r.op.node && x in levels[0])
         && (x == 0 || (x in levels[level] && (r.op.After? || Passes(m, r.op, x))))
       case Done(result, seen) =>
         r.started <= seen <= levels[0] && Answer(m, seen, r.op, result)
  }

  /** A read begins with the height it sees. */
  ghost predicate ReaderBegins(m: Memory, levels: Levels, r: Reader)
    requires Ok(m, levels)
  {
    && r.started == levels[0]
    && r.phase == (if r.op.After? then Searching(r.op.node, 0) else Searching(0, m.maxHeight - 1))
    && (r.op.After? ==> r.op.node in levels[0])
  }

  lemma LinkInRange(m: Memory, levels: Levels, x: nat, level: nat)
    requires Ok(m, levels) && level < MAX_HEIGHT && (x == 0 || x in levels[level])
    ensures IsNode(m, x, level) && LinkOk(m, levels[level], level, x)
    ensures m.next[x][level] == NULL || (0 <= m.next[x][level] < |m.keys| && m.next[x][level] in levels[level])
  {
    assert LevelOk(m, levels[level], level);
  }

  /** One turn of the search loop: load a link, go along it, go down a level, or stop. */
  ghost predicate ReaderStep(m: Memory, levels: Levels, r: Reader, r': Reader)
    requires Ok(m, levels) && ReaderOk(m, levels, r)
  {
    && r.phase.Searching?
    && var x, level := r.phase.x, r.phase.level;
    LinkInRange(m, levels, x, level);
    var next := m.next[x][level];
    r' == r.(phase :=
      if Passes(m, r.op, next) then Searching(next, level)
      else if level > 0 then Searching(x, level - 1)
      else Done(if r.op.LastBefore? || r.op.LastOfAll? then x else next, levels[0]))
  }

  // ----- Steps keep the invariants -----

  /** Memory only grows: keys stay, nodes stay linked. */
  ghost predicate Extends(m: Memory, levels: Levels, m': Memory, levels': Levels) {
    && m.keys <= m'.keys && |levels| == |levels'| == MAX_HEIGHT
    && forall l :: 0 <= l < MAX_HEIGHT ==> levels[l] <= levels'[l]
  }

  /** A level does not notice stores that leave its links alone. */
  lemma LevelFrame(m: Memory, m': Memory, nodes: set<nat>, level: nat)
    requires LevelOk(m, nodes, level) && m.keys <= m'.keys && |m'.keys| == |m'.next|
    requires forall n :: n == 0 || n in nodes ==> level < |m'.next[n]| && m'.next[n][level] == m.next[n][level]
    ensures LevelOk(m', nodes, level)
  {
    forall n | n == 0 || n in nodes ensures LinkOk(m', nodes, level, n) {
      assert LinkOk(m, nodes, level, n);
      assert forall o :: o in nodes ==> (Before(m, n, o) <==> Before(m', n, o));
    }
  }

  /** The node that is linked in stands between p and what followed p. */
  lemma PublishNewLinks(m: Memory, nodes: set<nat>, level: nat, p: nat, node: nat)
    requires LevelOk(m, nodes, level) && IsNode(m, node, level) && node != 0 && node !in nodes
    requires IsPrev(m, nodes, m.keys[node], p) && KeyAbsent(m, nodes, m.keys[node])
    requires m.next[node][level] == m.next[p][level]
    ensures var m' := SetNext(m, p, level, node);
        && NodesOf(m', nodes + {node}, level)
        && LinkOk(m', nodes + {node}, level, p) && LinkOk(m', nodes + {node}, level, node)
  {
    var m' := SetNext(m, p, level, node);
    assert LinkOk(m, nodes, level, p);
    assert forall o :: o in nodes ==> (Before(m, p, o) <==> Before(m, node, o));
  }

  lemma PublishOldLinks(m: Memory, nodes: set<nat>, level: nat, p: nat, node: nat, n: nat)
    requires LevelOk(m, nodes, level) && IsNode(m, node, level) && node != 0 && node !in nodes
    requires IsPrev(m, nodes, m.keys[node], p) && (n == 0 || n in nodes) && n != p
    ensures var m' := SetNext(m, p, level, node);
        NodesOf(m', nodes + {node}, level) && LinkOk(m', nodes + {node}, level, n)
  {
    var m' := SetNext(m, p, level, node);
    assert LinkOk(m, nodes, level, n);
    PassesThrough(m, nodes, level, p, n, node);
  }

  /** The two stores of one level insert the node into its list. */
  lemma PublishLevel(m: Memory, nodes: set<nat>, level: nat, p: nat, node: nat)
    requires LevelOk(m, nodes, level) && IsNode(m, node, level) && node != 0 && node !in nodes
    requires IsPrev(m, nodes, m.keys[node], p) && KeyAbsent(m, nodes, m.keys[node])
    requires m.next[node][level] == m.next[p][level]
    ensures LevelOk(SetNext(m, p, level, node), nodes + {node}, level)
  {
    hide LinkOk, KeyAbsent;
    var m' := SetNext(m, p, level, node);
    PublishNewLinks(m, nodes, level, p, node);
    forall n | (n == 0 || n in nodes) && n != p ensures LinkOk(m', nodes + {node}, level, n) {
      PublishOldLinks(m, nodes, level, p, node, n);
    }
  }

  /** A node other than p that comes before the new node comes before p. */
  lemma PassesThrough(m: Memory, nodes: set<nat>, level: nat, p: nat, n: nat, node: nat)
    requires LevelOk(m, nodes, level) && node < |m.keys| && node != 0 && IsPrev(m, nodes, m.keys[node], p)
    requires (n == 0 || n in nodes) && n != p
    ensures Before(m, n, node) ==> p in nodes && Before(m, n, p)
  {
  }

  lemma WriterKeeps(m: Memory, levels: Levels, w: Writer, m': Memory, levels': Levels, w': Writer)
    requires Ok(m, levels) && WriterOk(m, levels, w) && WriterStep(m, levels, w, m', levels', w')
    ensures Extends(m, levels, m', levels') && Ok(m', levels') && WriterOk(m', levels', w')
  {
    hide LevelOk, IsPrev, KeyAbsent;
    match w {
      case Idle =>
      case Found(_, _, _) => RaiseKeeps(m, levels, w, m');
      case Raised(_, _, _) => NewNodeKeeps(m, levels, w, m');
      case Linking(_, _, _, _, copied) =>
        if copied {
          PublishKeeps(m, levels, w);
        } else {
          CopyKeeps(m, levels, w);
        }
    }
  }

  lemma RaiseKeeps(m: Memory, levels: Levels, w: Writer, m': Memory)
    requires Ok(m, levels) && WriterOk(m, levels, w) && w.Found?
    requires m' == m.(maxHeight := if w.height > m.maxHeight then w.height else m.maxHeight)
    ensures Extends(m, levels, m', levels) && Ok(m', levels) && WriterOk(m', levels, Raised(w.key, w.height, w.prev))
  {
    forall l | 0 <= l < MAX_HEIGHT ensures LevelOk(m', levels[l], l) {
      LevelFrame(m, m', levels[l], l);
    }
    forall l | 0 <= l < w.height ensures IsPrev(m', levels[l], w.key, w.prev[l]) && KeyAbsent(m', levels[l], w.key) {
      PrevFrame(m, m', levels[l], w.key, w.prev[l]);
    }
  }

  lemma PrevFrame(m: Memory, m': Memory, nodes: set<nat>, key: real, p: nat)
    requires IsPrev(m, nodes, key, p) && KeyAbsent(m, nodes, key) && m.keys <= m'.keys
    requires forall n :: n in nodes ==> n < |m.keys|
    ensures IsPrev(m', nodes, key, p) && KeyAbsent(m', nodes, key)
  {
  }

  lemma NewNodeKeeps(m: Memory, levels: Levels, w: Writer, m': Memory)
    requires Ok(m, levels) && WriterOk(m, levels, w) && w.Raised?
    requires m'.keys == m.keys + [w.key] && m'.maxHeight == m.maxHeight
    requires |m'.next| == |m.next| + 1 && m'.next[..|m.next|] == m.next && |m'.next[|m.next|]| == w.height
    ensures Extends(m, levels, m', levels) && Ok(m', levels)
    ensures WriterOk(m', levels, Linking(|m.keys|, w.height, w.prev, 0, false))
  {
    assert LevelOk(m, levels[0], 0);
    assert forall n :: 0 <= n < |m.next| ==> m'.next[n] == m'.next[..|m.next|][n] == m.next[n];
    forall l | 0 <= l < MAX_HEIGHT ensures LevelOk(m', levels[l], l) {
      assert LevelOk(m, levels[l], l);
      LevelFrame(m, m', levels[l], l);
    }
    forall l | 0 <= l < w.height ensures IsPrev(m', levels[l], w.key, w.prev[l]) && KeyAbsent(m', levels[l], w.key) {
      assert LevelOk(m, levels[l], l);
      PrevFrame(m, m', levels[l], w.key, w.prev[l]);
    }
  }

  /** The new node is not linked at the levels still to do. */
  lemma NotYetLinked(m: Memory, levels: Levels, w: Writer, l: nat)
    requires Ok(m, levels) && WriterOk(m, levels, w) && w.Linking? && w.level <= l < w.height
    ensures w.node !in levels[l]
  {
  }

  lemma PrevLinked(m: Memory, levels: Levels, w: Writer)
    requires Ok(m, levels) && WriterOk(m, levels, w) && w.Linking?
    ensures var p := w.prev[w.level];
        && (p == 0 || p in levels[w.level]) && IsNode(m, p, w.level)
        && (m.next[p][w.level] == NULL || 0 <= m.next[p][w.level] < |m.keys|)
  {
    LinkInRange(m, levels, w.prev[w.level], w.level);
  }

  lemma CopyKeeps(m: Memory, levels: Levels, w: Writer)
    requires Ok(m, levels) && WriterOk(m, levels, w) && w.Linking? && !w.copied
    ensures IsNode(m, w.prev[w.level], w.level)
    ensures var m' := SetNext(m, w.node, w.level, m.next[w.prev[w.level]][w.level]);
        Extends(m, levels, m', levels) && Ok(m', levels) && WriterOk(m', levels, w.(copied := true))
  {
    LinkInRange(m, levels, w.prev[w.level], w.level);
    var m' := SetNext(m, w.node, w.level, m.next[w.prev[w.level]][w.level]);
    NotYetLinked(m, levels, w, w.level);
    forall l | 0 <= l < MAX_HEIGHT ensures LevelOk(m', levels[l], l) {
      assert LevelOk(m, levels[l], l);
      LevelFrame(m, m', levels[l], l);
    }
    forall l | w.level <= l < w.height
      ensures IsPrev(m', levels[l], m.keys[w.node], w.prev[l]) && KeyAbsent(m', levels[l], m.keys[w.node])
    {
      assert LevelOk(m, levels[l], l);
      PrevFrame(m, m', levels[l], m.keys[w.node], w.prev[l]);
    }
  }

  lemma PublishKeeps(m: Memory, levels: Levels, w: Writer)
    requires Ok(m, levels) && WriterOk(m, levels, w) && w.Linking? && w.copied
    ensures IsNode(m, w.prev[w.level], w.level)
    ensures var m' := SetNext(m, w.prev[w.level], w.level, w.node);
        var levels' := levels[w.level := levels[w.level] + {w.node}];
        var w' := if w.level + 1 < w.height then Linking(w.node, w.height, w.prev, w.level + 1, false) else Idle;
        Extends(m, levels, m', levels') && Ok(m', levels') && WriterOk(m', levels', w')
  {
    hide LevelOk, IsPrev, KeyAbsent;
    var p, level, key := w.prev[w.level], w.level, m.keys[w.node];
    PrevLinked(m, levels, w);
    NotYetLinked(m, levels, w, level);
    var m' := SetNext(m, p, level, w.node);
    var levels' := levels[level := levels[level] + {w.node}];
    forall l | 0 <= l < MAX_HEIGHT ensures LevelOk(m', levels'[l], l) {
      PublishOneLevel(m, levels, w, l);
    }
    forall l | level < l < w.height
      ensures IsPrev(m', levels'[l], key, w.prev[l]) && KeyAbsent(m', levels'[l], key)
    {
      KnownLevel(m, levels[l], l);
      PrevFrame(m, m', levels[l], key, w.prev[l]);
    }
    PublishDistinct(m, levels, w);
  }

  lemma KnownLevel(m: Memory, nodes: set<nat>, level: nat)
    requires LevelOk(m, nodes, level)
    ensures forall n :: n in nodes ==> n < |m.keys|
  {
  }

  lemma PublishOneLevel(m: Memory, levels: Levels, w: Writer, l: nat)
    requires Ok(m, levels) && WriterOk(m, levels, w) && w.Linking? && w.copied && l < MAX_HEIGHT
    requires IsNode(m, w.prev[w.level], w.level)
    ensures LevelOk(SetNext(m, w.prev[w.level], w.level, w.node), levels[w.level := levels[w.level] + {w.node}][l], l)
  {
    hide LinkOk, IsPrev, KeyAbsent;
    NotYetLinked(m, levels, w, w.level);
    assert LevelOk(m, levels[l], l);
    if l == w.level {
      PublishLevel(m, levels[l], l, w.prev[w.level], w.node);
    } else {
      LevelFrame(m, SetNext(m, w.prev[w.level], w.level, w.node), levels[l], l);
    }
  }

  lemma PublishDistinct(m: Memory, levels: Levels, w: Writer)
    requires Ok(m, levels) && WriterOk(m, levels, w) && w.Linking? && w.copied
    requires IsNode(m, w.prev[w.level], w.level)
    ensures var levels' := levels[w.level := levels[w.level] + {w.node}];
        && DistinctKeys(SetNext(m, w.prev[w.level], w.level, w.node), levels'[0])
        && forall a, b :: 0 <= a <= b < MAX_HEIGHT ==> levels'[b] <= levels'[a]
  {
    hide LevelOk, IsPrev;
  }

  /** A read in progress does not mind what the writer does. */
  lemma ReaderStable(m: Memory, levels: Levels, m': Memory, levels': Levels, r: Reader)
    requires Ok(m, levels) && Ok(m', levels') && Extends(m, levels, m', levels') && ReaderOk(m, levels, r)
    ensures ReaderOk(m', levels', r)
  {
    hide LevelOk;
    match r.phase {
      case Searching(_, _) =>
      case Done(result, seen) => AnswerStable(m, m', seen, r.op, result);
    }
  }

  lemma AnswerStable(m: Memory, m': Memory, nodes: set<nat>, op: Op, result: int)
    requires KnownNodes(m, nodes) && m.keys <= m'.keys && Answer(m, nodes, op, result)
    ensures Answer(m', nodes, op, result)
  {
  }

  lemma ReaderKeeps(m: Memory, levels: Levels, r: Reader, r': Reader)
    requires Ok(m, levels) && ReaderOk(m, levels, r) && ReaderStep(m, levels, r, r')
    ensures ReaderOk(m, levels, r')
  {
    var x, level := r.phase.x, r.phase.level;
    LinkInRange(m, levels, x, level);
    var next := m.next[x][level];
    if !Passes(m, r.op, next) && level == 0 {
      Stopped(m, levels[0], r.op, x);
    }
  }

  /** Where a search stops at level 0 is the answer at that moment. */
  lemma Stopped(m: Memory, nodes: set<nat>, op: Op, x: nat)
    requires LevelOk(m, nodes, 0) && (x == 0 || x in nodes) && DistinctKeys(m, nodes)
    requires op.After? ==> x == op.node && x in nodes
    requires x != 0 && !op.After? ==> Passes(m, op, x)
    requires m.next[x][0] == NULL || 0 <= m.next[x][0] < |m.keys|
    requires !Passes(m, op, m.next[x][0])
    ensures Answer(m, nodes, op, if op.LastBefore? || op.LastOfAll? then x else m.next[x][0])
  {
    assert LinkOk(m, nodes, 0, x);
    match op {
      case AtOrAfter(key) =>
        forall o | o in nodes && m.keys[o] >= key ensures Before(m, x, o) {
        }
      case LastBefore(key) =>
        forall o | o in nodes && m.keys[o] < key ensures x != 0 && m.keys[o] <= m.keys[x] {
          assert Before(m, x, o) || o == x || Before(m, o, x);
        }
      case LastOfAll =>
        forall o | o in nodes ensures x != 0 && m.keys[o] <= m.keys[x] {
          assert !Before(m, x, o);
        }
      case After(n) =>
        forall o | o in nodes && m.keys[o] > m.keys[n] ensures Before(m, n, o) {
        }
    }
  }

  // ----- The whole system -----

  datatype State = State(m: Memory, levels: Levels, writer: Writer, readers: map<nat, Reader>)

  /** An empty list. */
  ghost predicate Init(s: State) {
    && s.m.keys == [0.0] && s.m.next == [seq(MAX_HEIGHT, i => NULL)] && s.m.maxHeight == 1
    && s.levels == seq(MAX_HEIGHT, i => {}) && s.writer == Idle && s.readers == map[]
  }

  ghost predicate Inv(s: State) {
    && Ok(s.m, s.levels) && WriterOk(s.m, s.levels, s.writer)
    && forall id :: id in s.readers ==> ReaderOk(s.m, s.levels, s.readers[id])
  }

  /** Any thread takes one step: the writer, a reader, or a read that begins. */
  ghost predicate Next(s: State, t: State)
    requires Inv(s)
  {
    || (t.readers == s.readers && WriterStep(s.m, s.levels, s.writer, t.m, t.levels, t.writer))
    || (exists id: nat, r :: id in s.readers && ReaderStep(s.m, s.levels, s.readers[id], r) && t == s.(readers := s.readers[id := r]))
    || (exists id: nat, r :: id !in s.readers && ReaderBegins(s.m, s.levels, r) && t == s.(readers := s.readers[id := r]))
  }

  lemma InitKeeps(s: State)
    requires Init(s)
    ensures Inv(s)
  {
    forall l | 0 <= l < MAX_HEIGHT ensures LevelOk(s.m, s.levels[l], l) {
    }
  }

  lemma StepKeeps(s: State, t: State)
    requires Inv(s) && Next(s, t)
    ensures Inv(t) && Extends(s.m, s.levels, t.m, t.levels)
  {
    hide Ok, WriterOk, ReaderOk, WriterStep, ReaderStep, ReaderBegins, Extends;
    if t.readers == s.readers && WriterStep(s.m, s.levels, s.writer, t.m, t.levels, t.writer) {
      WriterKeeps(s.m, s.levels, s.writer, t.m, t.levels, t.writer);
      forall id | id in t.readers ensures ReaderOk(t.m, t.levels, t.readers[id]) {
        ReaderStable(s.m, s.levels, t.m, t.levels, s.readers[id]);
      }
    } else {
      SameMemory(s.m, s.levels);
      if id: nat, r :| id in s.readers && ReaderStep(s.m, s.levels, s.readers[id], r) && t == s.(readers := s.readers[id := r]) {
        ReaderKeeps(s.m, s.levels, s.readers[id], r);
      } else {
        var id: nat, r :| id !in s.readers && ReaderBegins(s.m, s.levels, r) && t == s.(readers := s.readers[id := r]);
        BeginsOk(s.m, s.levels, r);
      }
    }
  }

  lemma SameMemory(m: Memory, levels: Levels)
    requires Ok(m, levels)
    ensures Extends(m, levels, m, levels)
  {
  }

  lemma BeginsOk(m: Memory, levels: Levels, r: Reader)
    requires Ok(m, levels) && ReaderBegins(m, levels, r)
    ensures ReaderOk(m, levels, r)
  {
  }

  /** A run: every interleaving of the threads.  Steps are defined in states that keep the invariants,
      which are all that a run can reach. */
  ghost predicate Run(run: seq<State>) {
    && run != [] && Init(run[0])
    && forall i, j :: 0 <= i && j == i + 1 && j < |run| && Inv(run[i]) ==> Next(run[i], run[j])
  }

  /** Every state of every run keeps the invariants: all levels are sorted lists, each within the one
      below, and every finished read gave the right answer for what the list held at its last step. */
  lemma {:induction false} RunIsSafe(run: seq<State>, j: nat)
    requires Run(run) && j < |run|
    ensures Inv(run[j])
    ensures j > 0 ==> Inv(run[j - 1]) && Next(run[j - 1], run[j])
  {
    if j == 0 {
      InitKeeps(run[0]);
    } else {
      RunIsSafe(run, j - 1);
      StepKeeps(run[j - 1], run[j]);
    }
  }

  /** A search that has finished, in any run: it found a node at or after its key, and no node that was
      in the list when the search began lies between the key and the node found. */
  lemma NothingSkipped(run: seq<State>, j: nat, id: nat)
    requires Run(run) && j < |run| && id in run[j].readers
    requires var r := run[j].readers[id]; r.op.AtOrAfter? && r.phase.Done?
    ensures Inv(run[j])
    ensures var m, r := run[j].m, run[j].readers[id];
        && (r.phase.result != NULL ==>
              0 <= r.phase.result < |m.keys| && r.phase.result in run[j].levels[0] && m.keys[r.phase.result] >= r.op.key)
        && forall o :: o in r.started && m.keys[o] >= r.op.key ==>
             r.phase.result != NULL && m.keys[r.phase.result] <= m.keys[o]
  {
    RunIsSafe(run, j);
    assert ReaderOk(run[j].m, run[j].levels, run[j].readers[id]);
  }

  // ----- A level as a list -----

  ghost function NodesAfter(m: Memory, nodes: set<nat>, n: nat): set<nat>
    requires n < |m.keys| && KnownNodes(m, nodes)
  {
    set o | o in nodes && Before(m, n, o)
  }

  /** The nodes met by following the links of a level from n. */
  ghost function Walk(m: Memory, nodes: set<nat>, level: nat, n: nat): (w: seq<nat>)
    requires LevelOk(m, nodes, level) && (n == 0 || n in nodes)
    ensures forall i :: 0 <= i < |w| ==> w[i] in nodes && w[i] < |m.keys| && Before(m, n, w[i])
    decreases NodesAfter(m, nodes, n)
  {
    assert LinkOk(m, nodes, level, n);
    var t := m.next[n][level];
    if t == NULL then []
    else
      assert t in NodesAfter(m, nodes, n) && t !in NodesAfter(m, nodes, t);
      [t] + Walk(m, nodes, level, t)
  }

  /** Every level is a list in key order of exactly its nodes, which are nodes of all lower levels. */
  lemma LevelIsSortedSublist(m: Memory, levels: Levels, level: nat)
    requires Ok(m, levels) && level < MAX_HEIGHT
    ensures LevelOk(m, levels[level], level) && levels[level] <= levels[0]
    ensures var w := Walk(m, levels[level], level, 0);
        && (forall i, j :: 0 <= i < j < |w| ==> m.keys[w[i]] < m.keys[w[j]])
        && (forall o :: o in w <==> o in levels[level])
  {
    assert LevelOk(m, levels[level], level);
    WalkSorted(m, levels[level], level, 0);
  }

  lemma {:induction false} WalkSorted(m: Memory, nodes: set<nat>, level: nat, n: nat)
    requires LevelOk(m, nodes, level) && (n == 0 || n in nodes)
    ensures var w := Walk(m, nodes, level, n);
        && (forall i, j :: 0 <= i < j < |w| ==> m.keys[w[i]] < m.keys[w[j]])
        && (forall o :: o in nodes && Before(m, n, o) ==> o in w)
    decreases NodesAfter(m, nodes, n)
  {
    assert LinkOk(m, nodes, level, n);
    var t := m.next[n][level];
    if t != NULL {
      assert t in NodesAfter(m, nodes, n) && t !in NodesAfter(m, nodes, t);
      WalkSorted(m, nodes, level, t);
      var w, rest := Walk(m, nodes, level, n), Walk(m, nodes, level, t);
      assert w == [t] + rest;
    }
  }

  // ----- The operations of the writer, and reads that nothing interferes with -----

  /** A point of an insertion: what is in memory and where the writer is. */
  datatype Point = Point(m: Memory, levels: Levels, writer: Writer)

  ghost predicate PointOk(p: Point) {
    Ok(p.m, p.levels) && WriterOk(p.m, p.levels, p.writer)
  }

  ghost predicate StepBetween(p: Point, q: Point) {
    PointOk(p) && WriterStep(p.m, p.levels, p.writer, q.m, q.levels, q.writer)
  }

  ghost predicate WriterSteps(trace: seq<Point>) {
    forall i, j :: 0 <= i && j == i + 1 && j < |trace| ==> StepBetween(trace[i], trace[j])
  }

  class SkipList {
    var keys: seq<real>
    var next: seq<seq<int>>
    var maxHeight: nat
    ghost var levels: Levels

    function Mem(): Memory
      reads this
    {
      Memory(keys, next, maxHeight)
    }

    ghost predicate Valid()
      reads this
    {
      Ok(Mem(), levels)
    }

    ghost function Nodes(): set<nat>
      requires Valid()
      reads this
      ensures KnownNodes(Mem(), Nodes())
    {
      assert LevelOk(Mem(), levels[0], 0);
      levels[0]
    }

    constructor ()
      ensures Valid() && Nodes() == {}
    {
      keys, next, maxHeight := [0.0], [seq(MAX_HEIGHT, i => NULL)], 1;
      levels := seq(MAX_HEIGHT, i => {});
      new;
      InitKeeps(State(Mem(), levels, Idle, map[]));
    }

    predicate KeyIsAfterNode(key: real, n: int)
      requires n == NULL || 0 <= n < |keys|
      reads this
    {
      n != NULL && keys[n] < key
    }

    /** The first node at or after the key, and the last node before it at every level. */
    method FindGreaterOrEqual(key: real) returns (found: int, prev: seq<nat>)
      requires Valid()
      ensures IsFirstFrom(Mem(), Nodes(), key, found)
      ensures |prev| == MAX_HEIGHT && forall l :: 0 <= l < maxHeight ==> IsPrev(Mem(), levels[l], key, prev[l])
    {
      hide LevelOk, IsPrev, DistinctKeys;
      prev := seq(MAX_HEIGHT, i => 0);
      var x, level := 0, maxHeight - 1;
      while true
        invariant 0 <= level < maxHeight && |prev| == MAX_HEIGHT
        invariant x == 0 || (x in levels[level] && x < |keys| && keys[x] < key)
        invariant forall l :: level < l < maxHeight ==> IsPrev(Mem(), levels[l], key, prev[l])
        decreases level, NodesBeyond(level, x)
      {
        LinkInRange(Mem(), levels, x, level);
        var next := this.next[x][level];
        if KeyIsAfterNode(key, next) {
          GetsCloser(level, x);
          x := next;
        } else {
          PrevFound(Mem(), levels, level, key, x);
          prev := prev[level := x];
          if level == 0 {
            assert LevelOk(Mem(), levels[0], 0);
            Stopped(Mem(), levels[0], AtOrAfter(key), x);
            return next, prev;
          } else {
            level := level - 1;
          }
        }
      }
    }

    ghost function NodesBeyond(level: nat, n: nat): set<nat>
      requires Valid() && level < MAX_HEIGHT && (n == 0 || n in levels[level])
      reads this
    {
      assert LevelOk(Mem(), levels[level], level);
      NodesAfter(Mem(), levels[level], n)
    }

    lemma GetsCloser(level: nat, n: nat)
      requires Valid() && level < MAX_HEIGHT && (n == 0 || n in levels[level])
      requires IsNode(Mem(), n, level) && next[n][level] != NULL
      ensures var t := next[n][level];
          t >= 0 && t in levels[level] && NodesBeyond(level, t) < NodesBeyond(level, n)
    {
      assert LevelOk(Mem(), levels[level], level);
      assert LinkOk(Mem(), levels[level], level, n);
      var t := next[n][level];
      assert t in NodesBeyond(level, n) && t !in NodesBeyond(level, t);
    }

    /** The last node before the key, or the head. */
    method FindLessThan(key: real) returns (x: nat)
      requires Valid()
      ensures IsLastBefore(Mem(), Nodes(), key, x)
    {
      hide LevelOk, IsPrev, DistinctKeys;
      var level := maxHeight - 1;
      x := 0;
      while true
        invariant 0 <= level < maxHeight
        invariant x == 0 || (x in levels[level] && x < |keys| && keys[x] < key)
        decreases level, NodesBeyond(level, x)
      {
        LinkInRange(Mem(), levels, x, level);
        var next := this.next[x][level];
        if next == NULL || keys[next] >= key {
          if level == 0 {
            assert LevelOk(Mem(), levels[0], 0);
            Stopped(Mem(), levels[0], LastBefore(key), x);
            return;
          } else {
            level := level - 1;
          }
        } else {
          GetsCloser(level, x);
          x := next;
        }
      }
    }

    /** The last node, or the head. */
    method FindLast() returns (x: nat)
      requires Valid()
      ensures IsLast(Mem(), Nodes(), x)
    {
      hide LevelOk, IsPrev, DistinctKeys;
      var level := maxHeight - 1;
      x := 0;
      while true
        invariant 0 <= level < maxHeight
        invariant x == 0 || (x in levels[level] && x < |keys|)
        decreases level, NodesBeyond(level, x)
      {
        LinkInRange(Mem(), levels, x, level);
        var next := this.next[x][level];
        if next == NULL {
          if level == 0 {
            assert LevelOk(Mem(), levels[0], 0);
            Stopped(Mem(), levels[0], LastOfAll, x);
            return;
          } else {
            level := level - 1;
          }
        } else {
          GetsCloser(level, x);
          x := next;
        }
      }
    }

    /** Insert a new key as a node of some height.  Each store is one step of the writer, so readers may
        run between any two of them. */
    method Insert(key: real, height: nat) returns (ghost trace: seq<Point>)
      requires Valid() && KeyAbsent(Mem(), Nodes(), key) && 1 <= height <= MAX_HEIGHT
      modifies this
      ensures Valid() && keys == old(keys) + [key] && Nodes() == old(Nodes()) + {|old(keys)|}
      ensures trace != [] && WriterSteps(trace)
      ensures trace[0] == Point(old(Mem()), old(levels), Idle)
      ensures trace[|trace| - 1] == Point(Mem(), levels, Idle)
    {
      hide LevelOk, IsPrev, KeyAbsent, Ok, WriterOk, StepBetween, WriterSteps, IsFirstFrom;
      var x, prev := FindGreaterOrEqual(key);
      trace := [Point(Mem(), levels, Idle)];
      StartIdle(Mem(), levels);
      BoundedHeight();
      ghost var top := maxHeight;
      if height > maxHeight {
        for i := maxHeight to height
          invariant |prev| == MAX_HEIGHT && maxHeight == top
          invariant forall l :: 0 <= l < maxHeight ==> IsPrev(Mem(), levels[l], key, prev[l])
          invariant forall l :: maxHeight <= l < i ==> prev[l] == 0
        {
          prev := prev[i := 0];
        }
      }
      SearchDone(key, height, prev);
      ghost var w := Found(key, height, prev);
      ExtendSteps(trace, Point(Mem(), levels, w));
      trace := trace + [Point(Mem(), levels, w)];

      if height > maxHeight {
        maxHeight := height;
      }
      w := Raised(key, height, prev);
      RaiseIsStep(trace[|trace| - 1], Point(Mem(), levels, w));
      ExtendSteps(trace, Point(Mem(), levels, w));
      trace := trace + [Point(Mem(), levels, w)];

      // Allocate the node
      var node := |keys|;
      keys, next := keys + [key], next + [seq(height, i => NULL)];
      w := Linking(node, height, prev, 0, false);
      NewNodeIsStep(trace[|trace| - 1], Point(Mem(), levels, w));
      ExtendSteps(trace, Point(Mem(), levels, w));
      trace := trace + [Point(Mem(), levels, w)];
      ghost var links := LinkNode(node, height, prev);
      ConcatSteps(trace, links);
      trace := trace + links[1..];
    }

    /** Publish a new node level by level. */
    method LinkNode(node: nat, height: nat, prev: seq<nat>) returns (ghost trace: seq<Point>)
      requires Valid() && 1 <= height <= MAX_HEIGHT && WriterOk(Mem(), levels, Linking(node, height, prev, 0, false))
      modifies this
      ensures Valid() && keys == old(keys) && Nodes() == old(Nodes()) + {node}
      ensures trace != [] && WriterSteps(trace)
      ensures trace[0] == Point(old(Mem()), old(levels), Linking(node, height, prev, 0, false))
      ensures trace[|trace| - 1] == Point(Mem(), levels, Idle)
    {
      hide Ok, WriterOk, StepBetween, WriterSteps;
      BoundedHeight();
      ghost var w := Linking(node, height, prev, 0, false);
      trace := [Point(Mem(), levels, w)];
      OnePoint(trace);
      for i := 0 to height
        invariant w == if i < height then Linking(node, height, prev, i, false) else Idle
        invariant Ok(Mem(), levels) && WriterOk(Mem(), levels, w)
        invariant trace != [] && WriterSteps(trace) && trace[|trace| - 1] == Point(Mem(), levels, w)
        invariant trace[0] == Point(old(Mem()), old(levels), Linking(node, height, prev, 0, false))
        invariant keys == old(keys)
        invariant levels != [] && old(levels) != []
        invariant levels[0] == if i == 0 then old(levels)[0] else old(levels)[0] + {node}
      {
        LinkFacts(w);
        next := next[node := next[node][i := next[prev[i]][i]]];
        w := w.(copied := true);
        CopyIsStep(trace[|trace| - 1], Point(Mem(), levels, w));
        ExtendSteps(trace, Point(Mem(), levels, w));
        trace := trace + [Point(Mem(), levels, w)];

        LinkFacts(w);
        next := next[prev[i] := next[prev[i]][i := node]];
        levels := levels[i := levels[i] + {node}];
        w := if i + 1 < height then Linking(node, height, prev, i + 1, false) else Idle;
        PublishIsStep(trace[|trace| - 1], Point(Mem(), levels, w));
        ExtendSteps(trace, Point(Mem(), levels, w));
        trace := trace + [Point(Mem(), levels, w)];
      }
    }

    lemma BoundedHeight()
      requires Valid()
      ensures 1 <= maxHeight <= MAX_HEIGHT == |levels|
    {
    }

    /** With the head before the key at all levels that are empty, the search has found what the
        insertion needs. */
    lemma SearchDone(key: real, height: nat, prev: seq<nat>)
      requires Valid() && KeyAbsent(Mem(), Nodes(), key) && 1 <= height <= MAX_HEIGHT == |prev|
      requires forall l :: 0 <= l < maxHeight ==> IsPrev(Mem(), levels[l], key, prev[l])
      requires forall l :: maxHeight <= l < height ==> prev[l] == 0
      ensures WriterOk(Mem(), levels, Found(key, height, prev))
      ensures StepBetween(Point(Mem(), levels, Idle), Point(Mem(), levels, Found(key, height, prev)))
    {
      hide LevelOk;
      assert LevelOk(Mem(), levels[0], 0) && IsNode(Mem(), 0, 0) by {
        ZeroIsNode(Mem(), levels[0], 0);
      }
    }

    lemma LinkFacts(w: Writer)
      requires Ok(Mem(), levels) && WriterOk(Mem(), levels, w) && w.Linking?
      ensures |next| == |keys| && w.node < |next| && w.level < |next[w.node]|
      ensures w.level < |w.prev| && w.prev[w.level] < |next| && w.level < |next[w.prev[w.level]]|
      ensures w.level < |levels|
    {
      PrevLinked(Mem(), levels, w);
    }

    method Contains(key: real) returns (yes: bool)
      requires Valid()
      ensures yes <==> exists n :: n in Nodes() && keys[n] == key
    {
      var x, prev := FindGreaterOrEqual(key);
      yes := x != NULL && keys[x] == key;
    }
  }

  lemma ZeroIsNode(m: Memory, nodes: set<nat>, level: nat)
    requires LevelOk(m, nodes, level)
    ensures IsNode(m, 0, level)
  {
  }

  lemma StartIdle(m: Memory, levels: Levels)
    requires Ok(m, levels)
    ensures WriterSteps([Point(m, levels, Idle)]) && PointOk(Point(m, levels, Idle))
  {
  }

  lemma ExtendSteps(trace: seq<Point>, p: Point)
    requires trace != [] && WriterSteps(trace) && StepBetween(trace[|trace| - 1], p)
    ensures WriterSteps(trace + [p]) && PointOk(p)
  {
    hide PointOk, WriterStep;
    var q, t := trace[|trace| - 1], trace + [p];
    PointKeeps(q, p);
    forall i, j | 0 <= i && j == i + 1 && j < |t| ensures StepBetween(t[i], t[j]) {
      if j < |trace| {
        assert t[i] == trace[i] && t[j] == trace[j];
      }
    }
  }

  lemma PointKeeps(p: Point, q: Point)
    requires StepBetween(p, q)
    ensures PointOk(q)
  {
    WriterKeeps(p.m, p.levels, p.writer, q.m, q.levels, q.writer);
  }

  lemma OnePoint(trace: seq<Point>)
    requires |trace| == 1
    ensures WriterSteps(trace)
  {
  }

  lemma ConcatSteps(a: seq<Point>, b: seq<Point>)
    requires a != [] && b != [] && WriterSteps(a) && WriterSteps(b) && a[|a| - 1] == b[0]
    ensures WriterSteps(a + b[1..]) && (a + b[1..])[|a| + |b| - 2] == b[|b| - 1]
  {
    hide StepBetween;
    var t := a + b[1..];
    assert forall i :: |a| - 1 <= i < |t| ==> t[i] == b[i - |a| + 1];
    forall i, j | 0 <= i && j == i + 1 && j < |t| ensures StepBetween(t[i], t[j]) {
      if j < |a| {
        assert t[i] == a[i] && t[j] == a[j];
      } else {
        assert t[i] == b[i - |a| + 1] && t[j] == b[j - |a| + 1];
      }
    }
  }

  lemma RaiseIsStep(p: Point, q: Point)
    requires PointOk(p) && p.writer.Found? && q.writer == Raised(p.writer.key, p.writer.height, p.writer.prev)
    requires q.levels == p.levels && q.m == p.m.(maxHeight := if p.writer.height > p.m.maxHeight then p.writer.height else p.m.maxHeight)
    ensures StepBetween(p, q)
  {
  }

  lemma NewNodeIsStep(p: Point, q: Point)
    requires PointOk(p) && p.writer.Raised? && q.writer == Linking(|p.m.keys|, p.writer.height, p.writer.prev, 0, false)
    requires q.levels == p.levels && q.m.keys == p.m.keys + [p.writer.key] && q.m.maxHeight == p.m.maxHeight
    requires q.m.next == p.m.next + [seq(p.writer.height, i => NULL)]
    ensures StepBetween(p, q)
  {
  }

  lemma CopyIsStep(p: Point, q: Point)
    requires PointOk(p) && p.writer.Linking? && !p.writer.copied && q.writer == p.writer.(copied := true) && q.levels == p.levels
    requires var w := p.writer;
        IsNode(p.m, w.node, w.level) && w.level < |w.prev| && IsNode(p.m, w.prev[w.level], w.level) &&
        q.m == SetNext(p.m, w.node, w.level, p.m.next[w.prev[w.level]][w.level])
    ensures StepBetween(p, q)
  {
  }

  lemma PublishIsStep(p: Point, q: Point)
    requires PointOk(p) && p.writer.Linking? && p.writer.copied
    requires var w := p.writer;
        && w.level < |w.prev| && w.level < |p.levels| && IsNode(p.m, w.prev[w.level], w.level)
        && q.m == SetNext(p.m, w.prev[w.level], w.level, w.node)
        && q.levels == p.levels[w.level := p.levels[w.level] + {w.node}]
        && q.writer == if w.level + 1 < w.height then Linking(w.node, w.height, w.prev, w.level + 1, false) else Idle
    ensures StepBetween(p, q)
  {
  }

  /** A node that the search of a level does not go past is the last before the key. */
  lemma PrevFound(m: Memory, levels: Levels, level: nat, key: real, x: nat)
    requires Ok(m, levels) && level < MAX_HEIGHT && (x == 0 || x in levels[level])
    requires IsNode(m, x, level) && (x != 0 ==> m.keys[x] < key)
    requires var t := m.next[x][level]; t == NULL || (0 <= t < |m.keys| && m.keys[t] >= key)
    ensures IsPrev(m, levels[level], key, x)
  {
    assert LevelOk(m, levels[level], level);
    assert LinkOk(m, levels[level], level, x);
    forall o | o in levels[level] && m.keys[o] < key ensures o == x || Before(m, o, x) {
      assert !Before(m, x, o);
      assert o in levels[0] && (x != 0 ==> x in levels[0]);
    }
  }
}
