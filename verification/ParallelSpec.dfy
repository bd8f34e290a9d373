/** The threads of the parallel build as a state machine: any thread may take the next step, and
    hash_node itself takes two, so that a thread can be stopped while the hash it is writing is unset. */
module ParallelSpec {
  import opened Hashes
  import opened MerkleSpec
  import opened Powers

  // ----- Which nodes belong to which thread -----

  /** With T threads and m levels, thread t hashes a subtree below node T + t, bottom level 0 first. */
  function Start(T: nat, m: nat, t: nat, level: nat): nat
    requires level <= m
    decreases m - level
  {
    if level == m then T + t else 2 * Start(T, m, t, level + 1)
  }

  function Width(m: nat, level: nat): (w: nat)
    requires level <= m
    ensures w >= 1 && (level < m ==> w >= 2 && w % 2 == 0)
    decreases m - level
  {
    if level == m then 1 else 2 * Width(m, level + 1)
  }

  /** The first node of a level of the whole tree. */
  function Row(T: nat, m: nat, level: nat): nat
    requires level <= m
    decreases m - level
  {
    if level == m then T else 2 * Row(T, m, level + 1)
  }

  predicate InBlock(T: nat, m: nat, t: nat, level: nat, x: nat) {
    level <= m && Start(T, m, t, level) <= x < Start(T, m, t, level) + Width(m, level)
  }

  lemma {:induction false} BlockInRow(T: nat, m: nat, t: nat, level: nat)
    requires level <= m && t < T
    ensures Row(T, m, level) <= Start(T, m, t, level)
    ensures Start(T, m, t, level) + Width(m, level) <= 2 * Row(T, m, level)
    decreases m - level
  {
    if level < m {
      BlockInRow(T, m, t, level + 1);
    }
  }

  lemma {:induction false} BlocksApart(T: nat, m: nat, t: nat, u: nat, level: nat)
    requires level <= m && t < u
    ensures Start(T, m, t, level) + Width(m, level) <= Start(T, m, u, level)
    decreases m - level
  {
    if level < m {
      BlocksApart(T, m, t, u, level + 1);
    }
  }

  lemma {:induction false} RowsApart(T: nat, m: nat, k: nat, level: nat)
    requires k < level <= m
    ensures 2 * Row(T, m, level) <= Row(T, m, k)
    decreases level - k
  {
    if k + 1 < level {
      RowsApart(T, m, k + 1, level);
    }
  }

  /** No node belongs to two threads, or to two levels. */
  lemma BlocksDisjoint(T: nat, m: nat, t: nat, k: nat, u: nat, level: nat, x: nat)
    requires t < T && u < T && InBlock(T, m, t, k, x) && InBlock(T, m, u, level, x)
    ensures t == u && k == level
  {
    BlockInRow(T, m, t, k);
    BlockInRow(T, m, u, level);
    if k < level {
      RowsApart(T, m, k, level);
    } else if level < k {
      RowsApart(T, m, level, k);
    } else if t < u {
      BlocksApart(T, m, t, u, k);
    } else if u < t {
      BlocksApart(T, m, u, t, k);
    }
  }

  /** A thread reads only hashes that it has written itself, one level below. */
  lemma ChildrenInBlock(T: nat, m: nat, t: nat, level: nat, x: nat)
    requires 0 < level && InBlock(T, m, t, level, x)
    ensures InBlock(T, m, t, level - 1, 2 * x) && InBlock(T, m, t, level - 1, 2 * x + 1)
  {
  }

  /** Every node from 2T on belongs to some thread. */
  lemma {:induction false} BlocksCover(T: nat, m: nat, x: nat) returns (t: nat, level: nat)
    requires 2 * T <= x < 2 * Row(T, m, 0) && T > 0
    ensures t < T && level < m && InBlock(T, m, t, level, x)
    decreases x
  {
    if m == 0 {
      assert false;
    }
    if x < 4 * T {
      t, level := x / 2 - T, m - 1;
      assert Start(T, m, t, m) == T + t;
    } else {
      var above;
      t, above := BlocksCover(T, m, x / 2);
      if above == 0 {
        BlockInRow(T, m, t, 0);
        assert false;
      }
      level := above - 1;
    }
  }

  // ----- The machine -----

  /** The local variables of m_hash_nodes, and the hash that hash_node has computed but not stored. */
  datatype Thread = Thread(level: nat, start: nat, nbLeaves: nat, j: nat, pending: Ptr<Hash>)

  datatype System = System(nodes: seq<Node>, threads: seq<Thread>)

  predicate Finished(th: Thread, m: nat) {
    th.level >= m
  }

  /** The loops of m_hash_nodes after node j. */
  function Advance(th: Thread): Thread {
    if th.j + 1 < th.start + th.nbLeaves then th.(j := th.j + 1, pending := Null)
    else Thread(th.level + 1, th.start / 2, th.nbLeaves / 2, th.start / 2, Null)
  }

  /** One step of thread t: compute the hash of node j and clear the node, or store the hash.  A hash
      that cannot be computed is skipped. */
  function Step(h: Hasher, s: System, n: nat, m: nat, t: nat): (r: System)
    requires t < |s.threads| && 2 * n <= |s.nodes|
    ensures |r.threads| == |s.threads| && |r.nodes| == |s.nodes|
  {
    var th := s.threads[t];
    if Finished(th, m) || th.j >= |s.nodes| then s
    else if th.pending.To? then
      System(SetHash(s.nodes, th.j, th.pending), s.threads[t := Advance(th)])
    else
      var p := Rehash(h, s.nodes, n, th.j);
      if p.To? then System(SetHash(s.nodes, th.j, Unset), s.threads[t := th.(pending := p)])
      else s.(threads := s.threads[t := Advance(th)])
  }

  function Run(h: Hasher, s: System, n: nat, m: nat, schedule: seq<nat>): (r: System)
    requires 2 * n <= |s.nodes| && forall i :: 0 <= i < |schedule| ==> schedule[i] < |s.threads|
    ensures |r.threads| == |s.threads| && |r.nodes| == |s.nodes|
  {
    if schedule == [] then s
    else Step(h, Run(h, s, n, m, schedule[..|schedule| - 1]), n, m, schedule[|schedule| - 1])
  }

  // ----- What every step keeps -----

  /** Thread t is where its loops say, and its block is right up to there. */
  ghost predicate ThreadOk(h: Hasher, nodes: seq<Node>, leaves: seq<Hash>, T: nat, m: nat, t: nat, th: Thread) {
    && 2 * |leaves| <= |nodes| && th.level <= m
    && th.start == Start(T, m, t, th.level) && th.nbLeaves == Width(m, th.level)
    && (th.level < m ==> th.start <= th.j < th.start + th.nbLeaves && 0 < th.j < 2 * |leaves|)
    && (th.pending.To? ==> th.level < m && th.pending.value == NodeHash(h, leaves, th.j))
    && (forall level: nat, x: nat :: level < th.level && InBlock(T, m, t, level, x) && 0 < x < 2 * |leaves| ==>
          nodes[x].hash == To(NodeHash(h, leaves, x)))
    && (th.level < m ==> forall x :: th.start <= x < th.j && 0 < x ==> nodes[x].hash == To(NodeHash(h, leaves, x)))
  }

  ghost predicate Inv(h: Hasher, s: System, leaves: seq<Hash>, T: nat, m: nat) {
    && |s.threads| == T && T > 0 && |leaves| == Row(T, m, 0) > 0
    && LeafData(h, s.nodes, leaves, 2 * |leaves| - 1)
    && forall t :: 0 <= t < T ==> ThreadOk(h, s.nodes, leaves, T, m, t, s.threads[t])
  }

  lemma InBlockInRange(T: nat, m: nat, t: nat, level: nat, x: nat)
    requires t < T && InBlock(T, m, t, level, x)
    ensures 0 < x < 2 * Row(T, m, 0)
    ensures level == 0 ==> x >= Row(T, m, 0)
    ensures level > 0 ==> x < Row(T, m, 0)
  {
    BlockInRow(T, m, t, level);
    if level > 0 {
      RowsApart(T, m, 0, level);
    }
  }

  /** hash_node is called on a node whose inputs are ready and right. */
  lemma InputsReady(h: Hasher, s: System, leaves: seq<Hash>, T: nat, m: nat, t: nat)
    requires Inv(h, s, leaves, T, m) && t < T && !Finished(s.threads[t], m)
    ensures
      var x := s.threads[t].j;
      && InBlock(T, m, t, s.threads[t].level, x) && 0 < x < 2 * |leaves|
      && Readable(s.nodes, |leaves|, x)
      && Rehash(h, s.nodes, |leaves|, x) == To(NodeHash(h, leaves, x))
  {
    var th := s.threads[t];
    var x := th.j;
    assert ThreadOk(h, s.nodes, leaves, T, m, t, th);
    InBlockInRange(T, m, t, th.level, x);
    if th.level > 0 {
      ChildrenInBlock(T, m, t, th.level, x);
      InBlockInRange(T, m, t, th.level - 1, 2 * x);
      InBlockInRange(T, m, t, th.level - 1, 2 * x + 1);
    }
  }

  /** A step of another thread, which writes one node of its own, does not matter. */
  lemma OthersKeep(h: Hasher, nodes: seq<Node>, p: Ptr<Hash>, leaves: seq<Hash>, T: nat, m: nat,
                   t: nat, level: nat, x: nat, u: nat, th: Thread)
    requires x < |nodes| && t < T && u < T && t != u && InBlock(T, m, t, level, x)
    requires ThreadOk(h, nodes, leaves, T, m, u, th)
    ensures ThreadOk(h, SetHash(nodes, x, p), leaves, T, m, u, th)
  {
    forall k: nat | k < th.level && InBlock(T, m, u, k, x)
      ensures false
    {
      BlocksDisjoint(T, m, t, level, u, k, x);
    }
    if th.level < m && th.start <= x < th.j {
      BlocksDisjoint(T, m, t, level, u, th.level, x);
      assert false;
    }
  }

  /** A thread has not yet declared the node it is writing to be done. */
  lemma OwnBegin(h: Hasher, nodes: seq<Node>, leaves: seq<Hash>, T: nat, m: nat, t: nat, th: Thread)
    requires t < T && ThreadOk(h, nodes, leaves, T, m, t, th) && !Finished(th, m)
    ensures ThreadOk(h, SetHash(nodes, th.j, Unset), leaves, T, m, t, th.(pending := To(NodeHash(h, leaves, th.j))))
  {
    forall k: nat | k < th.level && InBlock(T, m, t, k, th.j)
      ensures false
    {
      BlocksDisjoint(T, m, t, th.level, t, k, th.j);
    }
  }

  lemma OwnStore(h: Hasher, nodes: seq<Node>, leaves: seq<Hash>, T: nat, m: nat, t: nat, th: Thread)
    requires t < T && ThreadOk(h, nodes, leaves, T, m, t, th) && th.pending.To? && |leaves| == Row(T, m, 0)
    ensures ThreadOk(h, SetHash(nodes, th.j, th.pending), leaves, T, m, t, Advance(th))
  {
    var after := Advance(th);
    var now := SetHash(nodes, th.j, th.pending);
    forall k: nat | k < th.level && InBlock(T, m, t, k, th.j)
      ensures false
    {
      BlocksDisjoint(T, m, t, th.level, t, k, th.j);
    }
    if after.level > th.level {
      assert th.start + th.nbLeaves == th.j + 1;
      forall k: nat, x: nat | k < after.level && InBlock(T, m, t, k, x) && 0 < x < 2 * |leaves|
        ensures now[x].hash == To(NodeHash(h, leaves, x))
      {
      }
      if after.level < m {
        assert InBlock(T, m, t, after.level, after.j);
        InBlockInRange(T, m, t, after.level, after.j);
      }
    } else {
      assert InBlock(T, m, t, after.level, after.j);
      InBlockInRange(T, m, t, after.level, after.j);
    }
  }

  lemma StepKeepsInv(h: Hasher, s: System, leaves: seq<Hash>, T: nat, m: nat, t: nat)
    requires Inv(h, s, leaves, T, m) && t < T
    ensures Inv(h, Step(h, s, |leaves|, m, t), leaves, T, m)
  {
    var th := s.threads[t];
    if !Finished(th, m) {
      var r := Step(h, s, |leaves|, m, t);
      InputsReady(h, s, leaves, T, m, t);
      assert ThreadOk(h, s.nodes, leaves, T, m, t, th);
      if th.pending.To? {
        OwnStore(h, s.nodes, leaves, T, m, t, th);
      } else {
        OwnBegin(h, s.nodes, leaves, T, m, t, th);
      }
      forall u | 0 <= u < T && u != t
        ensures ThreadOk(h, r.nodes, leaves, T, m, u, r.threads[u])
      {
        OthersKeep(h, s.nodes, if th.pending.To? then th.pending else Unset, leaves, T, m, t, th.level, th.j, u, s.threads[u]);
      }
    }
  }

  lemma {:induction false} RunKeepsInv(h: Hasher, s: System, leaves: seq<Hash>, T: nat, m: nat, schedule: seq<nat>)
    requires Inv(h, s, leaves, T, m) && forall i :: 0 <= i < |schedule| ==> schedule[i] < T
    ensures Inv(h, Run(h, s, |leaves|, m, schedule), leaves, T, m)
  {
    hide Inv;
    if schedule != [] {
      InvShape(h, s, leaves, T, m);
      RunKeepsInv(h, s, leaves, T, m, schedule[..|schedule| - 1]);
      StepKeepsInv(h, Run(h, s, |leaves|, m, schedule[..|schedule| - 1]), leaves, T, m, schedule[|schedule| - 1]);
    } else {
      InvShape(h, s, leaves, T, m);
    }
  }

  lemma InvShape(h: Hasher, s: System, leaves: seq<Hash>, T: nat, m: nat)
    requires Inv(h, s, leaves, T, m)
    ensures |s.threads| == T && 2 * |leaves| <= |s.nodes|
  {
  }

  // ----- Start and end -----

  /** The arguments that m_build_tree gives its threads. */
  function Launch(T: nat, leafStart: nat, nbLeaves: nat): (r: seq<Thread>)
    ensures |r| == T
  {
    seq(T, t requires 0 <= t < T => Thread(0, leafStart + t * nbLeaves, nbLeaves, leafStart + t * nbLeaves, Null))
  }

  lemma {:induction false} StartIsEven(T: nat, m: nat, t: nat, level: nat)
    requires level <= m
    ensures Start(T, m, t, level) == Row(T, m, level) + t * Width(m, level)
    decreases m - level
  {
    if level < m {
      StartIsEven(T, m, t, level + 1);
      assert t * Width(m, level) == 2 * (t * Width(m, level + 1));
    }
  }

  lemma {:induction false} LevelSizes(T: nat, m: nat, level: nat)
    requires level <= m
    ensures Width(m, level) == Pow2(m - level) && Row(T, m, level) == T * Pow2(m - level)
    decreases m - level
  {
    if level < m {
      LevelSizes(T, m, level + 1);
      assert T * Pow2(m - level) == 2 * (T * Pow2(m - level - 1));
    }
  }

  /** The sizes that m_build_tree computes with divisions and logarithms. */
  lemma LaunchSizes(T: nat, m: nat)
    requires T > 0 && m > 0
    ensures
      var n := T * Pow2(m);
      n > 0 && n / T == Pow2(m) && Log2(n / T) == m && n % T == 0 && n / Pow2(m - 1) == 2 * T && n == Row(T, m, 0)
  {
    hide Log2;
    var n := T * Pow2(m);
    LevelSizes(T, m, 0);
    hide Row;
    Pow2Halves(m);
    hide Pow2;
    MulBound(T, Pow2(m));
    assert n == T * Pow2(m) + 0;
    ModUnique(n, T, Pow2(m), 0);
    Log2OfPow2(m);
    assert n == Pow2(m - 1) * (2 * T) + 0 by {
      assert T * (2 * Pow2(m - 1)) == Pow2(m - 1) * (2 * T);
    }
    ModUnique(n, Pow2(m - 1), 2 * T, 0);
  }

  lemma LaunchIsOk(h: Hasher, nodes: seq<Node>, leaves: seq<Hash>, T: nat, m: nat)
    requires T > 0 && m > 0 && |leaves| == T * Pow2(m) > 0
    requires LeafData(h, nodes, leaves, 2 * |leaves| - 1)
    ensures Inv(h, System(nodes, Launch(T, |leaves|, Pow2(m))), leaves, T, m)
  {
    LevelSizes(T, m, 0);
    forall t | 0 <= t < T
      ensures ThreadOk(h, nodes, leaves, T, m, t, Launch(T, |leaves|, Pow2(m))[t])
    {
      StartIsEven(T, m, t, 0);
      assert InBlock(T, m, t, 0, Start(T, m, t, 0));
      InBlockInRange(T, m, t, 0, Start(T, m, t, 0));
    }
  }

  ghost predicate AllFinished(s: System, m: nat) {
    forall t :: 0 <= t < |s.threads| ==> Finished(s.threads[t], m)
  }

  lemma FinishedIsRight(h: Hasher, s: System, leaves: seq<Hash>, T: nat, m: nat)
    requires Inv(h, s, leaves, T, m) && AllFinished(s, m)
    ensures RightFrom(h, s.nodes, leaves, 2 * T)
  {
    forall x: nat | 2 * T <= x < 2 * |leaves|
      ensures s.nodes[x].hash == To(NodeHash(h, leaves, x))
    {
      var t, level := BlocksCover(T, m, x);
      assert ThreadOk(h, s.nodes, leaves, T, m, t, s.threads[t]);
    }
  }

  /** However the threads are interleaved, when all have finished, every node from 2T on carries the
      hash of the sequential build. */
  lemma ScheduleIndependence(h: Hasher, nodes: seq<Node>, leaves: seq<Hash>, T: nat, m: nat, schedule: seq<nat>)
    requires T > 0 && m > 0 && |leaves| == T * Pow2(m) > 0
    requires LeafData(h, nodes, leaves, 2 * |leaves| - 1)
    requires forall i :: 0 <= i < |schedule| ==> schedule[i] < T
    ensures
      var end := Run(h, System(nodes, Launch(T, |leaves|, Pow2(m))), |leaves|, m, schedule);
      && (AllFinished(end, m) ==> RightFrom(h, end.nodes, leaves, 2 * T))
      && (forall t :: 0 <= t < T && !Finished(end.threads[t], m) ==>
            Readable(end.nodes, |leaves|, end.threads[t].j) && Rehash(h, end.nodes, |leaves|, end.threads[t].j).To?)
  {
    var start := System(nodes, Launch(T, |leaves|, Pow2(m)));
    LaunchIsOk(h, nodes, leaves, T, m);
    RunKeepsInv(h, start, leaves, T, m, schedule);
    var end := Run(h, start, |leaves|, m, schedule);
    if AllFinished(end, m) {
      FinishedIsRight(h, end, leaves, T, m);
    }
    forall t | 0 <= t < T && !Finished(end.threads[t], m)
      ensures Readable(end.nodes, |leaves|, end.threads[t].j) && Rehash(h, end.nodes, |leaves|, end.threads[t].j).To?
    {
      InputsReady(h, end, leaves, T, m, t);
    }
  }

  // ----- Termination -----

  /** The steps that a thread still has to take. */
  function Work(th: Thread, m: nat): int {
    if Finished(th, m) then 0
    else 2 * (th.start + th.nbLeaves - th.j) + 2 * (th.nbLeaves - 2) - (if th.pending.To? then 1 else 0)
  }

  function TotalWork(threads: seq<Thread>, m: nat): int {
    if threads == [] then 0 else TotalWork(threads[..|threads| - 1], m) + Work(threads[|threads| - 1], m)
  }

  lemma {:induction false} TotalWorkUpdate(threads: seq<Thread>, m: nat, t: nat, th: Thread)
    requires t < |threads|
    ensures TotalWork(threads[t := th], m) == TotalWork(threads, m) - Work(threads[t], m) + Work(th, m)
  {
    var n := |threads| - 1;
    if t < n {
      assert threads[t := th][..n] == threads[..n][t := th];
      TotalWorkUpdate(threads[..n], m, t, th);
    } else {
      assert threads[t := th][..n] == threads[..n];
    }
  }

  lemma {:induction false} TotalWorkIsNatural(threads: seq<Thread>, m: nat)
    requires forall t :: 0 <= t < |threads| ==> Work(threads[t], m) >= 0
    ensures TotalWork(threads, m) >= 0
  {
    if threads != [] {
      TotalWorkIsNatural(threads[..|threads| - 1], m);
    }
  }

  /** A thread that has not finished can take a step, and every step is one step less to take. */
  lemma StepWorks(h: Hasher, s: System, leaves: seq<Hash>, T: nat, m: nat, t: nat)
    requires Inv(h, s, leaves, T, m) && t < T && !Finished(s.threads[t], m)
    ensures TotalWork(Step(h, s, |leaves|, m, t).threads, m) < TotalWork(s.threads, m)
    ensures TotalWork(s.threads, m) >= 0
  {
    InputsReady(h, s, leaves, T, m, t);
    var th := s.threads[t];
    assert ThreadOk(h, s.nodes, leaves, T, m, t, th);
    TotalWorkUpdate(s.threads, m, t, Step(h, s, |leaves|, m, t).threads[t]);
    forall u | 0 <= u < T
      ensures Work(s.threads[u], m) >= 0
    {
      assert ThreadOk(h, s.nodes, leaves, T, m, u, s.threads[u]);
    }
    TotalWorkIsNatural(s.threads, m);
  }
}
