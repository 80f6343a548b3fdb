/**
 * Worked examples of the phi resolver on small copy graphs, proved by
 * following the walk step by step.
 */
module PhiExamples {
  import opened Wrappers
  import opened Values
  import opened VmStates
  import opened Blocks
  import opened PhiResolution

  // ----- a chain v0 -> v1 -> v2: the copy into v2 is emitted before v1 is overwritten -----

  function Chain(visited: set<nat>, done: set<nat>, start: set<nat>, moves: seq<Move>): Resolver {
    Resolver([ResolveNode(VReg(0, Int), [1]), ResolveNode(VReg(1, Int), [2]), ResolveNode(VReg(2, Int), [])],
             map[0 := 0, 1 := 1, 2 := 2], [0, 1], [], visited, done, start, None, None, map[], 3, moves)
  }

  lemma ChainValid(visited: set<nat>, done: set<nat>, start: set<nat>, moves: seq<Move>)
    requires visited <= {0, 1, 2} && done <= visited && start <= visited
    ensures Valid(Chain(visited, done, start, moves))
  {
  }

  lemma ChainLeaf()
    ensures MoveNode(Chain({0, 1}, {}, {}, []), Some(1), 2) == Ok(Chain({0, 1, 2}, {2}, {}, [Move(VReg(2, Int), VReg(1, Int))]))
  {
    ChainValid({0, 1}, {}, {}, []);
    ChainValid({0, 1, 2}, {}, {}, []);
    var r := Chain({0, 1}, {}, {}, []);
    assert r.(visitedNodes := r.visitedNodes + {2}) == Chain({0, 1, 2}, {}, {}, []);
    assert MoveDests(Chain({0, 1, 2}, {}, {}, []), 2, []) == Chain({0, 1, 2}, {}, {}, []);
    assert [] + [Move(VReg(2, Int), VReg(1, Int))] == [Move(VReg(2, Int), VReg(1, Int))];
    assert {} + {2} == {2};
    assert Assign(Chain({0, 1, 2}, {}, {}, []), Some(1), 2) == Ok(Chain({0, 1, 2}, {2}, {}, [Move(VReg(2, Int), VReg(1, Int))]));
  }

  lemma ChainLeafDests()
    ensures MoveDests(Chain({0, 1}, {}, {}, []), 1, [2]) == Chain({0, 1, 2}, {2}, {}, [Move(VReg(2, Int), VReg(1, Int))])
  {
    ChainValid({0, 1}, {}, {}, []);
    ChainValid({0, 1, 2}, {2}, {}, [Move(VReg(2, Int), VReg(1, Int))]);
    ChainLeaf();
    var r3 := Chain({0, 1, 2}, {2}, {}, [Move(VReg(2, Int), VReg(1, Int))]);
    assert MoveDests(r3, 1, []) == r3;
    assert [2][1..] == [];
  }

  lemma ChainMiddle()
    ensures MoveNode(Chain({0}, {}, {}, []), Some(0), 1) == Ok(ChainWritten({}))
  {
    ChainValid({0}, {}, {}, []);
    ChainValid({0, 1}, {}, {}, []);
    ChainValid({0, 1, 2}, {2}, {}, [Move(VReg(2, Int), VReg(1, Int))]);
    ChainLeafDests();
    var r := Chain({0}, {}, {}, []);
    assert r.(visitedNodes := r.visitedNodes + {1}) == Chain({0, 1}, {}, {}, []);
    var r3 := Chain({0, 1, 2}, {2}, {}, [Move(VReg(2, Int), VReg(1, Int))]);
    assert [Move(VReg(2, Int), VReg(1, Int))] + [Move(VReg(1, Int), VReg(0, Int))] == ChainWritten({}).moves;
    assert {2} + {1} == {1, 2};
    assert Assign(r3, Some(0), 1) == Ok(ChainWritten({}));
  }

  /** The chain after both copies, with start nodes `start`. */
  function ChainWritten(start: set<nat>): Resolver {
    Chain({0, 1, 2}, {1, 2}, start, [Move(VReg(2, Int), VReg(1, Int)), Move(VReg(1, Int), VReg(0, Int))])
  }

  /** Walking from v0 writes v2 from v1 first, then v1 from v0, and nothing else. */
  lemma ChainRootDests()
    ensures MoveDests(Chain({0}, {}, {}, []), 0, [1]) == ChainWritten({})
  {
    ChainValid({0}, {}, {}, []);
    ChainValid({0, 1, 2}, {1, 2}, {}, ChainWritten({}).moves);
    ChainMiddle();
    assert MoveDests(ChainWritten({}), 0, []) == ChainWritten({});
    assert [1][1..] == [];
  }

  lemma ChainRoot()
    ensures MoveNode(Chain({}, {}, {}, []), None, 0) == Ok(ChainWritten({}))
  {
    ChainValid({}, {}, {}, []);
    ChainValid({0}, {}, {}, []);
    ChainValid({0, 1, 2}, {1, 2}, {}, ChainWritten({}).moves);
    ChainRootDests();
    var r := Chain({}, {}, {}, []);
    assert r.(visitedNodes := r.visitedNodes + {0}) == Chain({0}, {}, {}, []);
  }

  lemma ChainRoots()
    ensures WalkRoots(Chain({}, {}, {}, []), 0) == Ok(ChainWritten({0}))
  {
    ChainValid({}, {}, {}, []);
    ChainValid({0, 1, 2}, {1, 2}, {0}, ChainWritten({}).moves);
    ChainRoot();
    assert {} + {0} == {0};
    assert WalkRoots(ChainWritten({0}), 2) == Ok(ChainWritten({0}));
    assert WalkRoots(ChainWritten({0}), 1) == Ok(ChainWritten({0}));
  }

  /** Walking from v0 writes v2 from v1 first, then v1 from v0, and nothing else. */
  lemma ChainIsWrittenDeepestFirst()
    ensures GenMove(Chain({}, {}, {}, [])) == Ok(ChainWritten({0}))
  {
    ChainValid({}, {}, {}, []);
    ChainRoots();
    GenMoveAfterWalk(Chain({}, {}, {}, []), ChainWritten({0}));
    assert OtherMoves(ChainWritten({0}).nodes, []) == [];
    assert ChainWritten({0}).moves + [] == ChainWritten({0}).moves;
  }

  // ----- two phis swapped on a back edge: the walk meets its own root and fails -----

  function PhiA(): Value { Value(10, Int, Some(1)) }
  function PhiB(): Value { Value(11, Int, Some(1)) }
  function SwapOperands(): map<nat, Operand> { map[10 := VReg(0, Int), 11 := VReg(1, Int)] }

  /** A loop header (block 1) with two predecessors whose state holds the two phis. */
  function Header(): BlockStart {
    BlockStart(1, true, Some(VmState([PhiA(), PhiB()], [])), [0, 2], None, None)
  }

  /** The back edge's state: the two phis in swapped slots. */
  function BackEdge(): VmState { VmState([PhiB(), PhiA()], []) }

  function Swapped(d0: seq<nat>, d1: seq<nat>, vo: seq<nat>, visited: set<nat>, done: set<nat>,
                   loop: Option<nat>, temp: Option<Operand>, nextVreg: nat, moves: seq<Move>): Resolver {
    Resolver([ResolveNode(VReg(1, Int), d0), ResolveNode(VReg(0, Int), d1)], map[1 := 0, 0 := 1], vo, [],
             visited, done, {}, loop, temp, SwapOperands(), nextVreg, moves)
  }

  function SwapGraph(visited: set<nat>): Resolver {
    Swapped([1], [0], [0, 1], visited, {}, None, None, 2, [])
  }

  lemma SwappedValid(d0: seq<nat>, d1: seq<nat>, vo: seq<nat>, visited: set<nat>, done: set<nat>,
                      loop: Option<nat>, temp: Option<Operand>, nextVreg: nat, moves: seq<Move>)
    requires forall j :: 0 <= j < |d0| ==> d0[j] < 2
    requires forall j :: 0 <= j < |d1| ==> d1[j] < 2
    requires vo == [] || vo == [0] || vo == [0, 1]
    requires visited <= {0, 1} && done <= visited && (loop.Some? ==> loop.value < 2) && 2 <= nextVreg
    ensures Valid(Swapped(d0, d1, vo, visited, done, loop, temp, nextVreg, moves))
  {
  }

  function OneNode(): Resolver {
    Resolver([ResolveNode(VReg(1, Int), [])], map[1 := 0], [0], [], {}, {}, {}, None, None, SwapOperands(), 2, [])
  }

  lemma SwapFirstSource()
    ensures CreateResolveNode(NewResolver(SwapOperands(), 2), VReg(1, Int), true) == (OneNode(), 0)
  {
    assert map[][1 := 0] == map[1 := 0];
    assert [] + [ResolveNode(VReg(1, Int), [])] == [ResolveNode(VReg(1, Int), [])];
    assert [] + [0] == [0];
  }

  lemma SwapFirstDest()
    ensures Valid(OneNode())
    ensures CreateResolveNode(OneNode(), VReg(0, Int), false) == (Swapped([], [], [0], {}, {}, None, None, 2, []), 1)
  {
    assert map[1 := 0][0 := 1] == map[1 := 0, 0 := 1];
    assert [ResolveNode(VReg(1, Int), [])] + [ResolveNode(VReg(0, Int), [])] == Swapped([], [], [0], {}, {}, None, None, 2, []).nodes;
  }

  lemma SwapFirstLink()
    ensures AddEdge(Swapped([], [], [0], {}, {}, None, None, 2, []), 0, 1, VReg(1, Int), VReg(0, Int))
      == Swapped([1], [], [0], {}, {}, None, None, 2, [])
  {
    SwappedValid([], [], [0], {}, {}, None, None, 2, []);
    var r := Swapped([], [], [0], {}, {}, None, None, 2, []);
    assert [] + [1] == [1];
    assert r.nodes[0 := r.nodes[0].(dests := [1])] == Swapped([1], [], [0], {}, {}, None, None, 2, []).nodes;
  }

  lemma SwapFirstConnect()
    ensures Connect(NewResolver(SwapOperands(), 2), VReg(1, Int), VReg(0, Int)) == Swapped([1], [], [0], {}, {}, None, None, 2, [])
  {
    SwapFirstSource();
    SwapFirstDest();
    SwapFirstLink();
  }

  /** The first slot: phi a is fed by phi b, an edge from v1 to v0. */
  lemma SwapFirstEdge()
    ensures MoveToPhi(NewResolver(SwapOperands(), 2), Some(PhiB()), Some(PhiA())) == Ok(Swapped([1], [], [0], {}, {}, None, None, 2, []))
  {
    var r := NewResolver(SwapOperands(), 2);
    assert PhiOperand(r, PhiA()) == (r, VReg(0, Int));
    MoveToPhiConnects(r, PhiB(), PhiA(), r, VReg(1, Int), VReg(0, Int));
    SwapFirstConnect();
  }

  lemma SwapSecondSource()
    ensures CreateResolveNode(Swapped([1], [], [0], {}, {}, None, None, 2, []), VReg(0, Int), true)
      == (Swapped([1], [], [0, 1], {}, {}, None, None, 2, []), 1)
  {
    SwappedValid([1], [], [0], {}, {}, None, None, 2, []);
    assert map[1 := 0, 0 := 1][0 := 1] == map[1 := 0, 0 := 1];
    assert [0] + [1] == [0, 1];
  }

  lemma SwapSecondDest()
    ensures CreateResolveNode(Swapped([1], [], [0, 1], {}, {}, None, None, 2, []), VReg(1, Int), false)
      == (Swapped([1], [], [0, 1], {}, {}, None, None, 2, []), 0)
  {
    SwappedValid([1], [], [0, 1], {}, {}, None, None, 2, []);
    assert map[1 := 0, 0 := 1][1 := 0] == map[1 := 0, 0 := 1];
  }

  lemma SwapSecondLink()
    ensures AddEdge(Swapped([1], [], [0, 1], {}, {}, None, None, 2, []), 1, 0, VReg(0, Int), VReg(1, Int)) == SwapGraph({})
  {
    SwappedValid([1], [], [0, 1], {}, {}, None, None, 2, []);
    var r := Swapped([1], [], [0, 1], {}, {}, None, None, 2, []);
    assert [] + [0] == [0];
    assert r.nodes[1 := r.nodes[1].(dests := [0])] == SwapGraph({}).nodes;
  }

  lemma SwapSecondConnect()
    ensures Connect(Swapped([1], [], [0], {}, {}, None, None, 2, []), VReg(0, Int), VReg(1, Int)) == SwapGraph({})
  {
    SwappedValid([1], [], [0], {}, {}, None, None, 2, []);
    SwapSecondSource();
    SwapSecondDest();
    SwapSecondLink();
  }

  /** The second slot: phi b is fed by phi a, closing the cycle v0 -> v1 -> v0. */
  lemma SwapSecondEdge()
    ensures MoveToPhi(Swapped([1], [], [0], {}, {}, None, None, 2, []), Some(PhiA()), Some(PhiB())) == Ok(SwapGraph({}))
  {
    var r := Swapped([1], [], [0], {}, {}, None, None, 2, []);
    SwappedValid([1], [], [0], {}, {}, None, None, 2, []);
    assert PhiOperand(r, PhiB()) == (r, VReg(1, Int));
    MoveToPhiConnects(r, PhiA(), PhiB(), r, VReg(0, Int), VReg(1, Int));
    SwapSecondConnect();
  }

  /** Where a move is needed, `moveToPhi` connects the value's operand to the phi's. */
  lemma MoveToPhiConnects(r: Resolver, cur: Value, sux: Value, r1: Resolver, src: Operand, dst: Operand)
    requires Valid(r) && NeedsMove(Some(cur), Some(sux)) && cur.id in r.operandOf && r.operandOf[cur.id] == src
    requires PhiOperand(r, sux) == (r1, dst)
    ensures MoveToPhi(r, Some(cur), Some(sux)) == Ok(Connect(r1, src, dst))
  {
  }

  lemma SwapScanTail()
    ensures ScanStack(Swapped([1], [], [0], {}, {}, None, None, 2, []), BackEdge().stack, Header().state.value.stack, 1) == Ok(SwapGraph({}))
  {
    SwappedValid([1], [], [0], {}, {}, None, None, 2, []);
    SwappedValid([1], [0], [0, 1], {}, {}, None, None, 2, []);
    SwapSecondEdge();
    assert ScanStack(SwapGraph({}), BackEdge().stack, Header().state.value.stack, 2) == Ok(SwapGraph({}));
  }

  lemma SwapScanStack()
    ensures ScanStack(NewResolver(SwapOperands(), 2), BackEdge().stack, Header().state.value.stack, 0) == Ok(SwapGraph({}))
  {
    SwapFirstEdge();
    SwapScanTail();
  }

  lemma SwapScan()
    ensures ScanSlots(NewResolver(SwapOperands(), 2), Header().state.value, BackEdge()) == Ok(SwapGraph({}))
  {
    SwapScanStack();
    SwapNoLocals();
    assert Valid(NewResolver(SwapOperands(), 2));
  }

  lemma SwapNoLocals()
    ensures ScanLocals(SwapGraph({}), [], [], 0) == Ok(SwapGraph({}))
  {
    SwappedValid([1], [0], [0, 1], {}, {}, None, None, 2, []);
  }

  function SwapClosed(): Resolver {
    Swapped([1], [0], [0, 1], {0, 1}, {}, Some(0), Some(VReg(2, Int)), 3, [Move(VReg(2, Int), VReg(0, Int))])
  }

  /** Closing the cycle: v1's node, the root, is still on the path, so v0's value is saved in a temporary. */
  lemma SwapCloses()
    ensures MoveNode(SwapGraph({0, 1}), Some(1), 0) == Ok(SwapClosed())
  {
    SwappedValid([1], [0], [0, 1], {0, 1}, {}, None, None, 2, []);
  }

  lemma SwapClosesDests()
    ensures MoveDests(SwapGraph({0, 1}), 1, [0]) == SwapClosed()
  {
    SwappedValid([1], [0], [0, 1], {0, 1}, {}, None, None, 2, []);
    SwappedValid([1], [0], [0, 1], {0, 1}, {}, Some(0), Some(VReg(2, Int)), 3, SwapClosed().moves);
    SwapCloses();
    assert MoveDests(SwapClosed(), 1, []) == SwapClosed();
    assert [0][1..] == [];
  }

  function SwapMiddle(): Resolver {
    Swapped([1], [0], [0, 1], {0, 1}, {1}, Some(0), Some(VReg(2, Int)), 3,
            [Move(VReg(2, Int), VReg(0, Int)), Move(VReg(0, Int), VReg(1, Int))])
  }

  lemma SwapOverwritesStep()
    ensures Assign(SwapClosed(), Some(0), 1) == Ok(SwapMiddle())
  {
    SwappedValid([1], [0], [0, 1], {0, 1}, {}, Some(0), Some(VReg(2, Int)), 3, SwapClosed().moves);
    assert SwapClosed().moves + [Move(VReg(0, Int), VReg(1, Int))] == SwapMiddle().moves;
    assert {} + {1} == {1};
  }

  /** The root's successor is then overwritten from the root: v0 := v1. */
  lemma SwapOverwrites()
    ensures MoveNode(SwapGraph({0}), Some(0), 1) == Ok(SwapMiddle())
  {
    var r := SwapGraph({0});
    SwappedValid([1], [0], [0, 1], {0}, {}, None, None, 2, []);
    assert r.(visitedNodes := r.visitedNodes + {1}) == SwapGraph({0, 1});
    SwapClosesDests();
    SwapOverwritesStep();
  }

  lemma SwapRootDests()
    ensures MoveDests(SwapGraph({0}), 0, [1]) == SwapMiddle()
  {
    SwappedValid([1], [0], [0, 1], {0}, {}, None, None, 2, []);
    SwappedValid([1], [0], [0, 1], {0, 1}, {1}, Some(0), Some(VReg(2, Int)), 3, SwapMiddle().moves);
    SwapOverwrites();
    assert MoveDests(SwapMiddle(), 0, []) == SwapMiddle();
    assert [1][1..] == [];
  }

  /** Back at the root, whose source is null, the recorded loop is the root itself: `src.operand()` throws. */
  lemma SwapFails()
    ensures GenMove(SwapGraph({})) == Err(NullPointer)
  {
    var r := SwapGraph({});
    SwappedValid([1], [0], [0, 1], {}, {}, None, None, 2, []);
    SwappedValid([1], [0], [0, 1], {0, 1}, {1}, Some(0), Some(VReg(2, Int)), 3, SwapMiddle().moves);
    assert r.(visitedNodes := r.visitedNodes + {0}) == SwapGraph({0});
    SwapRootDests();
    assert Assign(SwapMiddle(), None, 0) == Err(NullPointer);
    assert MoveNode(r, None, 0) == Err(NullPointer);
    assert WalkRoots(r, 0) == Err(NullPointer);
  }

  /** Resolving the back edge of a loop that swaps two phis ends in a NullPointerException. */
  lemma SwappedPhisFail()
    ensures ResolvePhi(NewResolver(SwapOperands(), 2), [Header()], BackEdge()) == Err(NullPointer)
  {
    SwapScan();
    SwapFails();
  }

  // ----- a constant into a phi: line 154 writes the constant's operand -----

  /** A join (block 3) whose one stack slot is a phi, fed by a constant with a non-register operand. */
  function Join(): BlockStart {
    BlockStart(3, false, Some(VmState([Value(20, Int, Some(3))], [])), [1, 2], None, None)
  }

  function ConstFeed(): VmState { VmState([Value(5, Int, None)], []) }

  function ConstOperands(): map<nat, Operand> { map[5 := Other(7, Int), 20 := VReg(0, Int)] }

  function ConstGraph(moves: seq<Move>): Resolver {
    Resolver([ResolveNode(Other(7, Int), [1]), ResolveNode(VReg(0, Int), [])], map[0 := 1], [], [0],
             {}, {}, {}, None, None, ConstOperands(), 1, moves)
  }

  function ConstSource(): Resolver {
    Resolver([ResolveNode(Other(7, Int), [])], map[], [], [0], {}, {}, {}, None, None, ConstOperands(), 1, [])
  }

  function ConstUnlinked(): Resolver {
    Resolver([ResolveNode(Other(7, Int), []), ResolveNode(VReg(0, Int), [])], map[0 := 1], [], [0],
             {}, {}, {}, None, None, ConstOperands(), 1, [])
  }

  lemma ConstCreateSource()
    ensures Valid(NewResolver(ConstOperands(), 1))
    ensures CreateResolveNode(NewResolver(ConstOperands(), 1), Other(7, Int), true) == (ConstSource(), 0)
  {
    assert [] + [ResolveNode(Other(7, Int), [])] == [ResolveNode(Other(7, Int), [])];
    assert [] + [0] == [0];
  }

  lemma ConstCreateDest()
    ensures Valid(ConstSource())
    ensures CreateResolveNode(ConstSource(), VReg(0, Int), false) == (ConstUnlinked(), 1)
  {
    assert map[][0 := 1] == map[0 := 1];
    assert ConstSource().nodes + [ResolveNode(VReg(0, Int), [])] == ConstUnlinked().nodes;
  }

  lemma ConstLink()
    ensures Valid(ConstUnlinked())
    ensures AddEdge(ConstUnlinked(), 0, 1, Other(7, Int), VReg(0, Int)) == ConstGraph([])
  {
    var r := ConstUnlinked();
    assert [] + [1] == [1];
    assert r.nodes[0 := r.nodes[0].(dests := [1])] == ConstGraph([]).nodes;
  }

  lemma ConstConnect()
    ensures Connect(NewResolver(ConstOperands(), 1), Other(7, Int), VReg(0, Int)) == ConstGraph([])
  {
    ConstCreateSource();
    ConstCreateDest();
    ConstLink();
  }

  lemma ConstFeeds()
    ensures NeedsMove(Some(Value(5, Int, None)), Some(Value(20, Int, Some(3))))
    ensures 5 in ConstOperands() && ConstOperands()[5] == Other(7, Int)
  {
  }

  lemma ConstPhiOperand()
    ensures PhiOperand(NewResolver(ConstOperands(), 1), Value(20, Int, Some(3))) == (NewResolver(ConstOperands(), 1), VReg(0, Int))
  {
    ConstCreateSource();
  }

  lemma ConstEdge()
    ensures MoveToPhi(NewResolver(ConstOperands(), 1), Some(Value(5, Int, None)), Some(Value(20, Int, Some(3)))) == Ok(ConstGraph([]))
  {
    ConstFeeds();
    ConstPhiOperand();
    ConstConnect();
  }

  lemma ConstGraphValid(moves: seq<Move>)
    ensures Valid(ConstGraph(moves))
  {
  }

  lemma ConstScanStack()
    ensures ScanStack(NewResolver(ConstOperands(), 1), ConstFeed().stack, Join().state.value.stack, 0) == Ok(ConstGraph([]))
  {
    ConstCreateSource();
    ConstEdge();
    ConstGraphValid([]);
    assert ScanStack(ConstGraph([]), ConstFeed().stack, Join().state.value.stack, 1) == Ok(ConstGraph([]));
  }

  lemma ConstScan()
    ensures ScanSlots(NewResolver(ConstOperands(), 1), Join().state.value, ConstFeed()) == Ok(ConstGraph([]))
  {
    ConstCreateSource();
    ConstScanStack();
    ConstGraphValid([]);
    assert ScanLocals(ConstGraph([]), [], [], 0) == Ok(ConstGraph([]));
  }

  lemma ConstOtherMoves()
    ensures OtherMoves(ConstGraph([]).nodes, [0]) == [Move(Other(7, Int), VReg(0, Int))]
  {
    var g := ConstGraph([]).nodes;
    assert EdgeMoves(g, 0, [1]) == [Move(Other(7, Int), VReg(0, Int))];
    assert OtherMoves(g, []) == [];
    assert [0][1..] == [];
  }

  lemma ConstGenMove()
    ensures GenMove(ConstGraph([])) == Ok(ConstGraph([Move(Other(7, Int), VReg(0, Int))]))
  {
    ConstGraphValid([]);
    ConstWalk();
    GenMoveAfterWalk(ConstGraph([]), ConstGraph([]));
    ConstOtherMoves();
  }

  /** `genMove` is the walk followed by the moves out of the non-register sources. */
  lemma GenMoveAfterWalk(r: Resolver, walked: Resolver)
    requires Valid(r) && WalkRoots(r, 0) == Ok(walked)
    ensures GenMove(r) == Ok(walked.(moves := walked.moves + OtherMoves(walked.nodes, walked.otherOperand)))
  {
  }

  lemma ConstWalk()
    ensures WalkRoots(ConstGraph([]), 0) == Ok(ConstGraph([]))
  {
    ConstGraphValid([]);
  }

  /**
   * The only move emitted for a constant flowing into a phi has the
   * constant's operand as its destination and the phi's register as its
   * source: the copy runs backwards.
   */
  lemma ConstantIntoPhiIsReversed()
    ensures ResolvePhi(NewResolver(ConstOperands(), 1), [Join()], ConstFeed()) == Ok(ConstGraph([Move(Other(7, Int), VReg(0, Int))]))
  {
    ConstCreateSource();
    ConstJoin();
    ConstScan();
    ConstGenMove();
    ResolveAtJoin(NewResolver(ConstOperands(), 1), Join(), ConstFeed(), ConstGraph([]), ConstGraph([Move(Other(7, Int), VReg(0, Int))]));
  }

  /** On an edge into a join, `resolvePhi` is the scan of both loops followed by `genMove`. */
  lemma ResolveAtJoin(r: Resolver, succ: BlockStart, cur: VmState, scanned: Resolver, moved: Resolver)
    requires Valid(r) && Joins([succ]) && succ.state.Some?
    requires ScanSlots(r, succ.state.value, cur) == Ok(scanned) && GenMove(scanned) == Ok(moved)
    ensures ResolvePhi(r, [succ], cur) == Ok(moved)
  {
  }

  lemma ConstJoin()
    ensures Joins([Join()]) && [Join()][0].state == Some(VmState([Value(20, Int, Some(3))], []))
  {
  }
}
