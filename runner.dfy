/** `BehaviorTreeRunner`: a root, a blackboard and a started/stopped flag.
    `Time.time` of the running game is the `now` passed to `Tick`. */
module Runtime {
  import opened Stores
  import opened Nodes
  import opened Blackboards
  import Engine
  import ResetProperties

  class BehaviorTreeRunner {
    const root: Node
    const board: Blackboard
    var isRunning: bool

    /** A new runner is stopped. */
    constructor (root: Node, board: Blackboard)
      ensures this.root == root && this.board == board && !isRunning
    {
      this.root := root;
      this.board := board;
      isRunning := false;
    }

    /** `new BehaviorTreeRunner(root, blackboard)`, with the constructor's
        `ArgumentNullException` for a null root or blackboard as `null`. */
    static method Create(root: Option<Node>, board: Blackboard?) returns (r: BehaviorTreeRunner?)
      ensures r == null <==> root.None? || board == null
      ensures r != null ==> fresh(r) && r.root == root.value && r.board == board && !r.isRunning
    {
      if root.None? || board == null {
        return null;
      }
      r := new BehaviorTreeRunner(root.value, board);
    }

    method Start()
      modifies this
      ensures isRunning
    {
      isRunning := true;
    }

    /** Clears the flag and resets the whole tree. */
    method Stop()
      modifies this, board
      ensures !isRunning
      ensures board.data == Reset(root, old(board.data))
    {
      isRunning := false;
      Engine.ResetNode(root, board);
    }

    /** Not started: Failure, with the tree not ticked and the blackboard
        untouched. Started: one tick of the root, exceptions included
        (the runner catches nothing). */
    method Tick(now: real) returns (r: Outcome<NodeState>)
      modifies board
      ensures !isRunning ==> r == Returned(Failure, old(board.data)) && board.data == old(board.data)
      ensures isRunning ==> r == Nodes.Tick(root, old(board.data), now) && board.data == r.store
    {
      if !isRunning {
        return Returned(Failure, board.data);
      }
      r := Engine.TickNode(root, board, now);
    }

    function IsRunning(): bool
      reads this
    {
      isRunning
    }
  }

  /** Stopping twice leaves the blackboard as stopping once does: the
      second reset finds nothing of the tree's own state to clear. */
  method StopTwice(runner: BehaviorTreeRunner)
    modifies runner, runner.board
    ensures !runner.isRunning
    ensures runner.board.data == Reset(runner.root, old(runner.board.data))
  {
    runner.Stop();
    runner.Stop();
    ResetProperties.ResetIdempotent(runner.root, old(runner.board.data));
  }
}
