/**
 * `dont_get_volunteered`: the fewest knight moves between two squares of a
 * chessboard whose squares are numbered 0..63 row by row, found by a
 * breadth-first search over a queue of (square, distance) nodes.
 */
module DontGetVolunteered {

  datatype Option<T> = None | Some(value: T)

  /** The number of square (x, y): row x, column y, eight squares per row. */
  function IndexOf(x: int, y: int): int
  {
    8 * x + y
  }

  lemma IndexOfCoords(x: int, y: int)
    requires 0 <= y < 8
    ensures IndexOf(x, y) / 8 == x && IndexOf(x, y) % 8 == y
  {
  }

  /** The rows of `_chessboard`: row x lists the squares 8x .. 8x + 7. */
  function BoardRows(): seq<seq<int>>
  {
    seq(8, x => seq(8, y => IndexOf(x, y)))
  }

  /** `_chessboard_map`, from square number to (row, column). */
  function BoardMap(): map<int, (int, int)>
  {
    map k | 0 <= k < 64 :: (k / 8, k % 8)
  }

  /** The eight knight jumps, in the order the moves are listed. */
  const KnightOffsets: seq<(int, int)> :=
    [(-2, -1), (-2, 1), (-1, -2), (-1, 2), (1, -2), (1, 2), (2, -1), (2, 1)]

  predicate OnBoard(x: int, y: int)
  {
    0 <= x <= 7 && 0 <= y <= 7
  }

  /** The squares reached from (x, y) by the first k offsets that stay on the board, in order. */
  function MovesFrom(x: int, y: int, k: nat): seq<int>
    requires k <= |KnightOffsets|
  {
    if k == 0 then []
    else
      var moves := MovesFrom(x, y, k - 1);
      var (dx, dy) := KnightOffsets[k - 1];
      if OnBoard(x + dx, y + dy) then moves + [IndexOf(x + dx, y + dy)] else moves
  }

  /** The squares a knight on square `index` can jump to, in the listed order. */
  function KnightMoves(index: int): seq<int>
    requires 0 <= index < 64
  {
    MovesFrom(index / 8, index % 8, |KnightOffsets|)
  }

  /**
   * A knight's jump from square a to square b, stated without the offset
   * list: the rows and columns differ by 1 and 2 or by 2 and 1.
   */
  predicate KnightJump(a: int, b: int)
  {
    var dx, dy := b / 8 - a / 8, b % 8 - a % 8;
    dx * dx + dy * dy == 5
  }

  /** The offsets are exactly the (dx, dy) with dx * dx + dy * dy == 5. */
  lemma OffsetsAreJumps(dx: int, dy: int)
    ensures (dx, dy) in KnightOffsets <==> dx * dx + dy * dy == 5
  {
    SquareBound(dx);
    SquareBound(dy);
  }

  /** For an integer d, d * d >= 3|d| - 2, since (|d| - 1) * (|d| - 2) >= 0. */
  lemma SquareBound(d: int)
    ensures d * d >= 0 && d * d >= 3 * (if d < 0 then -d else d) - 2
  {
    var t := if d < 0 then -d else d;
    assert d * d == t * t;
    if t >= 2 {
      assert (t - 1) * (t - 2) >= 0;
      assert t * t == (t - 1) * (t - 2) + 3 * t - 2;
    }
  }

  /** A jump by one of the offsets that stays on the board is a knight's jump to a square of the board. */
  lemma JumpTo(x: int, y: int, dx: int, dy: int)
    requires OnBoard(x, y) && OnBoard(x + dx, y + dy) && (dx, dy) in KnightOffsets
    ensures 0 <= IndexOf(x + dx, y + dy) < 64 && KnightJump(IndexOf(x, y), IndexOf(x + dx, y + dy))
  {
    IndexOfCoords(x, y);
    IndexOfCoords(x + dx, y + dy);
    OffsetsAreJumps(dx, dy);
  }

  /** The moves from (x, y) land on the board and are knight jumps, at most one per offset. */
  lemma {:induction false} MovesFromSound(x: int, y: int, k: nat)
    requires OnBoard(x, y) && k <= |KnightOffsets|
    ensures |MovesFrom(x, y, k)| <= k
    ensures forall m :: m in MovesFrom(x, y, k) ==> 0 <= m < 64 && KnightJump(IndexOf(x, y), m)
  {
    if k > 0 {
      MovesFromSound(x, y, k - 1);
      var (dx, dy) := KnightOffsets[k - 1];
      if OnBoard(x + dx, y + dy) {
        JumpTo(x, y, dx, dy);
      }
    }
  }

  /** Every on-board jump by one of the first k offsets is among the moves. */
  lemma {:induction false} MovesFromComplete(x: int, y: int, k: nat, j: nat)
    requires j < k <= |KnightOffsets|
    requires OnBoard(x + KnightOffsets[j].0, y + KnightOffsets[j].1)
    ensures IndexOf(x + KnightOffsets[j].0, y + KnightOffsets[j].1) in MovesFrom(x, y, k)
  {
    if j < k - 1 {
      MovesFromComplete(x, y, k - 1, j);
    }
  }

  /** `get_valid_moves` lists at most eight squares, each on the board and a knight's jump away. */
  lemma MovesSound(a: int)
    requires 0 <= a < 64
    ensures |KnightMoves(a)| <= 8
    ensures forall b :: b in KnightMoves(a) ==> 0 <= b < 64 && KnightJump(a, b)
  {
    MovesFromSound(a / 8, a % 8, |KnightOffsets|);
  }

  /** The moves of a square are at most eight squares of the board. */
  lemma MovesOnBoard(a: int)
    requires 0 <= a < 64
    ensures |KnightMoves(a)| <= 8
    ensures forall b :: b in KnightMoves(a) ==> 0 <= b < 64
  {
    MovesSound(a);
  }

  /** Every square a knight's jump away is listed. */
  lemma MovesComplete(a: int, b: int)
    requires 0 <= a < 64 && 0 <= b < 64 && KnightJump(a, b)
    ensures b in KnightMoves(a)
  {
    var x, y := a / 8, a % 8;
    var dx, dy := b / 8 - x, b % 8 - y;
    OffsetsAreJumps(dx, dy);
    var j :| 0 <= j < |KnightOffsets| && KnightOffsets[j] == (dx, dy);
    assert x + dx == b / 8 && y + dy == b % 8;
    assert IndexOf(x + dx, y + dy) == b;
    MovesFromComplete(x, y, |KnightOffsets|, j);
  }

  /** The moves are exactly the on-board knight's jumps. */
  lemma MovesMeaning(a: int, b: int)
    requires 0 <= a < 64
    ensures b in KnightMoves(a) <==> 0 <= b < 64 && KnightJump(a, b)
  {
    MovesSound(a);
    if 0 <= b < 64 && KnightJump(a, b) {
      MovesComplete(a, b);
    }
  }

  /** A knight can jump back: b is a move from a exactly when a is a move from b. */
  lemma MovesSymmetric(a: int, b: int)
    requires 0 <= a < 64 && 0 <= b < 64
    ensures b in KnightMoves(a) <==> a in KnightMoves(b)
  {
    MovesMeaning(a, b);
    MovesMeaning(b, a);
    var dx, dy := b / 8 - a / 8, b % 8 - a % 8;
    assert (-dx) * (-dx) == dx * dx && (-dy) * (-dy) == dy * dy;
  }

  /** Every square has a move: two rows away, on a neighbouring column. */
  lemma MovesNonEmpty(a: int)
    requires 0 <= a < 64
    ensures |KnightMoves(a)| > 0
  {
    var x, y := a / 8, a % 8;
    var j := if x >= 2 then (if y >= 1 then 0 else 1) else (if y >= 1 then 6 else 7);
    MovesFromComplete(x, y, |KnightOffsets|, j);
  }

  /** How far the j-th offset moves the square number; past the last offset, beyond every jump. */
  function OffsetStep(j: nat): int
  {
    if j < |KnightOffsets| then 8 * KnightOffsets[j].0 + KnightOffsets[j].1 else 18
  }

  /** The listed moves go up strictly, in the order of the offsets. */
  lemma {:induction false} MovesFromIncreasing(x: int, y: int, k: nat)
    requires k <= |KnightOffsets|
    ensures forall a, b :: 0 <= a < b < |MovesFrom(x, y, k)| ==> MovesFrom(x, y, k)[a] < MovesFrom(x, y, k)[b]
    ensures forall a :: 0 <= a < |MovesFrom(x, y, k)| ==> MovesFrom(x, y, k)[a] < IndexOf(x, y) + OffsetStep(k)
  {
    if k > 0 {
      MovesFromIncreasing(x, y, k - 1);
      assert OffsetStep(k - 1) < OffsetStep(k);
    }
  }

  lemma MovesIncreasing(a: int)
    requires 0 <= a < 64
    ensures forall i, j :: 0 <= i < j < |KnightMoves(a)| ==> KnightMoves(a)[i] < KnightMoves(a)[j]
  {
    MovesFromIncreasing(a / 8, a % 8, |KnightOffsets|);
  }

  /** `Chessboard`: the square numbers laid out in rows, and the map back to coordinates. */
  class Chessboard {
    var board: seq<seq<int>>
    var boardMap: map<int, (int, int)>

    ghost predicate Valid()
      reads this
    {
      board == BoardRows() && boardMap == BoardMap()
    }

    constructor()
      ensures Valid()
    {
      board := [];
      boardMap := map[];
      new;
      InitBoard();
    }

    /** `_init_board`: number the squares row by row with a running counter. */
    method InitBoard()
      requires board == [] && boardMap == map[]
      modifies this
      ensures Valid()
    {
      var index := 0;
      for row := 0 to 8
        invariant index == 8 * row
        invariant board == BoardRows()[..row]
        invariant boardMap == map k | 0 <= k < index :: (k / 8, k % 8)
      {
        var r := [];
        for col := 0 to 8
          invariant index == 8 * row + col
          invariant r == BoardRows()[row][..col]
          invariant board == BoardRows()[..row]
          invariant boardMap == map k | 0 <= k < index :: (k / 8, k % 8)
        {
          IndexOfCoords(row, col);
          r := r + [index];
          boardMap := boardMap[index := (row, col)];
          index := index + 1;
        }
        assert r == BoardRows()[row];
        assert BoardRows()[..row + 1] == BoardRows()[..row] + [BoardRows()[row]];
        board := board + [r];
      }
    }

    /** `get_coords`: the (row, column) of a square; a number off the board raises KeyError. */
    function GetCoords(index: int): (c: (int, int))
      reads this
      requires Valid() && 0 <= index < 64
      ensures c == (index / 8, index % 8)
      ensures 0 <= c.0 < 8 && 0 <= c.1 < 8
    {
      boardMap[index]
    }

    /** `get_index`: the number of square (x, y). */
    function GetIndex(x: int, y: int): (index: int)
      reads this
      requires Valid() && 0 <= x < 8 && 0 <= y < 8
      ensures index == 8 * x + y
      ensures 0 <= index < 64
    {
      board[x][y]
    }

    /**
     * `get_valid_moves`: try the eight offsets in order and keep the squares
     * that stay on the board.
     */
    method GetValidMoves(index: int) returns (validMoves: seq<int>)
      requires Valid() && 0 <= index < 64
      ensures validMoves == KnightMoves(index)
    {
      validMoves := [];
      var knightMoves := KnightOffsets;
      var (thisX, thisY) := GetCoords(index);
      for k := 0 to |knightMoves|
        invariant validMoves == MovesFrom(thisX, thisY, k)
      {
        var move := knightMoves[k];
        var moveX := thisX + move.0;
        var moveY := thisY + move.1;
        if moveX < 0 || moveX > 7 || moveY < 0 || moveY > 7 {
          continue;
        }
        validMoves := validMoves + [GetIndex(moveX, moveY)];
      }
    }
  }

  /** `get_index` undoes `get_coords`. */
  lemma CoordsRoundTrip(board: Chessboard, k: int)
    requires board.Valid() && 0 <= k < 64
    ensures board.GetIndex(board.GetCoords(k).0, board.GetCoords(k).1) == k
  {
  }

  /** `get_coords` undoes `get_index`. */
  lemma IndexRoundTrip(board: Chessboard, x: int, y: int)
    requires board.Valid() && 0 <= x < 8 && 0 <= y < 8
    ensures board.GetCoords(board.GetIndex(x, y)) == (x, y)
  {
    IndexOfCoords(x, y);
  }

  /** `Node`: a square and the number of moves taken to reach it. */
  datatype Node = Node(index: int, distance: nat)
  {
    /** `Node.__eq__`: two nodes are equal when their squares are, whatever their distances. */
    predicate Equals(other: Node)
    {
      index == other.index
    }
  }

  /** Python's `node in queue`, which compares with `Node.__eq__`. */
  predicate Contains(queue: seq<Node>, node: Node)
  {
    exists a :: 0 <= a < |queue| && queue[a].Equals(node)
  }

  /** No two nodes of the queue are on the same square. */
  predicate Distinct(queue: seq<Node>)
  {
    forall a, b :: 0 <= a < b < |queue| ==> queue[a].index != queue[b].index
  }

  predicate OnBoardNodes(queue: seq<Node>)
  {
    forall a :: 0 <= a < |queue| ==> 0 <= queue[a].index < 64
  }

  /** Distances never drop from front to back and stay within one of the front's. */
  predicate Layered(queue: seq<Node>)
  {
    forall a, b :: 0 <= a <= b < |queue| ==> queue[a].distance <= queue[b].distance <= queue[0].distance + 1
  }

  /**
   * The queue after `for move in valid_moves`: each move whose square is not
   * in the queue yet is appended, at the given distance, in order.
   */
  function EnqueueAll(queue: seq<Node>, moves: seq<int>, distance: nat): seq<Node>
  {
    if |moves| == 0 then queue
    else
      var q := EnqueueAll(queue, moves[..|moves| - 1], distance);
      var node := Node(moves[|moves| - 1], distance);
      if Contains(q, node) then q else q + [node]
  }

  /**
   * Enqueueing keeps the queue as a prefix, appends only the moves at the new
   * distance, leaves every move's square in the queue and adds no duplicate.
   */
  lemma {:induction false} EnqueueAllFacts(queue: seq<Node>, moves: seq<int>, distance: nat)
    ensures |queue| <= |EnqueueAll(queue, moves, distance)|
    ensures EnqueueAll(queue, moves, distance)[..|queue|] == queue
    ensures forall a :: |queue| <= a < |EnqueueAll(queue, moves, distance)| ==>
      EnqueueAll(queue, moves, distance)[a].distance == distance && EnqueueAll(queue, moves, distance)[a].index in moves
    ensures forall m :: m in moves ==> Contains(EnqueueAll(queue, moves, distance), Node(m, distance))
    ensures Distinct(queue) ==> Distinct(EnqueueAll(queue, moves, distance))
  {
    if |moves| > 0 {
      var init := moves[..|moves| - 1];
      EnqueueAllFacts(queue, init, distance);
      var q := EnqueueAll(queue, init, distance);
      var node := Node(moves[|moves| - 1], distance);
      if !Contains(q, node) {
        var r := q + [node];
        assert r[..|q|] == q;
        assert r[..|queue|] == q[..|queue|];
        forall m | m in moves ensures Contains(r, Node(m, distance)) {
          if m in init {
            var a :| 0 <= a < |q| && q[a].Equals(Node(m, distance));
            assert r[a] == q[a];
          } else {
            assert r[|q|].Equals(Node(m, distance));
          }
        }
      }
    }
  }

  /** How many nodes of the queue carry the given distance. */
  function CountAt(queue: seq<Node>, distance: nat): nat
  {
    if |queue| == 0 then 0
    else (if queue[0].distance == distance then 1 else 0) + CountAt(queue[1..], distance)
  }

  lemma {:induction false} CountAtAppend(queue: seq<Node>, node: Node, distance: nat)
    requires node.distance != distance
    ensures CountAt(queue + [node], distance) == CountAt(queue, distance)
    decreases |queue|
  {
    if |queue| > 0 {
      assert (queue + [node])[1..] == queue[1..] + [node];
      CountAtAppend(queue[1..], node, distance);
    }
  }

  /** Enqueueing nodes one move further away leaves the count at the current distance alone. */
  lemma {:induction false} CountAtEnqueue(queue: seq<Node>, moves: seq<int>, distance: nat)
    ensures CountAt(EnqueueAll(queue, moves, distance + 1), distance) == CountAt(queue, distance)
  {
    if |moves| > 0 {
      var init := moves[..|moves| - 1];
      CountAtEnqueue(queue, init, distance);
      var q := EnqueueAll(queue, init, distance + 1);
      var node := Node(moves[|moves| - 1], distance + 1);
      if !Contains(q, node) {
        CountAtAppend(q, node, distance);
      }
    }
  }

  /** A queue of distinct squares of the board holds at most 64 nodes. */
  lemma QueueAtMost64(queue: seq<Node>)
    requires Distinct(queue) && OnBoardNodes(queue)
    ensures |queue| <= 64
  {
    var s := seq(|queue|, a requires 0 <= a < |queue| => queue[a].index);
    PigeonHole(s, 64);
  }

  /** n distinct numbers below n: no more. */
  lemma {:induction false} PigeonHole(s: seq<int>, n: nat)
    requires forall a :: 0 <= a < |s| ==> 0 <= s[a] < n
    requires forall a, b :: 0 <= a < b < |s| ==> s[a] != s[b]
    ensures |s| <= n
    decreases |s|
  {
    if |s| > 0 {
      var last := s[|s| - 1];
      var t := seq(|s| - 1, a requires 0 <= a < |s| - 1 => if s[a] == n - 1 then last else s[a]);
      PigeonHole(t, n - 1);
    }
  }

  /** Square v can be reached from src in at most k knight moves. */
  ghost predicate Reachable(src: int, v: int, k: nat)
    decreases k
  {
    if k == 0 then v == src
    else Reachable(src, v, k - 1) || exists w :: 0 <= w < 64 && Reachable(src, w, k - 1) && v in KnightMoves(w)
  }

  /**
   * The search has dealt with square v within k moves: it was taken from
   * the queue at a distance of at most k, or it waits in the queue at such
   * a distance. `popped` keeps the distance at which each square was first
   * taken from the queue.
   */
  ghost predicate Seen(popped: map<int, nat>, queue: seq<Node>, v: int, k: nat)
  {
    (v in popped && popped[v] <= k) || exists a :: 0 <= a < |queue| && queue[a].index == v && queue[a].distance <= k
  }

  /** The moves of every square taken from the queue have been seen one move further on. */
  ghost predicate Expanded(popped: map<int, nat>, queue: seq<Node>)
  {
    forall w :: w in popped ==> 0 <= w < 64 && forall m :: m in KnightMoves(w) ==> Seen(popped, queue, m, popped[w] + 1)
  }

  /** Every square within k <= limit moves has been seen within k moves. */
  ghost predicate Complete(src: int, popped: map<int, nat>, queue: seq<Node>, limit: nat)
  {
    forall v: int, k: nat :: k <= limit && Reachable(src, v, k) ==> Seen(popped, queue, v, k)
  }

  /** Every node of the queue is reachable at its distance. */
  ghost predicate Sound(src: int, queue: seq<Node>)
  {
    forall a :: 0 <= a < |queue| ==> Reachable(src, queue[a].index, queue[a].distance)
  }

  /** Every square taken off the queue was reachable at the distance recorded, which is at most the limit. */
  ghost predicate PoppedSound(src: int, popped: map<int, nat>, limit: nat)
  {
    forall w :: w in popped ==> Reachable(src, w, popped[w]) && popped[w] <= limit
  }

  /** Record that a node was taken from the queue, unless its square was taken before. */
  function Pop(popped: map<int, nat>, node: Node): map<int, nat>
  {
    if node.index in popped then popped else popped[node.index := node.distance]
  }

  /**
   * The invariant of the search loop, with `target` a distance at which dest
   * is known to be reachable.
   */
  ghost predicate Searching(src: int, dest: int, target: nat, queue: seq<Node>, popped: map<int, nat>)
  {
    && |queue| > 0
    && Distinct(queue) && OnBoardNodes(queue) && Layered(queue)
    && Sound(src, queue)
    && dest !in popped
    && PoppedSound(src, popped, queue[0].distance)
    && Expanded(popped, queue)
    && Complete(src, popped, queue, queue[0].distance)
    && queue[0].distance <= target && Reachable(src, dest, target)
  }

  lemma SearchStart(src: int, dest: int, target: nat)
    requires 0 <= src < 64 && Reachable(src, dest, target)
    ensures Searching(src, dest, target, [Node(src, 0)], map[])
  {
  }

  /** Whatever was seen before taking the front node off is still seen after the moves are enqueued. */
  lemma SeenCarries(popped: map<int, nat>, queue: seq<Node>, moves: seq<int>, v: int, k: nat)
    requires |queue| > 0
    requires forall w :: w in popped ==> popped[w] <= queue[0].distance
    requires Seen(popped, queue, v, k)
    ensures Seen(Pop(popped, queue[0]), EnqueueAll(queue[1..], moves, queue[0].distance + 1), v, k)
  {
    EnqueueAllFacts(queue[1..], moves, queue[0].distance + 1);
    var q := EnqueueAll(queue[1..], moves, queue[0].distance + 1);
    if !(v in popped && popped[v] <= k) {
      var a :| 0 <= a < |queue| && queue[a].index == v && queue[a].distance <= k;
      if a > 0 {
        assert q[a - 1] == queue[a];
      }
    }
  }

  /** Taking a reachable node off the queue keeps the record of taken squares sound. */
  lemma PoppedStep(src: int, popped: map<int, nat>, node: Node, limit: nat)
    requires PoppedSound(src, popped, node.distance)
    requires Reachable(src, node.index, node.distance) && node.distance <= limit
    ensures PoppedSound(src, Pop(popped, node), limit)
  {
  }

  /** After one round the queue is non-empty, distinct, on the board, and at the old front distance or one more. */
  lemma EnqueueShape(queue: seq<Node>, moves: seq<int>)
    requires |queue| > 0 && Distinct(queue) && OnBoardNodes(queue) && Layered(queue)
    requires 0 <= queue[0].index < 64 && moves == KnightMoves(queue[0].index)
    ensures var q := EnqueueAll(queue[1..], moves, queue[0].distance + 1);
      && |q| > 0 && Distinct(q) && OnBoardNodes(q)
      && forall a :: 0 <= a < |q| ==> queue[0].distance <= q[a].distance <= queue[0].distance + 1
  {
    var d := queue[0].distance;
    var rest := queue[1..];
    EnqueueAllFacts(rest, moves, d + 1);
    MovesOnBoard(queue[0].index);
    MovesNonEmpty(queue[0].index);
    var q := EnqueueAll(rest, moves, d + 1);
    assert Contains(q, Node(moves[0], d + 1));
    forall a | 0 <= a < |q| ensures d <= q[a].distance <= d + 1 && 0 <= q[a].index < 64 {
      if a < |rest| {
        assert q[a] == rest[a] == queue[a + 1];
      }
    }
  }

  /** After one round the distances still never drop from front to back. */
  lemma LayeredStep(queue: seq<Node>, moves: seq<int>)
    requires |queue| > 0 && Layered(queue)
    requires var q := EnqueueAll(queue[1..], moves, queue[0].distance + 1);
      forall a :: 0 <= a < |q| ==> queue[0].distance <= q[a].distance <= queue[0].distance + 1
    ensures Layered(EnqueueAll(queue[1..], moves, queue[0].distance + 1))
  {
    var rest := queue[1..];
    EnqueueAllFacts(rest, moves, queue[0].distance + 1);
    var q := EnqueueAll(rest, moves, queue[0].distance + 1);
    forall a, b | 0 <= a <= b < |q| ensures q[a].distance <= q[b].distance {
      if b < |rest| {
        assert q[a] == queue[a + 1] && q[b] == queue[b + 1];
      }
    }
  }

  /** The shape of the queue after one round, and the progress the round makes. */
  lemma ShapeStep(queue: seq<Node>, moves: seq<int>)
    requires |queue| > 0 && Distinct(queue) && OnBoardNodes(queue) && Layered(queue)
    requires 0 <= queue[0].index < 64 && moves == KnightMoves(queue[0].index)
    ensures var q := EnqueueAll(queue[1..], moves, queue[0].distance + 1);
      && |q| > 0 && Distinct(q) && OnBoardNodes(q) && Layered(q)
      && queue[0].distance <= q[0].distance <= queue[0].distance + 1
      && (q[0].distance > queue[0].distance
          || (q[0].distance == queue[0].distance && CountAt(q, queue[0].distance) < CountAt(queue, queue[0].distance)))
  {
    EnqueueShape(queue, moves);
    LayeredStep(queue, moves);
    CountAtEnqueue(queue[1..], moves, queue[0].distance);
  }

  /** After one round every node of the queue is still reachable at its distance. */
  lemma SoundStep(src: int, queue: seq<Node>, moves: seq<int>)
    requires |queue| > 0 && 0 <= queue[0].index < 64 && moves == KnightMoves(queue[0].index)
    requires Sound(src, queue)
    ensures Sound(src, EnqueueAll(queue[1..], moves, queue[0].distance + 1))
  {
    var u := queue[0];
    var rest := queue[1..];
    EnqueueAllFacts(rest, moves, u.distance + 1);
    var q := EnqueueAll(rest, moves, u.distance + 1);
    forall a | 0 <= a < |q| ensures Reachable(src, q[a].index, q[a].distance) {
      if a < |rest| {
        assert q[a] == queue[a + 1];
      } else {
        assert Reachable(src, u.index, u.distance);
      }
    }
  }

  /** After one round each move waits in the queue at most one move further than the node taken off. */
  lemma MoveQueued(queue: seq<Node>, moves: seq<int>, m: int)
    requires |queue| > 0 && Layered(queue) && m in moves
    ensures var q := EnqueueAll(queue[1..], moves, queue[0].distance + 1);
      exists a :: 0 <= a < |q| && q[a].index == m && q[a].distance <= queue[0].distance + 1
  {
    var rest := queue[1..];
    EnqueueAllFacts(rest, moves, queue[0].distance + 1);
    var q := EnqueueAll(rest, moves, queue[0].distance + 1);
    var a :| 0 <= a < |q| && q[a].Equals(Node(m, queue[0].distance + 1));
    if a < |rest| {
      assert q[a] == queue[a + 1];
    }
  }

  /** After one round the moves of every square taken off the queue are still seen. */
  lemma ExpandedStep(queue: seq<Node>, popped: map<int, nat>, moves: seq<int>)
    requires |queue| > 0 && 0 <= queue[0].index < 64 && moves == KnightMoves(queue[0].index)
    requires Layered(queue) && Expanded(popped, queue)
    requires forall w :: w in popped ==> popped[w] <= queue[0].distance
    ensures Expanded(Pop(popped, queue[0]), EnqueueAll(queue[1..], moves, queue[0].distance + 1))
  {
    var u := queue[0];
    var rest := queue[1..];
    var q := EnqueueAll(rest, moves, u.distance + 1);
    var p := Pop(popped, u);
    forall w, m | w in p && m in KnightMoves(w) ensures Seen(p, q, m, p[w] + 1) {
      if w in popped {
        SeenCarries(popped, queue, moves, m, popped[w] + 1);
      } else {
        MoveQueued(queue, moves, m);
      }
    }
  }

  /** After one round everything within the new front distance has been seen. */
  lemma CompleteStep(src: int, queue: seq<Node>, popped: map<int, nat>, moves: seq<int>)
    requires |queue| > 0 && 0 <= queue[0].index < 64 && moves == KnightMoves(queue[0].index)
    requires forall w :: w in popped ==> popped[w] <= queue[0].distance
    requires Complete(src, popped, queue, queue[0].distance)
    requires var q := EnqueueAll(queue[1..], moves, queue[0].distance + 1);
      && |q| > 0 && Layered(q) && queue[0].distance <= q[0].distance <= queue[0].distance + 1
      && Expanded(Pop(popped, queue[0]), q)
    ensures var q := EnqueueAll(queue[1..], moves, queue[0].distance + 1);
      Complete(src, Pop(popped, queue[0]), q, q[0].distance)
  {
    var d := queue[0].distance;
    var q := EnqueueAll(queue[1..], moves, d + 1);
    var p := Pop(popped, queue[0]);
    forall v: int, k: nat | k <= q[0].distance && Reachable(src, v, k) ensures Seen(p, q, v, k) {
      if k <= d {
        SeenCarries(popped, queue, moves, v, k);
      } else if Reachable(src, v, d) {
        SeenCarries(popped, queue, moves, v, d);
      } else {
        var w :| 0 <= w < 64 && Reachable(src, w, d) && v in KnightMoves(w);
        SeenCarries(popped, queue, moves, w, d);
        assert w in p && p[w] <= d;
      }
    }
  }

  /** The front distance cannot pass a distance at which dest, not yet taken off the queue, is reachable. */
  lemma TargetStep(src: int, dest: int, target: nat, popped: map<int, nat>, queue: seq<Node>)
    requires |queue| > 0 && Layered(queue) && dest !in popped
    requires Complete(src, popped, queue, queue[0].distance) && Reachable(src, dest, target)
    requires queue[0].distance <= target + 1
    ensures queue[0].distance <= target
  {
    if target <= queue[0].distance {
      assert Seen(popped, queue, dest, target);
    }
  }

  /** One round of the loop keeps the invariant, and the search gets nearer its end. */
  lemma SearchStep(src: int, dest: int, target: nat, queue: seq<Node>, popped: map<int, nat>, moves: seq<int>,
                   queue': seq<Node>, popped': map<int, nat>)
    requires Searching(src, dest, target, queue, popped)
    requires queue[0].index != dest
    requires moves == KnightMoves(queue[0].index)
    requires queue' == EnqueueAll(queue[1..], moves, queue[0].distance + 1)
    requires popped' == Pop(popped, queue[0])
    ensures Searching(src, dest, target, queue', popped')
    ensures queue'[0].distance > queue[0].distance
      || (queue'[0].distance == queue[0].distance && CountAt(queue', queue[0].distance) < CountAt(queue, queue[0].distance))
  {
    ShapeStep(queue, moves);
    SoundStep(src, queue, moves);
    ExpandedStep(queue, popped, moves);
    CompleteStep(src, queue, popped, moves);
    PoppedStep(src, popped, queue[0], queue'[0].distance);
    TargetStep(src, dest, target, popped', queue');
  }

  /** When dest comes off the queue, its distance is the fewest moves that reach it. */
  lemma FoundIsNearest(src: int, dest: int, target: nat, queue: seq<Node>, popped: map<int, nat>)
    requires Searching(src, dest, target, queue, popped)
    requires queue[0].index == dest
    ensures Reachable(src, dest, queue[0].distance)
    ensures forall k: nat :: k < queue[0].distance ==> !Reachable(src, dest, k)
  {
    forall k: nat | k < queue[0].distance ensures !Reachable(src, dest, k) {
    }
  }

  /**
   * The `for move in valid_moves` loop of `solution`: append a node for each
   * move unless a node on the same square is already in the queue.
   */
  method EnqueueMoves(queue: seq<Node>, moves: seq<int>, distance: nat) returns (queue': seq<Node>)
    ensures queue' == EnqueueAll(queue, moves, distance)
  {
    queue' := queue;
    for j := 0 to |moves|
      invariant queue' == EnqueueAll(queue, moves[..j], distance)
    {
      var moveNode := Node(moves[j], distance);
      assert moves[..j + 1][..j] == moves[..j];
      if !Contains(queue', moveNode) {
        queue' := queue' + [moveNode];
      }
    }
    assert moves[..|moves|] == moves;
  }

  /**
   * `solution(src, dest)`: breadth-first search from src. Take the front
   * node off the queue; stop if it is on dest; otherwise append a node one
   * move further for each of its moves whose square is not in the queue.
   * Squares taken off the queue are not remembered, so a square can be
   * queued again later.
   */
  method Solution(src: int, dest: int) returns (moves: Option<nat>)
    requires 0 <= src < 64
    requires exists k: nat :: Reachable(src, dest, k)
    ensures moves.Some?
    ensures Reachable(src, dest, moves.value)
    ensures forall k: nat :: k < moves.value ==> !Reachable(src, dest, k)
    ensures src == dest ==> moves == Some(0)
  {
    var chessboard := new Chessboard();
    var queue := [Node(src, 0)];
    ghost var target: nat :| Reachable(src, dest, target);
    ghost var popped: map<int, nat> := map[];
    SearchStart(src, dest, target);
    while |queue| > 0
      invariant chessboard.Valid()
      invariant Searching(src, dest, target, queue, popped)
      invariant |queue| <= 64
      decreases target - queue[0].distance, CountAt(queue, queue[0].distance)
    {
      ghost var before := queue;
      var thisElem := queue[0];
      queue := queue[1..];
      if thisElem.index == dest {
        FoundIsNearest(src, dest, target, before, popped);
        return Some(thisElem.distance);
      }
      var validMoves := chessboard.GetValidMoves(thisElem.index);
      queue := EnqueueMoves(queue, validMoves, thisElem.distance + 1);
      ghost var poppedBefore := popped;
      popped := Pop(popped, thisElem);
      SearchStep(src, dest, target, before, poppedBefore, validMoves, queue, popped);
      QueueAtMost64(queue);
    }
    moves := None;
  }
}
