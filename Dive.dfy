/** The submarine course of puzzles/2021/src/day02.cpp. A course is a list
    of steps; each step moves the submarine forward, down or up. Two
    readings of the same course exist: in the first, down and up change
    the depth; in the second, they change the aim, and forward dives by
    aim times the distance. */
module Dive {

  datatype Direction = Forward | Down | Up

  datatype Step = Step(dir: Direction, magnitude: int)

  /** (forward, depth, aim) */
  datatype Coordinates = Coordinates(forward: int, depth: int, aim: int)

  /** move_version1 */
  function MoveVersion1(c: Coordinates, d: Step): Coordinates {
    match d.dir
    case Forward => c.(forward := c.forward + d.magnitude)
    case Down => c.(depth := c.depth + d.magnitude)
    case Up => c.(depth := c.depth - d.magnitude)
  }

  /** move_version2 */
  function MoveVersion2(c: Coordinates, d: Step): Coordinates {
    match d.dir
    case Forward => c.(forward := c.forward + d.magnitude, depth := c.depth + c.aim * d.magnitude)
    case Down => c.(aim := c.aim + d.magnitude)
    case Up => c.(aim := c.aim - d.magnitude)
  }

  /** follow_path: std::accumulate of the move over the course, starting
      from a value-initialised (0, 0, 0). */
  function FollowPath(course: seq<Step>, move: (Coordinates, Step) -> Coordinates): Coordinates {
    if |course| == 0 then Coordinates(0, 0, 0)
    else move(FollowPath(course[..|course| - 1], move), course[|course| - 1])
  }

  /** print_result: the product of the horizontal position and the depth. */
  function Answer(c: Coordinates): int {
    c.forward * c.depth
  }

  // ---------------------------------------------------------------------
  // The course in closed form
  // ---------------------------------------------------------------------

  /** The total distance of the steps in direction dir. */
  function Total(course: seq<Step>, dir: Direction): int {
    if |course| == 0 then 0
    else Total(course[..|course| - 1], dir) + (if course[|course| - 1].dir == dir then course[|course| - 1].magnitude else 0)
  }

  /** Down minus up over the course. */
  function Vertical(course: seq<Step>): int {
    Total(course, Down) - Total(course, Up)
  }

  /** The second reading's depth: each forward step dives by the
      vertical total of the steps before it, times its distance. */
  function AimedDepth(course: seq<Step>): int {
    if |course| == 0 then 0
    else
      var init := course[..|course| - 1];
      var last := course[|course| - 1];
      AimedDepth(init) + (if last.dir == Forward then Vertical(init) * last.magnitude else 0)
  }

  /** In the first reading, the position is the forward total, the depth
      is down minus up, and the aim stays 0. */
  lemma {:induction false} Version1ClosedForm(course: seq<Step>)
    ensures FollowPath(course, MoveVersion1) == Coordinates(Total(course, Forward), Vertical(course), 0)
    decreases |course|
  {
    if |course| > 0 {
      Version1ClosedForm(course[..|course| - 1]);
    }
  }

  /** In the second reading, the position is the same forward total, the
      aim is down minus up, and the depth is the aimed depth. */
  lemma {:induction false} Version2ClosedForm(course: seq<Step>)
    ensures FollowPath(course, MoveVersion2) == Coordinates(Total(course, Forward), AimedDepth(course), Vertical(course))
    decreases |course|
  {
    if |course| > 0 {
      Version2ClosedForm(course[..|course| - 1]);
    }
  }

  /** The two readings agree on the position, and the second one's aim is
      the first one's depth. */
  lemma ReadingsRelated(course: seq<Step>)
    ensures FollowPath(course, MoveVersion2).forward == FollowPath(course, MoveVersion1).forward
    ensures FollowPath(course, MoveVersion2).aim == FollowPath(course, MoveVersion1).depth
  {
    Version1ClosedForm(course);
    Version2ClosedForm(course);
  }

  /** Following a course in two parts is following the first part, then
      the second from where the first ended. */
  lemma {:induction false} FollowSplit(a: seq<Step>, b: seq<Step>, move: (Coordinates, Step) -> Coordinates)
    ensures FollowPath(a + b, move) == FoldFrom(FollowPath(a, move), b, move)
    decreases |b|
  {
    if |b| == 0 {
      assert a + b == a;
    } else {
      var init := b[..|b| - 1];
      FollowSplit(a, init, move);
      assert (a + b)[..|a + b| - 1] == a + init;
    }
  }

  /** The fold from a given start. */
  function FoldFrom(start: Coordinates, course: seq<Step>, move: (Coordinates, Step) -> Coordinates): Coordinates {
    if |course| == 0 then start
    else move(FoldFrom(start, course[..|course| - 1], move), course[|course| - 1])
  }
}
