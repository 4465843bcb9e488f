/** The tractor game behind `POST /api/tech/run` (main.cpp:158-175): a robot
    starts in the top-left corner of a fixed 3x3 field and follows a list of
    integer commands until it leaves the field or hits a wall ("CRASH"),
    reaches the goal ("WIN"), or runs out of commands ("Lost"). */
module TechGrid {
  import opened Optional

  datatype Status = Lost | Crash | Win

  datatype Pos = Pos(r: int, c: int)

  /** What the cell a move lands on means for the walk. */
  datatype Landing = Open | Blocked | Goal

  const Start := Pos(0, 0)

  /** The field `{{0,0,0},{1,1,0},{0,0,3}}`: 1 is a wall, 3 the goal. */
  const Layout: seq<seq<int>> := [[0, 0, 0], [1, 1, 0], [0, 0, 3]]

  const GoalPos := Pos(2, 2)

  /** The cells a robot may stand on, listed by hand. */
  const OpenCells: set<Pos> := {Pos(0, 0), Pos(0, 1), Pos(0, 2), Pos(1, 2), Pos(2, 0), Pos(2, 1)}

  const IntBits: int := 0x1_0000_0000

  predicate InGrid(p: Pos) {
    0 <= p.r <= 2 && 0 <= p.c <= 2
  }

  /** `grid[r][c]`; only defined inside the field. */
  function Cell(p: Pos): int
    requires InGrid(p)
  {
    Layout[p.r][p.c]
  }

  /** The C++ conversion of the JSON command (a 64-bit integer) to `int`,
      which keeps the low 32 bits. */
  function ToCInt(x: int): (m: int)
    ensures -IntBits / 2 <= m < IntBits / 2
    ensures (x - m) % IntBits == 0
    ensures -IntBits / 2 <= x < IntBits / 2 ==> m == x
  {
    var low := x % IntBits;
    if low >= IntBits / 2 then low - IntBits else low
  }

  /** One command: 0 is up (`r--`), 1 down (`r++`), 2 left (`c--`), 3 right
      (`c++`); any other value leaves the robot where it is. */
  function Move(p: Pos, m: int): Pos {
    if m == 0 then Pos(p.r - 1, p.c)
    else if m == 1 then Pos(p.r + 1, p.c)
    else if m == 2 then Pos(p.r, p.c - 1)
    else if m == 3 then Pos(p.r, p.c + 1)
    else p
  }

  predicate IsMove(m: int) {
    0 <= m <= 3
  }

  /** The two checks made after every move. The bounds test comes first and
      short-circuits, so the cell is read only inside the field. */
  function Judge(p: Pos): (l: Landing)
    ensures l == Goal <==> p == GoalPos
    ensures l == Open <==> p in OpenCells
    ensures l == Blocked <==> !InGrid(p) || (p.r == 1 && p.c <= 1)
  {
    if !InGrid(p) || Cell(p) == 1 then Blocked
    else if Cell(p) == 3 then Goal
    else Open
  }

  /** The command loop as a fold: stop at the first blocked or goal cell. */
  function Walk(p: Pos, cmds: seq<int>): Status
    decreases |cmds|
  {
    if |cmds| == 0 then Lost
    else
      var q := Move(p, cmds[0]);
      match Judge(q)
      case Blocked => Crash
      case Goal => Win
      case Open => Walk(q, cmds[1..])
  }

  /** Where the commands would take the robot if nothing ever stopped it. */
  function Drift(p: Pos, cmds: seq<int>): Pos
    decreases |cmds|
  {
    if |cmds| == 0 then p else Drift(Move(p, cmds[0]), cmds[1..])
  }

  /** The cells the robot would land on, one per command, ignoring stops. */
  function Trail(p: Pos, cmds: seq<int>): (t: seq<Pos>)
    ensures |t| == |cmds|
    decreases |cmds|
  {
    if |cmds| == 0 then [] else var q := Move(p, cmds[0]); [q] + Trail(q, cmds[1..])
  }

  /** The first `k` landings were all open cells. */
  ghost predicate OpenUpTo(t: seq<Pos>, k: nat)
    requires k <= |t|
  {
    forall j :: 0 <= j < k ==> Judge(t[j]) == Open
  }

  /** The `k`-th landing is the first one that is not open, and it is `l`. */
  ghost predicate StopsAt(t: seq<Pos>, k: nat, l: Landing) {
    k < |t| && OpenUpTo(t, k) && Judge(t[k]) == l
  }

  /** The JSON reply's `status` text. */
  function StatusText(s: Status): string {
    match s
    case Lost => "Lost"
    case Crash => "CRASH"
    case Win => "WIN"
  }

  /** The handler: `commands` may be absent; each value is narrowed to `int`. */
  function TechRun(commands: Option<seq<int>>): (text: string)
    ensures text == "Lost" || text == "CRASH" || text == "WIN"
    ensures commands.None? ==> text == "Lost"
    ensures commands.Some? && |commands.value| == 0 ==> text == "Lost"
  {
    match commands
    case None => StatusText(Lost)
    case Some(values) => StatusText(Walk(Start, seq(|values|, i requires 0 <= i < |values| => ToCInt(values[i]))))
  }

  /** The handler's loop as written: mutable `r`, `c`, `status` and `break`.
      Every read of the layout is inside the field. */
  method Run(cmds: seq<int>) returns (status: Status)
    ensures status == Walk(Start, cmds)
  {
    var r, c := 0, 0;
    status := Lost;
    var i := 0;
    while i < |cmds|
      invariant 0 <= i <= |cmds|
      invariant status == Lost
      invariant Walk(Start, cmds) == Walk(Pos(r, c), cmds[i..])
    {
      var m := cmds[i];
      assert cmds[i..][0] == m && cmds[i..][1..] == cmds[i + 1..];
      if m == 0 { r := r - 1; } else if m == 1 { r := r + 1; } else if m == 2 { c := c - 1; } else if m == 3 { c := c + 1; }
      if r < 0 || r > 2 || c < 0 || c > 2 || Layout[r][c] == 1 {
        status := Crash;
        break;
      }
      if Layout[r][c] == 3 {
        status := Win;
        break;
      }
      i := i + 1;
    }
  }

  /** A walk that has stopped ignores every later command; one still going
      continues from where the commands took it. */
  lemma {:induction false} WalkSplit(p: Pos, a: seq<int>, b: seq<int>)
    ensures Walk(p, a + b) == if Walk(p, a) == Lost then Walk(Drift(p, a), b) else Walk(p, a)
    decreases |a|
  {
    if |a| > 0 {
      assert (a + b)[0] == a[0];
      assert (a + b)[1..] == a[1..] + b;
      var q := Move(p, a[0]);
      if Judge(q) == Open {
        WalkSplit(q, a[1..], b);
      }
    } else {
      assert a + b == b;
    }
  }

  /** The outcome read off the unstopped trail: crash or win at the first
      landing that is not open, and "Lost" when every landing is open. */
  lemma {:induction false} WalkByTrail(p: Pos, cmds: seq<int>)
    ensures Walk(p, cmds) == Lost <==> OpenUpTo(Trail(p, cmds), |cmds|)
    ensures Walk(p, cmds) == Crash <==> exists k: nat :: StopsAt(Trail(p, cmds), k, Blocked)
    ensures Walk(p, cmds) == Win <==> exists k: nat :: StopsAt(Trail(p, cmds), k, Goal)
    decreases |cmds|
  {
    var t := Trail(p, cmds);
    if |cmds| > 0 {
      var q := Move(p, cmds[0]);
      var rest := Trail(q, cmds[1..]);
      assert t == [q] + rest;
      if Judge(q) == Open {
        WalkByTrail(q, cmds[1..]);
        StopsAfterOpen(q, rest, Blocked);
        StopsAfterOpen(q, rest, Goal);
        assert OpenUpTo(t, |cmds|) <==> OpenUpTo(rest, |cmds| - 1) by {
          assert forall j :: 1 <= j < |cmds| ==> t[j] == rest[j - 1];
        }
      } else {
        assert StopsAt(t, 0, Judge(q));
        forall k: nat, l: Landing | StopsAt(t, k, l)
          ensures k == 0 && l == Judge(q)
        {
        }
      }
    }
  }

  /** Prefixing an open landing shifts the first stop by one. */
  lemma StopsAfterOpen(q: Pos, rest: seq<Pos>, l: Landing)
    requires Judge(q) == Open && l != Open
    ensures (exists k: nat :: StopsAt([q] + rest, k, l)) <==> (exists k: nat :: StopsAt(rest, k, l))
  {
    var t := [q] + rest;
    if k: nat :| StopsAt(t, k, l) {
      assert k != 0;
      assert forall j :: 0 <= j < k - 1 ==> rest[j] == t[j + 1];
      assert StopsAt(rest, k - 1, l);
    }
    if k: nat :| StopsAt(rest, k, l) {
      assert forall j :: 1 <= j < k + 1 ==> t[j] == rest[j - 1];
      assert StopsAt(t, k + 1, l);
    }
  }

  /** A command outside 0..3 changes nothing: removing it from anywhere in a
      walk that starts on an open cell leaves the outcome as it was. */
  lemma {:induction false} IdleCommandIgnored(p: Pos, a: seq<int>, m: int, b: seq<int>)
    requires Judge(p) == Open
    requires !IsMove(m)
    ensures Walk(p, a + [m] + b) == Walk(p, a + b)
    decreases |a|
  {
    if |a| == 0 {
      assert a + [m] + b == [m] + b;
      assert a + b == b;
      assert ([m] + b)[1..] == b;
    } else {
      var q := Move(p, a[0]);
      assert (a + [m] + b)[0] == a[0] && (a + [m] + b)[1..] == a[1..] + [m] + b;
      assert (a + b)[0] == a[0] && (a + b)[1..] == a[1..] + b;
      if Judge(q) == Open {
        IdleCommandIgnored(q, a[1..], m, b);
      }
    }
  }

  /** The walk from the start wins exactly when it reaches the goal cell
      before any crash; "WIN" is never reported from any other cell. */
  lemma {:induction false} WinMeansGoalReached(p: Pos, cmds: seq<int>)
    requires Walk(p, cmds) == Win
    ensures exists k: nat :: 0 <= k < |cmds| && Trail(p, cmds)[k] == GoalPos
  {
    WalkByTrail(p, cmds);
    var k: nat :| StopsAt(Trail(p, cmds), k, Goal);
    assert Trail(p, cmds)[k] == GoalPos;
  }
}
